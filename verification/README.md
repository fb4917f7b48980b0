# Mosalloc, verified

Mosalloc places a program's memory in regions that are backed by pages of three sizes, and hands out addresses
of such a region with a first-fit allocator. Its repository also holds a small ptrace-based tracer and a copy of
googletest and googlemock, its test framework. This project models the parts of that code that do something
hard, in the form in which they are written (classes over an array of slots, over flow vectors, over a window
list, over a process table), and proves what they promise. `dafny verify dfyconfig.toml` checks all of it.

| file | what it holds |
|---|---|
| `Blocks.dfy` | address blocks, and the first-fit pool as a value: what each call returns and leaves behind |
| `FirstFitAllocator.dfy` | the slot table: two index chains through one array, each method proved to do what `Blocks` says |
| `PoolLaws.dfy` | what one call on a pool keeps, restores and guarantees |
| `PoolRuns.dfy` | whole runs, the validation test, and freeing everything in any order |
| `Matchings.dfy`, `MatchMatrix.dfy` | matchings and vertex covers; the flattened matrix |
| `MaxBipartiteMatchState.dfy` | the augmenting-path search and the proof that its matching is a maximum |
| `UnorderedElementsAre.dfy` | the decision built on it |
| `Globals.dfy`, `MemoryIntervalList.dfy` | rounding and alignment; the interval list and its sort |
| `Windows.dfy` | windows that partition a region, and page ends measured from a window's start |
| `RegionLayout.dfy`, `MosaicRegion.dfy` | the base address and the window list; growing, shrinking and resizing over a map of mapped addresses |
| `SimpleRegex.dfy`, `SimpleRegexEngine.dfy` | grammar and language of simple regular expressions; validator and matcher |
| `Graphs.dfy`, `Expectations.dfy` | finite graphs; expectations and their prerequisites |
| `Ptrace.dfy` | the tracer's event loop and its callback protocol |
| `Sets.dfy` | counting in finite sets |

A method that changes state is proved against a function of its old state (`Allocate` against `Blocks.Allocated`,
`Free` against `Blocks.Freed`, `Resize` against `Windows.SizeAfter`, and so on); the promises are then proved about
that function, for all inputs and all runs.

## What came out

* `FirstFitAllocator::Free` keeps the table valid iff the call is one that `PoolLaws.SafeFree` describes. It fails
  for an address inside a block (an acknowledged gap of the source), for a proper prefix of a block when no free node
  touches it and no slot is unused (line 380 has shrunk the block before line 262 gives up), and for size 0 when no
  free node touches the address and a slot is unused (an empty node is inserted). Each of these happens in a pool
  that a single `Allocate` reaches (`PoolRuns.PrefixFreeBreaks`, `InnerFreeBreaks`, `EmptyFreeBreaks`).
* The validation notices an empty node iff the node does not lie at the very end of the pool.
* A fully allocated pool whose blocks are all freed becomes one free node again iff no block is freed after both of
  its neighbours, unless a later one is freed before both of its own (`PoolRuns.BridgedLast`, a condition on the order
  alone), because the early returns at lines 249-256 skip the merge. Ascending and descending orders are always fine;
  an order that ends with a block that touches neither end of the pool never is.
* `RE::FullMatch` matches the whole string iff the pattern does not end in an escaped `$`. For a pattern that does, it
  accepts strings that only start with a match.
* `Sequence::AddExpectation` closes a cycle of prerequisites iff the last expectation of the sequence already waits for
  the new one, as happens when two expectations are put into two sequences in opposite orders
  (`Expectations.CrossedSequences`). Without cycles among the expectations that they pass, the walks over prerequisites
  end although they keep no set of visited nodes.
* Retirement stays closed under prerequisites, on which the short cut of `RetireAllPreRequisites` relies, under every
  call, but not when `AddExpectation` makes a retired expectation wait for one that is not retired
  (`Expectations.LateSequence` is such a run).
* The search that explains a failed call finds something iff some prerequisite is unsatisfied, as long as the
  prerequisites of called and satisfied expectations are satisfied and retired. That holds in every run that puts
  expectations into sequences before they are called: no call breaks it (`Expectations.Call`), and `AddExpectation`
  breaks it exactly under the condition `StaysSettled` rules out.

## Model

| member | source | states |
|---|---|---|
| FirstFitAllocator.FirstFitAllocator.Initialize | src/FirstFitAllocator.cpp:41-80 | a new table is valid and represents one free block that is the whole pool |
| FirstFitAllocator.FirstFitAllocator.FindFreeNode | src/FirstFitAllocator.cpp:82-90 | finds an unused slot, and returns -1 iff there is none |
| FirstFitAllocator.SlotCount | src/FirstFitAllocator.cpp:82-90 | the nodes of both chains never outnumber the slots, and an unused slot exists iff they are fewer |
| FirstFitAllocator.FirstFitAllocator.FindOccupiedMemoryRegionNode | src/FirstFitAllocator.cpp:93-104 | returns the first node of the occupied chain that holds the address, -1 if none does |
| FirstFitAllocator.FirstFitAllocator.AllocateMemoryRegionNode | src/FirstFitAllocator.cpp:120-168 | fails iff it needs an unused slot and there is none, changing nothing; otherwise stores the region and links its slot in address order |
| FirstFitAllocator.FirstFitAllocator.MoveNodeFromFeeListToOccupied | src/FirstFitAllocator.cpp:170-192 | the node leaves the free list and joins the occupied list at its place, and the table stays valid although the slot is on both chains in between |
| FirstFitAllocator.FirstFitAllocator.Allocate | src/FirstFitAllocator.cpp:194-240 | result and new pool are those of Blocks.Allocated, for which AllocateIsFirstFit and AllocateCuts say what they are, and the table stays valid |
| FirstFitAllocator.FirstFitAllocator.AllocateSplit | src/FirstFitAllocator.cpp:226-230 | cuts the request off the front of a longer node iff a slot is left; otherwise nothing changes |
| FirstFitAllocator.FirstFitAllocator.AddFreedRegionToFreeList | src/FirstFitAllocator.cpp:242-298 | result and new pool are those of Blocks.Returned, for which FreeExtends says which node takes the region |
| FirstFitAllocator.FirstFitAllocator.CombineAdjacentFreeNodes | src/FirstFitAllocator.cpp:300-326 | the loop that steps its cursor back ends, and leaves the free list coalesced and absorbed slots unused |
| FirstFitAllocator.FirstFitAllocator.MergeNode | src/FirstFitAllocator.cpp:313-323 | merging a node into its predecessor keeps the table valid and returns the slot |
| FirstFitAllocator.FirstFitAllocator.FreeOccupiedRegionNode | src/FirstFitAllocator.cpp:328-351 | removes exactly the given node from the occupied list; -1 and no change iff it is not on it |
| FirstFitAllocator.FirstFitAllocator.Free | src/FirstFitAllocator.cpp:353-385 | for every address and size, result and new pool are those of Blocks.Freed, for which FreeMoves, FreeExtends, FreeShortens and FreeCodes say what they are, and the chains stay well formed |
| FirstFitAllocator.FirstFitAllocator.GetFreeSpace | src/FirstFitAllocator.cpp:423-434 | the total size of the free blocks |
| FirstFitAllocator.FirstFitAllocator.GetTopAddress | src/FirstFitAllocator.cpp:436-449 | the least upper bound of the pool start and the ends of occupied blocks |
| FirstFitAllocator.FirstFitAllocator.IsValidDataStructure | src/FirstFitAllocator.cpp:468-559 | true iff no two nodes overlap and the sizes add up to the pool |
| FirstFitAllocator.ApartIffNoClash | src/FirstFitAllocator.cpp:469-526 | the four nested overlap loops find something iff two of all nodes overlap |
| PoolLaws.AllocateIsFirstFit | src/FirstFitAllocator.cpp:194-240 | Allocate succeeds iff the lowest free block that is long enough fits exactly or a slot is left; it returns that block's start and moves exactly the requested addresses; on failure nothing changes; the partition is kept |
| PoolLaws.AllocateCuts | src/FirstFitAllocator.cpp:120-240 | the lowest block that is long enough disappears or loses its front, the request becomes an occupied block of its own, and every other node stays what it was |
| PoolLaws.CoalesceCovers | src/FirstFitAllocator.cpp:300-326 | merging keeps the set of free addresses, even of an unsorted list |
| PoolLaws.CoalesceKeeps | src/FirstFitAllocator.cpp:300-326 | merging keeps the order and never needs more slots |
| PoolLaws.CoalesceSeams | src/FirstFitAllocator.cpp:300-326 | merging leaves no two consecutive nodes touching, and changes nothing if none touch |
| PoolLaws.ReturnedCompletes | src/FirstFitAllocator.cpp:242-298 | returning the missing region makes the partition complete iff a free node touches it or a slot is left; otherwise -1 and no change |
| PoolLaws.DetachedLeavesGap | src/FirstFitAllocator.cpp:371-381 | taking a front part off a block leaves exactly that part missing from the partition |
| PoolLaws.FreeKeepsInvariantIff | src/FirstFitAllocator.cpp:353-385 | for every address and size, Free leaves a valid pool behind iff the call is safe |
| PoolLaws.FreeMoves | src/FirstFitAllocator.cpp:353-385 | a safe Free returns 0 and moves exactly the region from occupied to free |
| PoolLaws.FreeExtends | src/FirstFitAllocator.cpp:242-298 | a region that lies in a block extends the free node that ends where it starts, even when another one starts where it ends, and these two are left apart; without it, the one that starts where it ends; every other free node stays what it was; only a region that touches none gets its own node, and then no touching neighbours are left; -1 iff neither a node nor a slot can take it |
| PoolLaws.FreeShortens | src/FirstFitAllocator.cpp:371-381 | the block that holds the address disappears if it has the given size, and otherwise loses its front, wherever in it the address lies; every other block stays what it was |
| PoolLaws.UnsafeFreeLoses | src/FirstFitAllocator.cpp:371-382 | an unsafe Free of a non-empty region breaks the partition |
| PoolLaws.EmptyFree | src/FirstFitAllocator.cpp:353-385 | a Free of size 0 keeps the pool valid iff a free node touches the address or no slot is left |
| PoolLaws.FreeWhole | src/FirstFitAllocator.cpp:328-385 | freeing a whole block returns 0 even with every slot taken, frees its addresses and removes just that block |
| PoolLaws.FreeCodes | src/FirstFitAllocator.cpp:361-370 | -1 for an address in no block, -2 for more than the block holds, both without any change |
| PoolLaws.AllocateThenFree | src/FirstFitAllocator.cpp:194-385 | freeing what Allocate returned succeeds and restores the occupied list, the free addresses and the free space |
| PoolLaws.CellsSize | src/FirstFitAllocator.cpp:423-434 | blocks that do not overlap hold as many addresses as their sizes add up to |
| PoolRuns.FreshIsValid | src/FirstFitAllocator.cpp:71-75 | the pool after Initialize is partitioned |
| PoolRuns.RunKeepsInvariantIff | src/FirstFitAllocator.cpp:41-385 | the partition holds in every state of a run of calls iff every Free of the run is safe when it is made |
| PoolRuns.ConsistentIffExactlyOnce | src/FirstFitAllocator.cpp:468-542 | for nodes inside the pool, the validation accepts iff every pool address lies in exactly one node and every empty node lies at the end of the pool |
| PoolRuns.ValidIsConsistent | src/FirstFitAllocator.cpp:468-542 | every partitioned pool passes the validation; free and occupied space add up to the pool |
| PoolRuns.FreeSeams | src/FirstFitAllocator.cpp:242-326 | how freeing a block changes the number of free nodes that touch their successor |
| PoolRuns.FreeAllMoves | src/FirstFitAllocator.cpp:353-385 | freeing any distinct blocks in any order keeps the partition and moves exactly their addresses |
| PoolRuns.NeighboursKept | src/FirstFitAllocator.cpp:242-326 | whatever was merged, a block still occupied has free neighbours exactly where nodes were free at first or blocks have been freed since |
| PoolRuns.SeamsRemainIff | src/FirstFitAllocator.cpp:242-326 | touching free nodes remain iff some block is freed after both of its neighbours and none later before both of its own |
| PoolRuns.FreeingEverythingIff | src/FirstFitAllocator.cpp:194-326 | freeing every block leaves one free node, from which the whole pool can be allocated, iff the order is not of that kind |
| PoolRuns.AscendingOrder | src/FirstFitAllocator.cpp:194-326 | ascending order always leaves one free node covering the pool |
| PoolRuns.DescendingOrder | src/FirstFitAllocator.cpp:194-326 | so does descending order |
| PoolRuns.InnerBlockLast | src/FirstFitAllocator.cpp:249-256 | however many blocks there are, freeing a block last that touches neither end of the pool leaves several nodes, and allocating the whole pool fails |
| PoolRuns.OutsideInFails | src/FirstFitAllocator.cpp:249-256 | such a run: three allocations, then the two outer blocks and the inner one freed |
| PoolRuns.FullyAllocatedIsReached | src/FirstFitAllocator.cpp:41-240 | every valid pool without free nodes is reached from Initialize by allocating its blocks in address order |
| PoolRuns.OneBlockIsReached | src/FirstFitAllocator.cpp:41-240 | the pool allocated as one block is valid and reached by one Allocate |
| PoolRuns.PrefixFreeBreaks | src/FirstFitAllocator.cpp:371-382 | in that pool with a single slot, freeing a proper prefix returns -1 after cutting the block, and the partition is broken |
| PoolRuns.InnerFreeBreaks | src/FirstFitAllocator.cpp:377-382 | in that pool, freeing a region inside the block returns 0 but cuts another one off it |
| PoolRuns.EmptyFreeBreaks | src/FirstFitAllocator.cpp:353-385 | in that pool, freeing nothing returns 0 and inserts an empty node |
| Matchings.CoverBound | googletest/googlemock/src/gmock-matchers.cc:241-256 | a matching has no more pairs than a vertex cover has nodes |
| Matchings.Exchange | googletest/googlemock/src/gmock-matchers.cc:241-256 | exchanging matched partners in a cover keeps its size |
| MatchMatrix.Matrix.SpaceIndexInjective | googletest/googlemock/include/gmock/gmock-matchers.h:3636-3638 | distinct cells have distinct positions in the flattened vector |
| MatchMatrix.Matrix.SetEdge | googletest/googlemock/include/gmock/gmock-matchers.h:3622-3624 | adds or removes exactly one edge |
| MaxBipartiteMatchState.MaxBipartiteMatchState.TryAugment | googletest/googlemock/src/gmock-matchers.cc:293-317 | ends; on success flow is pushed along an augmenting path, flow vectors stay mutually inverse up to the stale node, no other left node gains or loses flow and no right node loses it; on failure all that was seen are dead ends and nothing changes |
| MaxBipartiteMatchState.MaxBipartiteMatchState.TryAugmentAfresh | googletest/googlemock/src/gmock-matchers.cc:256-264 | with nothing seen, succeeds iff an augmenting path exists; the flow stays valid and the node gets flow iff it succeeds |
| MaxBipartiteMatchState.MaxBipartiteMatchState.Compute | googletest/googlemock/src/gmock-matchers.cc:241-272 | returns a maximum matching, although every left node is tried once; the check at line 259 never fails |
| MaxBipartiteMatchState.NoPath | googletest/googlemock/src/gmock-matchers.cc:277-317 | no augmenting path starts where only dead ends were seen |
| MaxBipartiteMatchState.Push | googletest/googlemock/src/gmock-matchers.cc:309-313 | matching the node to the freed right node restores the state that the search promises |
| MaxBipartiteMatchState.CoverStep | googletest/googlemock/src/gmock-matchers.cc:244-264 | after a failed search, an exchanged cover of the same size also meets the edges of that left node |
| MaxBipartiteMatchState.CoverIsOptimal | googletest/googlemock/src/gmock-matchers.cc:240-272 | a matching with a cover of its own size is a maximum |
| UnorderedElementsAre.FindMaxBipartiteMatching | googletest/googlemock/src/gmock-matchers.cc:339-341 | returns a maximum matching of the matrix, each pair once |
| UnorderedElementsAre.VerifyMatchMatrix | googletest/googlemock/src/gmock-matchers.cc:481-529 | true iff every matcher has an edge (Superset), every element has one (Subset), or both (ExactMatch) |
| UnorderedElementsAre.FindPairing | googletest/googlemock/src/gmock-matchers.cc:531-570 | true iff some matching leaves out no matcher (Superset), no element (Subset), or neither (ExactMatch) |
| UnorderedElementsAre.MaximumDecides | googletest/googlemock/src/gmock-matchers.cc:533-557 | if any matching saturates the demanded sides, every maximum matching does |
| UnorderedElementsAre.SaturatesIffLarge | googletest/googlemock/src/gmock-matchers.cc:535-548 | a matching saturates the demanded sides iff it is as large as they are |
| UnorderedElementsAre.FilterIsSound | googletest/googlemock/src/gmock-matchers.cc:481-529 | a graph that the filter rejects has no saturating matching |
| UnorderedElementsAre.MatchAndExplain | googletest/googlemock/include/gmock/gmock-matchers.h:3743-3770 | the shortcuts, the filter and the search together: true iff some matching leaves out no matcher (Superset), no element (Subset), or neither (ExactMatch) |
| Globals.RoundUp | src/Globals.h:37-38 | a multiple, not below its argument and less than one step above it |
| Globals.RoundUpIsLeast | src/Globals.h:37-41 | the least such multiple |
| MemoryIntervalList.MemoryIntervalList.AddInterval | src/MemoryIntervalList.cpp:46-56 | appends the interval; refused without change iff the list is full |
| MemoryIntervalList.MemoryIntervalList.SwapIntervals | src/MemoryIntervalList.cpp:58-71 | exchanges two whole elements field by field, also an element with itself |
| MemoryIntervalList.MemoryIntervalList.Sort | src/MemoryIntervalList.cpp:73-83 | a sorted permutation, in place |
| MemoryIntervalList.SortedOrderIsUnique | src/MemoryIntervalList.cpp:73-83 | with distinct starts there is only one sorted order |
| Windows.PageEndIsLeastBoundary | src/MosaicRegion.cpp:104-174 | the size after a request is the least end of a page, measured from its window's start, that is not below the request; it never exceeds the region |
| Windows.PageEndEndsPage | src/MosaicRegion.cpp:104-174 | the size after a request is less than a page above it, and a whole number of pages from the start of the window in which it ends |
| Windows.PageEndIdempotent | src/MosaicRegion.cpp:301-315 | asking for the size that is reached changes nothing |
| Windows.PageEndMonotone | src/MosaicRegion.cpp:301-315 | a larger request never gives a smaller size |
| Windows.LastAcceptedDecides | src/MosaicRegion.cpp:301-315 | after any sequence of requests from any size, the last one that is not refused decides the size |
| Windows.GrowStep | src/MosaicRegion.cpp:108-134 | growing window by window maps, in each, exactly the part between the old size and the new one, between page ends |
| Windows.ShrinkStep | src/MosaicRegion.cpp:143-171 | shrinking unmaps, in each window, exactly the part between the new size and the old one, of non-negative length |
| RegionLayout.RegionStartIsAligned | src/MosaicRegion.cpp:204-242 | the region lies inside the reservation, and each huge window starts at an address that is a multiple of its page size |
| RegionLayout.RegionStartIsLeast | src/MosaicRegion.cpp:229-242 | no earlier address from the base on has the 1GB window, or without one the 2MB window, at a multiple of its page size |
| RegionLayout.LayoutAligned | src/MosaicRegion.cpp:204-275 | every window, the 4KB ones included, starts at a multiple of its page size |
| RegionLayout.LayoutTiles | src/MosaicRegion.cpp:244-275 | the windows partition the region without gap or overlap, each a whole number of pages |
| RegionLayout.LayoutWindows | src/MosaicRegion.cpp:244-275 | every huge window is there unchanged, all others have 4KB pages, and there are at most twice as many windows as huge ones and one |
| RegionLayout.SortedLayout | src/MosaicRegion.cpp:257-275 | sorting the huge windows followed by the gaps gives the partition |
| MosaicRegion.MosaicRegion.Initialize | src/MosaicRegion.cpp:178-285 | refused iff the size is no multiple of 4KB; otherwise the whole region is mapped inside the reservation, offsets in the 1GB window with 1GB pages, those in the 2MB window with 2MB pages and all others with 4KB pages, and nothing else stays mapped |
| MosaicRegion.MosaicRegion.LayOutIntervals | src/MosaicRegion.cpp:244-275 | the list of capacity 10 ends up holding the layout, for which PageSizes says where each page size is; no interval is refused |
| MosaicRegion.PageSizes | src/MosaicRegion.cpp:244-275 | in the layout, the offsets of the 1GB window have 1GB pages, those of the 2MB window 2MB pages, all others 4KB pages |
| MosaicRegion.MosaicRegion.AllocateMemory | src/MosaicRegion.cpp:69-91 | maps exactly the range, which must be unmapped and aligned to its page size; nothing for length 0 |
| MosaicRegion.MosaicRegion.DeallocateMemory | src/MosaicRegion.cpp:93-102 | unmaps exactly the range, which must be mapped with one page size; nothing for length 0 |
| MosaicRegion.MosaicRegion.ExtendRegion | src/MosaicRegion.cpp:104-137 | maps only unmapped offsets, aligned, until exactly those below the page end of the request are mapped, each with its window's page size |
| MosaicRegion.MosaicRegion.ShrinkRegion | src/MosaicRegion.cpp:139-174 | unmaps only mapped offsets, aligned, down to the page end of the request |
| MosaicRegion.MosaicRegion.Resize | src/MosaicRegion.cpp:301-315 | -ENOMEM and no change above the maximum; otherwise the size becomes the page end of the request, and the mapped offsets are exactly those below it |
| SimpleRegex.RegexTextInjective | googletest/googletest/src/gtest-port.cc:697-813 | no string is the text of two expressions, so the language of a pattern is well defined |
| SimpleRegex.OneAtomLanguage | googletest/googletest/src/gtest-port.cc:650-687 | for all characters: a dot stands for all but the newline, any other plain character for itself, each class escape for its listed characters or for all others, each control escape for its character, an escaped punctuation character for itself |
| SimpleRegex.RepetitionLanguage | googletest/googletest/src/gtest-port.cc:753-782 | a repeated atom stands for the strings of its characters of an allowed length |
| SimpleRegex.WrittenRepetition | googletest/googletest/src/gtest-port.cc:753-782 | for every plain character c, `^c?$` stands for at most one c, `^c*$` for any number and `^c+$` for at least one |
| SimpleRegex.AnchoredAtBothEnds | googletest/googletest/src/gtest-port.cc:823-836 | between ^ and $, an expression matches exactly the strings of its language |
| SimpleRegexEngine.ScanIffContinues | googletest/googletest/src/gtest-port.cc:710-748 | what the scan accepts are exactly the texts of well-formed items |
| SimpleRegexEngine.SimpleCharacters | googletest/googletest/src/gtest-port.cc:720-748 | a single character is an expression iff it is not a backslash, a repetition character, a bracket or a bar |
| SimpleRegexEngine.SimpleEscapes | googletest/googletest/src/gtest-port.cc:666-668 | a backslash and a character are an expression iff that is ASCII punctuation or one of the eleven letters |
| SimpleRegexEngine.SimpleRepetitions | googletest/googletest/src/gtest-port.cc:720-748 | behind a plain character a repetition character is allowed, behind that no other one |
| SimpleRegexEngine.ValidateRegex | googletest/googletest/src/gtest-port.cc:697-751 | true iff the string is the text of a simple regular expression |
| SimpleRegexEngine.MatchRepetitionAndRegexAtHead | googletest/googletest/src/gtest-port.cc:760-782 | true iff a prefix of the string is in the language of the repeated atom followed by the rest |
| SimpleRegexEngine.MatchRegexAtHead | googletest/googletest/src/gtest-port.cc:787-813 | true iff a prefix of the string (all of it before a $) is in the language; the mutual recursion ends |
| SimpleRegexEngine.MatchRegexAnywhere | googletest/googletest/src/gtest-port.cc:823-836 | true iff some substring is in the language, at the ends that ^ and $ demand; false for NULL |
| SimpleRegexEngine.RE.Init | googletest/googletest/src/gtest-port.cc:857-888 | valid iff the pattern is a simple expression; the full pattern is the text of the anchored expression, without a second $ when the text ends in one |
| SimpleRegexEngine.RE.PartialMatch | googletest/googletest/src/gtest-port.cc:852-854 | true iff the pattern is valid and some substring matches it |
| SimpleRegexEngine.RE.FullMatch | googletest/googletest/src/gtest-port.cc:846-848 | true iff the pattern is valid and the full pattern matches |
| SimpleRegexEngine.FullMatchIsWholeMatchIff | googletest/googletest/src/gtest-port.cc:876-885 | for every C-string pattern, FullMatch means that the whole string is in the language, for every C string, iff the pattern does not end in an escaped $ |
| SimpleRegexEngine.StartsWithWord | googletest/googletest/src/gtest-port.cc:876-885 | for every pattern that does, a C string that is wrongly matched in full |
| SimpleRegexEngine.EscapedDollarFullMatch | googletest/googletest/src/gtest-port.cc:884-885 | the pattern \$ fully matches the string $$ |
| Graphs.AcyclicWithEdgeIff | googletest/googlemock/src/gmock-spec-builders.cc:848-856 | with a new edge between two nodes a graph has no cycle iff it had none and the end of the edge does not reach its start |
| Graphs.ReachesIffPath | googletest/googlemock/src/gmock-spec-builders.cc:104-178 | a node is reached iff a path of at least one edge leads to it |
| Graphs.LoadDrops | googletest/googlemock/src/gmock-spec-builders.cc:131-148 | replacing a node on a worklist by its successors leaves less to be done if none of them reaches itself |
| Expectations.Expectation.AllPrerequisitesAreSatisfied | googletest/googlemock/src/gmock-spec-builders.cc:131-148 | true iff every transitive prerequisite is satisfied; ends if no cycle of satisfied expectations is within reach through satisfied ones |
| Expectations.Expectation.FindUnsatisfiedPrerequisites | googletest/googlemock/src/gmock-spec-builders.cc:151-178 | adds exactly the unsatisfied ones reached through satisfied ones that were never called; ends if no cycle of such expectations is within reach through them |
| Expectations.OpenGraphIffPath | googletest/googlemock/src/gmock-spec-builders.cc:151-178 | the search goes where a path of prerequisites leads that passes only through expectations that are satisfied with no call |
| Expectations.NoCycleSuffices | googletest/googlemock/src/gmock-spec-builders.cc:131-178 | without cycles of prerequisites, both walks end from everywhere |
| Expectations.SearchExplainsFailure | googletest/googlemock/src/gmock-spec-builders.cc:164-175 | if called and satisfied expectations have satisfied prerequisites, that search finds something iff some transitive prerequisite is unsatisfied |
| Expectations.Expectation.RetireAllPreRequisites | googletest/googlemock/src/gmock-spec-builders.cc:104-127 | entered with retirement closed under prerequisites, retires exactly the transitive prerequisites and keeps it closed, the short cut included; ends even on cycles |
| Expectations.Between | googletest/googlemock/src/gmock-cardinalities.cc:50-83 | an excessive call leaves the expectation unsatisfied, any other keeps it satisfied |
| Expectations.BetweenCounts | googletest/googlemock/src/gmock-cardinalities.cc:50-83 | fewer than min calls do not satisfy, min to max do, max saturate, more do not satisfy |
| Expectations.FindMatchingExpectation | googletest/googlemock/include/gmock/gmock-spec-builders.h:1099-1108 | finds the latest expectation that is not retired, has all transitive prerequisites satisfied and matches; none iff there is none |
| Expectations.Call | googletest/googlemock/include/gmock/gmock-spec-builders.h:1694-1745 | the latest expectation that is not retired, has all transitive prerequisites satisfied and matches handles the call, and nothing else is counted; every call keeps the prerequisites of called and satisfied expectations satisfied and retired |
| Expectations.UncalledIsSettled | googletest/googlemock/src/gmock-spec-builders.cc:164-175 | before any call the hypothesis of the search holds |
| Expectations.NewcomerStaysSettled | googletest/googlemock/src/gmock-spec-builders.cc:164-175 | a new expectation keeps it |
| Expectations.UncalledStaysSettled | googletest/googlemock/src/gmock-spec-builders.cc:848-856 | so does putting an expectation that is neither retired nor called into a sequence |
| Expectations.HandleCall | googletest/googlemock/include/gmock/gmock-spec-builders.h:1195-1225 | counts the call; unless it is excessive, retires exactly the transitive prerequisites, and the expectation itself if it retires on saturation; keeps retirement closed under prerequisites |
| Expectations.Sequence.AddExpectation | googletest/googlemock/src/gmock-spec-builders.cc:848-856 | the new expectation waits for the last one and for all it waits for; there are no cycles afterwards iff there were none and the last one did not wait for the new one; retirement stays closed iff the new one is not retired or the last one is; the hypothesis of the search stays true iff StaysSettled |
| Expectations.CrossedSequences | googletest/googlemock/src/gmock-spec-builders.cc:848-856 | two new expectations put into two sequences in opposite orders wait for each other |
| Expectations.LateSequence | googletest/googlemock/src/gmock-spec-builders.cc:848-856 | a run after which a retired expectation has a prerequisite that is not retired |
| Ptrace.Tracer.HandleNewBornProcess | src/Ptrace.cxx:272-287 | enters the pid in the table with all flags off, calls onStart, resumes it |
| Ptrace.Tracer.HandleExitedProcess | src/Ptrace.cxx:150-157 | removes just that pid and calls onExit; nothing is resumed |
| Ptrace.Tracer.HandleTerminatedProcess | src/Ptrace.cxx:159-168 | removes just that pid and calls onTerminate; nothing is resumed |
| Ptrace.Tracer.HandleSyscalledProcess | src/Ptrace.cxx:170-215 | enter and exit alternate with the kernel flag; the asserts of setSyscall and setReturnValue hold in the matching callback; the other flags and the injected signal |
| Ptrace.Tracer.HandleSignaledProcess | src/Ptrace.cxx:217-235 | one callback by signal and event, and the signal is passed on |
| Ptrace.Tracer.HandleTrappedProcess | src/Ptrace.cxx:237-269 | one callback by event; exec forgets the signal handlers |
| Ptrace.Tracer.Dispatch | src/Ptrace.cxx:77-100 | by status: onStart and resumed with 0 for an unknown pid; onExit or onTerminate, and not resumed; enter or exit by the kernel flag, resumed with the reply, or with SIGUSR2 on the way out of a kill with signal 0 when the library is loaded; onEvent or onSignal, resumed with its own signal; the flags of the process, and no change to any other |
| Ptrace.Tracer.StartTracing | src/Ptrace.cxx:63-102 | for every sequence of reports, each state change is answered, in order, by exactly the callback that it calls for in the phase of its pid, and every process but one that ended is resumed with exactly the signal due; every pid sees a start, alternating enter and exit, then at most one end before it can start again; the table ends up with exactly the processes that started and did not end |
| Ptrace.HandledInOrder | src/Ptrace.cxx:63-102 | every state change in front of the report that no child is left is handled, once and in order, and nothing else is |
| Ptrace.EnterAndExitAlternate | src/Ptrace.cxx:170-192 | between two syscall entries of a pid lies an exit from the syscall or the end of the process |
| Ptrace.KernelFlagIsParity | src/Process.h:21-27 | a traced process is in the kernel iff an odd number of syscall stops has been reported since it started |

## Left out

- Integer widths: numbers are unbounded. Address sums stay inside the pool (except for a Free inside a block, where only the sum is unbounded), slot counts are at most 2^31-1 so that an index fits an int, and region sizes near 2^64 are not modelled.
- FirstFitAllocator.FirstFitAllocator.Initialize: slot counts from 2^31 on are not modelled; an index would not fit the int in which the source returns and links it.
- FirstFitAllocator.FirstFitAllocator.MoveNodeFromFeeListToOccupied: does not model the branch for a free node of -1, with which nothing calls it.
- MosaicRegion.MosaicRegion.Initialize: requires the conditions of ValidateRegionOffsets, and non-empty windows that lie inside the region and do not overlap, because the call that would check the former is commented out at src/MosaicRegion.cpp:200-202 and nothing checks the latter.
- MosaicRegion.MosaicRegion.LayOutIntervals: requires the same of the offsets.
- MosaicRegion.MosaicRegion.AllocateMemory: mmap is an addition to a map from addresses to page sizes; a failing call, on which the source throws, is not modelled, and the place of the reservation is a parameter.
- MosaicRegion.MosaicRegion.DeallocateMemory: nor is a failing munmap.
- MemoryIntervalList.MemoryIntervalList.AddInterval: the exception on a full list is a result; so is the one for a region size that is no multiple of 4KB in Initialize.
- Slots and intervals are an array of values whose fields are assigned one by one; a reference into the array is not modelled.
- SimpleRegexEngine.MatchRegexAnywhere: strings of up to 2^64-2 characters, the longest the source's counters can index; patterns that ValidateRegex rejects are excluded, as in the source; the POSIX engine and the failure messages are not modelled.
- MaxBipartiteMatchState: kUnused is -1 rather than the largest size_t.
- UnorderedElementsAre: evaluating the element matchers, explanations and descriptions are not modelled; the matrix is given.
- Expectations.Expectation.AllPrerequisitesAreSatisfied: requires that no cycle of satisfied expectations is within reach through satisfied ones; with such a cycle the source ends only if the arbitrary order of a std::set lets it meet an unsatisfied expectation first.
- Expectations.Expectation.FindUnsatisfiedPrerequisites: requires that no cycle of satisfied and never called expectations is within reach through such; with one, the source never ends.
- Expectations.Call: whether the arguments match is a parameter; actions and messages are not modelled. A cardinality of one's own must be left unsatisfied by an excessive call, as those of googlemock are.
- Ptrace.Tracer.HandleNewBornProcess: failing ptrace calls are not modelled. For a pid whose first report is already its end, the source's calls fail and throw out of the loop after onStart; here the pid is resumed and stays in the table.
- Ptrace.Tracer.StartTracing: so a run goes on after such a report.
- Ptrace: fork, ptrace, waitpid and the FIFO with the tracee are replaced by the reports, register values and callback replies they yield; logging and the destructor are not modelled. A pid that ends may be started again.
- Mutexes, tracing files and error output of the allocator, and the backing arrays' allocation and release.
- IsAddressAllocated, FindFreeMemoryRegionNode: the first equals Contains because of an early return, the second is never called.
- MatchMatrix::NextGraph and Randomize, MosaicConfiguration, the syscall tables, Logger, TraceeLib, the scripts and the rest of googletest: lookups, input and output.
