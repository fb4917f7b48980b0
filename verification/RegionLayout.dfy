/** How Initialize chooses the base address and the windows of a region. */
module RegionLayout {
  import opened Globals
  import opened MemoryIntervalList
  import opened Windows

  /** The requested offsets of the 1GB window and of the 2MB window; a window may be empty. */
  datatype Offsets = Offsets(start1gb: int, end1gb: int, start2mb: int, end2mb: int)
  {
    predicate Has1gb() { end1gb - start1gb > 0 }

    predicate Has2mb() { end2mb - start2mb > 0 }

    /** The conditions under which ValidateRegionOffsets does not throw. */
    predicate Validated() {
      && start1gb <= end1gb && start2mb <= end2mb
      && IsAligned(start1gb, BASE_4KB) && IsAligned(start2mb, BASE_4KB)
      && IsAligned(end1gb - start1gb, HUGE_1GB) && IsAligned(end2mb - start2mb, HUGE_2MB)
      && (Has1gb() && Has2mb() ==> IsAligned(start1gb - start2mb, HUGE_2MB))
    }

    /** Non-empty windows lie inside the region and do not overlap. */
    predicate Fits(regionSize: int) {
      && (Has1gb() ==> 0 <= start1gb && end1gb <= regionSize)
      && (Has2mb() ==> 0 <= start2mb && end2mb <= regionSize)
      && (Has1gb() && Has2mb() ==> end1gb <= start2mb || end2mb <= start1gb)
    }
  }

  /** How many addresses are reserved to find an aligned base in. */
  function Reservation(o: Offsets, regionSize: nat): (r: nat)
    ensures r >= regionSize
  {
    if o.Has1gb() then RoundUp(regionSize + HUGE_1GB, HUGE_1GB)
    else if o.Has2mb() then RoundUp(regionSize + HUGE_2MB, HUGE_2MB)
    else regionSize
  }

  function RegionStart(o: Offsets, base: nat): int
    requires o.Has1gb() ==> o.start1gb >= 0
    requires o.Has2mb() ==> o.start2mb >= 0
  {
    if o.Has1gb() then RoundUp(base + o.start1gb, HUGE_1GB) - o.start1gb
    else if o.Has2mb() then RoundUp(base + o.start2mb, HUGE_2MB) - o.start2mb
    else base
  }

  lemma PageSizesDivide(a: int)
    ensures IsAligned(a, HUGE_1GB) ==> IsAligned(a, HUGE_2MB)
    ensures IsAligned(a, HUGE_2MB) ==> IsAligned(a, BASE_4KB)
  {
  }

  /** The region lies inside the reservation, and each window in it starts at an address aligned to its pages. */
  lemma RegionStartIsAligned(o: Offsets, regionSize: nat, base: nat)
    requires o.Validated() && o.Fits(regionSize)
    requires IsAligned(base, BASE_4KB)
    ensures var start := RegionStart(o, base);
      && base <= start && start + regionSize <= base + Reservation(o, regionSize)
      && IsAligned(start, BASE_4KB)
      && (o.end1gb > o.start1gb ==> (start + o.start1gb) % 1073741824 == 0)
      && (o.end2mb > o.start2mb ==> (start + o.start2mb) % 2097152 == 0)
  {
    var start := RegionStart(o, base);
    if o.Has1gb() {
      var p := start + o.start1gb;
      PageSizesDivide(p);
      AlignedSum(p, o.start1gb, BASE_4KB);
      if o.Has2mb() {
        AlignedSum(p, o.start1gb - o.start2mb, HUGE_2MB);
        assert p - (o.start1gb - o.start2mb) == start + o.start2mb;
      }
    } else if o.Has2mb() {
      var p := start + o.start2mb;
      PageSizesDivide(p);
      AlignedSum(p, o.start2mb, BASE_4KB);
    }
  }

  /** The start is the first possible one: of the addresses from the base on at which the largest huge window in use is
      aligned, it is the least. */
  lemma RegionStartIsLeast(o: Offsets, base: nat, start: int)
    requires (o.Has1gb() ==> o.start1gb >= 0) && (o.Has2mb() ==> o.start2mb >= 0)
    requires start >= base
    requires if o.end1gb > o.start1gb then (start + o.start1gb) % 1073741824 == 0
             else o.end2mb > o.start2mb ==> (start + o.start2mb) % 2097152 == 0
    ensures RegionStart(o, base) <= start
    ensures RegionStart(o, base) >= base
  {
    if o.Has1gb() {
      RoundUpIsLeast(base + o.start1gb, HUGE_1GB, start + o.start1gb);
    } else if o.Has2mb() {
      RoundUpIsLeast(base + o.start2mb, HUGE_2MB, start + o.start2mb);
    }
  }

  /** Every window starts at an address that is aligned to its page size. */
  ghost predicate AlignedAt(base: int, ws: seq<Window>) {
    forall i :: 0 <= i < |ws| ==> ws[i].pageSize > 0 && IsAligned(base + ws[i].startOffset, ws[i].pageSize)
  }

  /** So it is for the chosen base address and the chosen windows. */
  lemma LayoutAligned(o: Offsets, size: nat, base: nat)
    requires o.Validated() && o.Fits(size) && IsAligned(size, BASE_4KB) && IsAligned(base, BASE_4KB)
    ensures AlignedAt(RegionStart(o, base), Layout(HugeWindows(o), size))
  {
    var start, ws := RegionStart(o, base), Layout(HugeWindows(o), size);
    HugeWindowsSpread(o, size);
    LayoutWindows(HugeWindows(o), size);
    forall i | 0 <= i < |ws| ensures ws[i].pageSize > 0 && IsAligned(start + ws[i].startOffset, ws[i].pageSize) {
      assert ws[i] in ws;
      WindowAligned(o, size, base, ws[i]);
    }
  }

  lemma WindowAligned(o: Offsets, size: nat, base: nat, w: Window)
    requires o.Validated() && o.Fits(size) && IsAligned(base, BASE_4KB)
    requires w in HugeWindows(o) || SmallPages(w)
    ensures w.pageSize > 0 && IsAligned(RegionStart(o, base) + w.startOffset, w.pageSize)
  {
    RegionStartIsAligned(o, size, base);
    if SmallPages(w) { AlignedSum(RegionStart(o, base), w.startOffset, BASE_4KB); }
  }

  // ---------------------------------------------------------------- the window list

  function Window1gb(o: Offsets): Window { MemoryInterval(o.start1gb, o.end1gb, HUGE_1GB) }

  function Window2mb(o: Offsets): Window { MemoryInterval(o.start2mb, o.end2mb, HUGE_2MB) }

  /** The non-empty huge windows in address order. */
  function HugeWindows(o: Offsets): seq<Window> {
    if o.Has1gb() && o.Has2mb() then
      if o.start1gb < o.start2mb then [Window1gb(o), Window2mb(o)] else [Window2mb(o), Window1gb(o)]
    else if o.Has1gb() then [Window1gb(o)]
    else if o.Has2mb() then [Window2mb(o)]
    else []
  }

  /** Sorting the huge windows as they were added gives their address order. */
  lemma HugeWindowsSorted(o: Offsets, size: nat, items: seq<Window>)
    requires o.Validated() && o.Fits(size) && Sorted(items)
    requires multiset(items) ==
      multiset((if o.Has1gb() then [Window1gb(o)] else []) + if o.Has2mb() then [Window2mb(o)] else [])
    ensures items == HugeWindows(o)
  {
    HugeWindowsAdded(o);
    assert StrictlySorted(HugeWindows(o));
    SortedOrderIsUnique(items, HugeWindows(o));
  }

  lemma HugeWindowsAdded(o: Offsets)
    ensures multiset((if o.Has1gb() then [Window1gb(o)] else []) + if o.Has2mb() then [Window2mb(o)] else [])
            == multiset(HugeWindows(o))
  {
    var a, b := Window1gb(o), Window2mb(o);
    assert [a] + [b] == [a, b] && [a] + [] == [a] && [] + [b] == [b];
    Commute([a], [b]);
    assert [b] + [a] == [b, a];
  }

  lemma Commute<T>(a: seq<T>, b: seq<T>)
    ensures multiset(a + b) == multiset(b + a)
  {
  }

  /** The 4KB window between two offsets, if there is room for one. */
  function Gap(from: int, to: int): (gap: seq<Window>)
    ensures |gap| <= 1
  {
    if from < to then [MemoryInterval(from, to, BASE_4KB)] else []
  }

  function GapBefore(huge: seq<Window>, i: nat): seq<Window>
    requires i < |huge|
  { Gap(EndBefore(huge, i), huge[i].startOffset) }

  /** The gaps in front of the first n huge windows. */
  function Gaps(huge: seq<Window>, n: nat): (gaps: seq<Window>)
    requires n <= |huge|
    ensures |gaps| <= n
  { if n == 0 then [] else Gaps(huge, n - 1) + GapBefore(huge, n - 1) }

  /** The first n huge windows with the gaps in front of them filled. */
  function Filled(huge: seq<Window>, n: nat): (filled: seq<Window>)
    requires n <= |huge|
    ensures |filled| <= 2 * n
  { if n == 0 then [] else Filled(huge, n - 1) + GapBefore(huge, n - 1) + [huge[n-1]] }

  function Layout(huge: seq<Window>, size: int): seq<Window> {
    Filled(huge, |huge|) + Gap(EndBefore(huge, |huge|), size)
  }

  ghost predicate InOrder(huge: seq<Window>, i: nat)
    requires i < |huge|
  { EndBefore(huge, i) <= huge[i].startOffset }

  /** Whole windows in order inside [0, size), all at multiples of 4KB. */
  ghost predicate Spread(huge: seq<Window>, size: int) {
    && (forall i :: 0 <= i < |huge| ==> WholePages(huge[i]) && huge[i].endOffset <= size)
    && (forall i :: 0 <= i < |huge| ==>
          IsAligned(huge[i].startOffset, BASE_4KB) && IsAligned(huge[i].endOffset, BASE_4KB))
    && (forall i {:trigger InOrder(huge, i)} :: 0 <= i < |huge| ==> InOrder(huge, i))
    && 0 <= size && IsAligned(size, BASE_4KB)
  }

  lemma HugeWindowsSpread(o: Offsets, size: nat)
    requires o.Validated() && o.Fits(size) && IsAligned(size, BASE_4KB)
    ensures Spread(HugeWindows(o), size)
  {
    PageSizesDivide(o.end1gb - o.start1gb);
    PageSizesDivide(o.end2mb - o.start2mb);
    AlignedSum(o.end1gb - o.start1gb, o.start1gb, BASE_4KB);
    AlignedSum(o.end2mb - o.start2mb, o.start2mb, BASE_4KB);
  }

  lemma TilesAppend(ws: seq<Window>, size: int, w: Window)
    requires Tiles(ws, size) && WholePages(w) && w.startOffset == size
    ensures Tiles(ws + [w], w.endOffset)
  {
    var r := ws + [w];
    forall i | 0 < i < |r| ensures Adjacent(r, i) { if i < |ws| { assert Adjacent(ws, i); } }
  }

  lemma GapTiles(ws: seq<Window>, from: int, to: int)
    requires Tiles(ws, from) && 0 <= from <= to && IsAligned(from, BASE_4KB) && IsAligned(to, BASE_4KB)
    ensures Tiles(ws + Gap(from, to), to)
  {
    if from < to {
      AlignedSum(to, from, BASE_4KB);
      TilesAppend(ws, from, Gap(from, to)[0]);
    } else {
      assert ws + Gap(from, to) == ws;
    }
  }

  lemma {:induction false} FilledTiles(huge: seq<Window>, size: int, n: nat)
    requires Spread(huge, size) && n <= |huge|
    ensures Tiles(Filled(huge, n), EndBefore(huge, n))
    decreases n
  {
    if n > 0 {
      FilledTiles(huge, size, n - 1);
      GapFits(huge, size, n - 1);
      var ws := Filled(huge, n - 1) + GapBefore(huge, n - 1);
      GapTiles(Filled(huge, n - 1), EndBefore(huge, n - 1), huge[n-1].startOffset);
      TilesAppend(ws, huge[n-1].startOffset, huge[n-1]);
      assert Filled(huge, n) == ws + [huge[n-1]];
    }
  }

  lemma GapFits(huge: seq<Window>, size: int, i: nat)
    requires Spread(huge, size) && i < |huge|
    ensures 0 <= EndBefore(huge, i) <= huge[i].startOffset && WholePages(huge[i])
    ensures IsAligned(EndBefore(huge, i), BASE_4KB) && IsAligned(huge[i].startOffset, BASE_4KB)
  {
    assert InOrder(huge, i);
  }

  /** The layout partitions the region. */
  lemma LayoutTiles(huge: seq<Window>, size: int)
    requires Spread(huge, size)
    ensures Tiles(Layout(huge, size), size)
  {
    FilledTiles(huge, size, |huge|);
    GapTiles(Filled(huge, |huge|), EndBefore(huge, |huge|), size);
  }

  lemma {:induction false} FilledIsPermutation(huge: seq<Window>, n: nat)
    requires n <= |huge|
    ensures multiset(Filled(huge, n)) == multiset(huge[..n]) + multiset(Gaps(huge, n))
    decreases n
  {
    if n == 0 {
      assert huge[..0] == [];
    } else {
      assert huge[..n] == huge[..n-1] + [huge[n-1]];
      FilledIsPermutation(huge, n - 1);
      MoveToFront(Filled(huge, n - 1), huge[..n-1], Gaps(huge, n - 1), GapBefore(huge, n - 1), huge[n-1]);
    }
  }

  lemma MoveToFront<T>(s: seq<T>, a: seq<T>, b: seq<T>, g: seq<T>, x: T)
    requires multiset(s) == multiset(a) + multiset(b)
    ensures multiset(s + g + [x]) == multiset(a + [x]) + multiset(b + g)
  {
  }

  /** Sorting the huge windows followed by the gaps gives the layout. */
  lemma SortedLayout(huge: seq<Window>, size: int, items: seq<Window>)
    requires Spread(huge, size) && Sorted(items)
    requires multiset(items) == multiset(huge + Gaps(huge, |huge|) + Gap(EndBefore(huge, |huge|), size))
    ensures items == Layout(huge, size)
  {
    var ws := Layout(huge, size);
    assert multiset(items) == multiset(ws) by {
      FilledIsPermutation(huge, |huge|);
      assert huge[..|huge|] == huge;
      SameTail(huge, Gaps(huge, |huge|), Filled(huge, |huge|), Gap(EndBefore(huge, |huge|), size));
    }
    LayoutTiles(huge, size);
    TilesStrictlySorted(ws, size);
    SortedOrderIsUnique(items, ws);
  }

  lemma SameTail<T>(a: seq<T>, b: seq<T>, s: seq<T>, g: seq<T>)
    requires multiset(s) == multiset(a) + multiset(b)
    ensures multiset(a + b + g) == multiset(s + g)
  {
  }

  lemma TilesStrictlySorted(ws: seq<Window>, size: int)
    requires Tiles(ws, size)
    ensures StrictlySorted(ws)
  {
    forall i, j | 0 <= i < j < |ws| ensures ws[i].startOffset < ws[j].startOffset { TilesOrdered(ws, size, i, j); }
  }

  /** A 4KB window that starts at a multiple of 4KB. */
  predicate SmallPages(w: Window) { w.pageSize == BASE_4KB && IsAligned(w.startOffset, BASE_4KB) }

  /** Every window of the layout is one of the huge windows, unchanged, or consists of 4KB pages; all huge windows
      are there; and there are at most as many gaps as huge windows and one. */
  lemma LayoutWindows(huge: seq<Window>, size: int)
    requires Spread(huge, size)
    ensures forall w <- huge :: w in Layout(huge, size)
    ensures forall w <- Layout(huge, size) :: w in huge || SmallPages(w)
    ensures |Layout(huge, size)| <= 2 * |huge| + 1
  {
    FilledWindows(huge, size, |huge|);
    assert huge[..|huge|] == huge;
    var a, g := Filled(huge, |huge|), Gap(EndBefore(huge, |huge|), size);
    assert forall w <- g :: SmallPages(w);
    assert forall w <- a + g :: w in a || w in g;
    assert forall w <- a :: w in a + g;
  }

  lemma {:induction false} FilledWindows(huge: seq<Window>, size: int, n: nat)
    requires Spread(huge, size) && n <= |huge|
    ensures forall w <- huge[..n] :: w in Filled(huge, n)
    ensures forall w <- Filled(huge, n) :: w in huge[..n] || SmallPages(w)
    decreases n
  {
    if n > 0 {
      FilledWindows(huge, size, n - 1);
      GapIsSmall(huge, size, n - 1);
      assert huge[..n] == huge[..n-1] + [huge[n-1]];
      AppendBoth(Filled(huge, n - 1), huge[..n-1], GapBefore(huge, n - 1), huge[n-1]);
    }
  }

  lemma GapIsSmall(huge: seq<Window>, size: int, i: nat)
    requires Spread(huge, size) && i < |huge|
    ensures forall w <- GapBefore(huge, i) :: SmallPages(w)
  {
    assert InOrder(huge, i);
  }

  lemma AppendBoth(a: seq<Window>, b: seq<Window>, g: seq<Window>, h: Window)
    requires forall w <- b :: w in a
    requires forall w <- a :: w in b || SmallPages(w)
    requires forall w <- g :: SmallPages(w)
    ensures forall w <- b + [h] :: w in a + g + [h]
    ensures forall w <- a + g + [h] :: w in b + [h] || SmallPages(w)
  {
    forall w <- b + [h] ensures w in a + g + [h] {
      assert w in a || w == h;
    }
  }
}
