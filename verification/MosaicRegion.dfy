/** A region of the address space that is backed by pages of three sizes, and its growing and shrinking. */
module MosaicRegion {
  import opened Sets
  import opened Globals
  import opened MemoryIntervalList
  import opened Windows
  import opened RegionLayout

  /** after is before with the given range mapped in addition. */
  ghost predicate Mapped(before: map<int, nat>, after: map<int, nat>, address: int, length: int, pageSize: nat) {
    && (forall y :: y in after <==> y in before || address <= y < address + length)
    && (forall y :: y in after ==> after[y] == if address <= y < address + length then pageSize else before[y])
  }

  /** after is before with the given range no longer mapped. */
  ghost predicate Unmapped(before: map<int, nat>, after: map<int, nat>, address: int, length: int) {
    && (forall y :: y in after <==> y in before && !(address <= y < address + length))
    && (forall y :: y in after ==> after[y] == before[y])
  }

  /** The mappings of the process: which addresses are mapped, each with the size of its page. The preconditions
      are what the kernel demands of a mapping with pages of the given size. */
  class AddressSpace {
    ghost var pages: map<int, nat>

    constructor () { pages := map[]; }

    method Mmap(address: int, length: int, pageSize: nat)
      requires length > 0 && pageSize > 0 && IsAligned(address, pageSize) && IsAligned(length, pageSize)
      requires forall y :: address <= y < address + length ==> y !in pages
      modifies this
      ensures Mapped(old(pages), pages, address, length, pageSize)
    {
      var range := Span(address, address + length);
      pages := pages + map y | y in range :: pageSize;
    }

    method Munmap(address: int, length: int, ghost pageSize: nat)
      requires length > 0 && pageSize > 0 && IsAligned(address, pageSize) && IsAligned(length, pageSize)
      requires forall y :: address <= y < address + length ==> y in pages && pages[y] == pageSize
      modifies this
      ensures Unmapped(old(pages), pages, address, length)
    {
      pages := map y | y in pages && !(address <= y < address + length) :: pages[y];
    }
  }

  /** The page size of the window that holds offset x. */
  function PageAt(ws: seq<Window>, x: int): nat {
    var k := WindowOf(ws, x + 1);
    if k < |ws| then ws[k].pageSize else 0
  }

  lemma PageAtIn(ws: seq<Window>, size: int, i: nat, x: int)
    requires Tiles(ws, size) && i < |ws| && ws[i].startOffset <= x < ws[i].endOffset
    ensures PageAt(ws, x) == ws[i].pageSize
  {
    var k := WindowOf(ws, x + 1);
    if k < i { TilesOrdered(ws, size, k, i); }
  }

  lemma PageAtWindow(ws: seq<Window>, size: int, w: Window, x: int)
    requires Tiles(ws, size) && w in ws && w.startOffset <= x < w.endOffset
    ensures PageAt(ws, x) == w.pageSize
  {
    var i :| 0 <= i < |ws| && ws[i] == w;
    PageAtIn(ws, size, i, x);
  }

  lemma WindowAround(ws: seq<Window>, size: int, x: int) returns (w: Window)
    requires Tiles(ws, size) && 0 <= x < size
    ensures w in ws && w.startOffset <= x < w.endOffset && PageAt(ws, x) == w.pageSize
  {
    WindowExists(ws, size, x + 1);
    w := ws[WindowOf(ws, x + 1)];
  }

  /** The page size of every offset of a new region: 1GB in the 1GB window, 2MB in the 2MB window, 4KB elsewhere. */
  lemma PageSizes(o: Offsets, size: nat, x: int)
    requires o.Validated() && o.Fits(size) && IsAligned(size, BASE_4KB) && 0 <= x < size
    ensures PageAt(Layout(HugeWindows(o), size), x) ==
      if o.start1gb <= x < o.end1gb then 1073741824 else if o.start2mb <= x < o.end2mb then 2097152 else 4096
  {
    HugeWindowsSpread(o, size);
    PageSizesIn(o, HugeWindows(o), size, x);
  }

  lemma PageSizesIn(o: Offsets, huge: seq<Window>, size: nat, x: int)
    requires Spread(huge, size) && 0 <= x < size
    requires o.start1gb < o.end1gb ==> Window1gb(o) in huge
    requires o.start2mb < o.end2mb ==> Window2mb(o) in huge
    requires forall w <- huge :: w == Window1gb(o) || w == Window2mb(o)
    ensures PageAt(Layout(huge, size), x) ==
      if o.start1gb <= x < o.end1gb then 1073741824 else if o.start2mb <= x < o.end2mb then 2097152 else 4096
  {
    LayoutTiles(huge, size);
    LayoutWindows(huge, size);
    if o.start1gb <= x < o.end1gb {
      PageAtWindow(Layout(huge, size), size, Window1gb(o), x);
    } else if o.start2mb <= x < o.end2mb {
      PageAtWindow(Layout(huge, size), size, Window2mb(o), x);
    } else {
      var w := WindowAround(Layout(huge, size), size, x);
    }
  }

  /** Of the offsets 0 to size-1, exactly those below a and those from b to c-1 are mapped, each with a page of
      its window's size. */
  ghost predicate Backed(pages: map<int, nat>, base: int, ws: seq<Window>, size: int, a: int, b: int, c: int) {
    forall y :: base <= y < base + size ==>
      && (y in pages <==> y - base < a || b <= y - base < c)
      && (y in pages ==> pages[y] == PageAt(ws, y - base))
  }

  /** In a region that is wholly mapped, the offsets alone tell the page size of every address. */
  lemma AllPageSizes(pages: map<int, nat>, base: int, o: Offsets, size: nat)
    requires o.Validated() && o.Fits(size) && IsAligned(size, BASE_4KB)
    requires Backed(pages, base, Layout(HugeWindows(o), size), size, size, 0, 0)
    ensures forall y :: base <= y < base + size ==>
      && y in pages
      && pages[y] == if o.start1gb <= y - base < o.end1gb then 1073741824
                     else if o.start2mb <= y - base < o.end2mb then 2097152 else 4096
  {
    forall y | base <= y < base + size
      ensures y in pages
      ensures pages[y] == if o.start1gb <= y - base < o.end1gb then 1073741824
                          else if o.start2mb <= y - base < o.end2mb then 2097152 else 4096
    { PageSizes(o, size, y - base); }
  }

  ghost predicate SameOutside(before: map<int, nat>, pages: map<int, nat>, base: int, size: int) {
    forall y :: !(base <= y < base + size) ==>
      && (y in pages <==> y in before)
      && (y in pages ==> pages[y] == before[y])
  }

  /** A range between two boundaries of a window has an aligned address and length. */
  lemma RangeAligned(base: int, w: Window, from: int, to: int)
    requires WholePages(w) && IsAligned(base + w.startOffset, w.pageSize)
    requires BoundaryIn(w, from) && BoundaryIn(w, to)
    ensures IsAligned(base + from, w.pageSize) && IsAligned(to - from, w.pageSize)
  {
    AlignedSum(base + w.startOffset, from - w.startOffset, w.pageSize);
    AlignedSum(to - w.startOffset, from - w.startOffset, w.pageSize);
    assert base + w.startOffset + (from - w.startOffset) == base + from;
    assert to - w.startOffset - (from - w.startOffset) == to - from;
  }

  /** Mapping a range of window i behind the mapped part extends that part. */
  lemma BackedGrows(before: map<int, nat>, after: map<int, nat>, base: int, ws: seq<Window>, size: int,
                    i: nat, from: int, to: int)
    requires Tiles(ws, size) && i < |ws| && 0 <= ws[i].startOffset <= from <= to <= ws[i].endOffset <= size
    requires Backed(before, base, ws, size, from, 0, 0)
    requires Mapped(before, after, base + from, to - from, ws[i].pageSize)
    ensures Backed(after, base, ws, size, to, 0, 0) && SameOutside(before, after, base, size)
  {
    forall x | from <= x < to ensures PageAt(ws, x) == ws[i].pageSize { PageAtIn(ws, size, i, x); }
  }

  /** Unmapping a range of window i at the low end of the upper mapped part. */
  lemma BackedShrinks(before: map<int, nat>, after: map<int, nat>, base: int, ws: seq<Window>, size: int,
                      i: nat, from: int, to: int, a: int, c: int)
    requires Tiles(ws, size) && i < |ws| && 0 <= ws[i].startOffset <= from <= to <= ws[i].endOffset <= size
    requires a <= from && to == Min(c, ws[i].endOffset) && from == Max(a, ws[i].startOffset) && c <= size
    requires Backed(before, base, ws, size, a, Max(a, ws[i].startOffset), c)
    requires Unmapped(before, after, base + from, to - from)
    ensures Backed(after, base, ws, size, a, Max(a, ws[i].endOffset), c) && SameOutside(before, after, base, size)
  {
  }

  /** A window with nothing to unmap in it is passed over. */
  lemma BackedSkips(pages: map<int, nat>, base: int, ws: seq<Window>, size: int, a: int, b: int, b': int, c: int)
    requires Backed(pages, base, ws, size, a, Max(a, b), c)
    requires b <= b' <= a || c <= b <= b'
    ensures Backed(pages, base, ws, size, a, Max(a, b'), c)
  {
  }

  /** The size that shrinking reports: still c while every window up to end lies below the target. */
  ghost predicate ShrunkTo(updated: int, target: int, c: int, end: int) {
    updated == target || (updated == c && end <= target)
  }

  lemma ShrunkStep(updated: int, updated': int, target: int, c: int, start: int, end: int, unmapped: bool)
    requires ShrunkTo(updated, target, c, start) && target <= c && start < end
    requires unmapped ==> updated' == Min(Max(target, start), updated)
    requires !unmapped ==> updated' == updated && (end <= target || c <= start)
    ensures ShrunkTo(updated', target, c, end)
  {
  }

  lemma GrowDone(ws: seq<Window>, size: int, c: int, target: int)
    requires Tiles(ws, size) && 0 <= c <= target <= size
    ensures Max(c, Min(target, EndBefore(ws, |ws|))) == target
  {
  }

  /** In front of the first window, nothing has been unmapped. */
  lemma ShrinkStart(pages: map<int, nat>, base: int, ws: seq<Window>, size: int, n: int, c: int)
    requires Tiles(ws, size) && 0 <= n < c <= size && PageEnd(ws, size, c) == c
    requires Backed(pages, base, ws, size, c, 0, 0)
    ensures var target := PageEnd(ws, size, n);
      && 0 <= target <= c
      && ShrunkTo(c, target, c, EndBefore(ws, 0))
      && Backed(pages, base, ws, size, target, Max(target, EndBefore(ws, 0)), c)
  {
    PageEndMonotone(ws, size, n, c);
    PageEndBounds(ws, size, n);
  }

  /** Unmapping a reservation restores the mappings. */
  lemma ReservationUndone(before: map<int, nat>, reserved: map<int, nat>, after: map<int, nat>,
                          address: int, address': int, length: int, pageSize: nat)
    requires Mapped(before, reserved, address, length, pageSize) && Unmapped(reserved, after, address', length)
    requires forall y :: address <= y < address + length ==> y !in before
    requires length == 0 || address' == address
    ensures forall y :: (y in after <==> y in before) && (y in after ==> after[y] == before[y])
  {
  }

  /** The range that BackedShrinks unmaps is backed by pages of window i. */
  lemma BackedRange(pages: map<int, nat>, base: int, ws: seq<Window>, size: int, i: nat, from: int, to: int,
                    a: int, b: int, c: int)
    requires Tiles(ws, size) && i < |ws| && 0 <= ws[i].startOffset <= from <= to <= ws[i].endOffset <= size
    requires Backed(pages, base, ws, size, a, b, c) && b <= from && to <= c
    ensures forall y :: base + from <= y < base + to ==> y in pages && pages[y] == ws[i].pageSize
  {
    forall x | from <= x < to ensures PageAt(ws, x) == ws[i].pageSize { PageAtIn(ws, size, i, x); }
  }

  lemma SameOutsideTrans(a: map<int, nat>, b: map<int, nat>, c: map<int, nat>, base: int, size: int)
    requires SameOutside(a, b, base, size) && SameOutside(b, c, base, size)
    ensures SameOutside(a, c, base, size)
  {
  }

  class MosaicRegion {
    const kernel: AddressSpace
    var regionStart: int
    var regionMaxSize: int
    var regionCurrentSize: int
    var intervals: MemoryIntervalList

    /** The window list fits the region and the base address. */
    ghost predicate Laid()
      reads this, intervals, intervals.list
    {
      && intervals.Valid()
      && Tiles(intervals.Items(), regionMaxSize)
      && AlignedAt(regionStart, intervals.Items())
      && 0 <= regionCurrentSize <= regionMaxSize
      && PageEnd(intervals.Items(), regionMaxSize, regionCurrentSize) == regionCurrentSize
    }

    /** The mapped offsets are exactly those below the current size, each backed as its window demands. */
    ghost predicate Valid()
      reads this, intervals, intervals.list, kernel
    {
      && Laid()
      && Backed(kernel.pages, regionStart, intervals.Items(), regionMaxSize, regionCurrentSize, 0, 0)
    }

    constructor (kernel: AddressSpace)
      ensures this.kernel == kernel && fresh(intervals) && fresh(intervals.list)
    {
      this.kernel := kernel;
      regionStart, regionMaxSize, regionCurrentSize := 0, 0, 0;
      intervals := new MemoryIntervalList.Initialize(0);
    }

    /** Sets up a region of the given size and maps all of it. base is the address at which the kernel places the
        reservation. A size that is not a multiple of 4KB ends the process, which is reported as !ok here. */
    method Initialize(regionSize: nat, o: Offsets, base: nat) returns (ok: bool)
      requires o.Validated() && o.Fits(regionSize)
      requires IsAligned(base, BASE_4KB)
      requires forall y :: base <= y < base + Reservation(o, regionSize) ==> y !in kernel.pages
      modifies this, kernel
      ensures ok <==> regionSize % 4096 == 0
      ensures ok ==> Valid() && fresh(intervals) && fresh(intervals.list)
      ensures ok ==> regionCurrentSize == regionMaxSize == regionSize
      ensures ok ==> intervals.Items() == Layout(HugeWindows(o), regionSize)
      ensures ok && regionSize > 0 ==>
        && base <= regionStart == RegionStart(o, base)
        && regionStart + regionSize <= base + Reservation(o, regionSize)
      ensures ok ==> SameOutside(old(kernel.pages), kernel.pages, regionStart, regionSize)
      ensures ok ==> forall y :: regionStart <= y < regionStart + regionSize ==>
        && y in kernel.pages
        && kernel.pages[y] == if o.start1gb <= y - regionStart < o.end1gb then 1073741824
                              else if o.start2mb <= y - regionStart < o.end2mb then 2097152 else 4096
    {
      regionStart := 0;
      regionMaxSize := regionSize;
      regionCurrentSize := 0;
      intervals := new MemoryIntervalList.Initialize(10);
      if !IsAligned(regionSize, BASE_4KB) {
        return false;
      }
      var baseAddress := PlaceRegion(regionSize, o, base);
      RegionStartIsAligned(o, regionSize, baseAddress);
      ReadyToMap(o, regionSize, baseAddress);
      MapAll(o);
      return true;
    }

    /** The last steps of Initialize: all of the new region is mapped. */
    method MapAll(ghost o: Offsets)
      requires Valid() && o.Validated() && o.Fits(regionMaxSize) && IsAligned(regionMaxSize, BASE_4KB)
      requires intervals.Items() == Layout(HugeWindows(o), regionMaxSize)
      modifies this`regionMaxSize, this`regionCurrentSize, kernel
      ensures Valid() && regionCurrentSize == regionMaxSize == old(regionMaxSize)
      ensures SameOutside(old(kernel.pages), kernel.pages, regionStart, regionMaxSize)
      ensures forall y :: regionStart <= y < regionStart + regionMaxSize ==>
        && y in kernel.pages
        && kernel.pages[y] == if o.start1gb <= y - regionStart < o.end1gb then 1073741824
                              else if o.start2mb <= y - regionStart < o.end2mb then 2097152 else 4096
    {
      var code := Resize(regionMaxSize);
      PageEndOfAll(intervals.Items(), regionMaxSize);
      regionMaxSize := regionCurrentSize;
      AllPageSizes(kernel.pages, regionStart, o, regionMaxSize);
    }

    /** The part of Initialize that chooses the start and the windows. The reservation is unmapped again, so that the
        mappings are as before; an empty one is placed at address 0. */
    method PlaceRegion(regionSize: nat, o: Offsets, base: nat) returns (baseAddress: nat)
      requires o.Validated() && o.Fits(regionSize) && IsAligned(base, BASE_4KB) && IsAligned(regionSize, BASE_4KB)
      requires forall y :: base <= y < base + Reservation(o, regionSize) ==> y !in kernel.pages
      requires regionMaxSize == regionSize && intervals.Valid() && intervals.Items() == [] && intervals.capacity == 10
      modifies this`regionStart, this`regionCurrentSize, kernel, intervals, intervals.list
      ensures baseAddress == if Reservation(o, regionSize) == 0 then 0 else base
      ensures regionStart == RegionStart(o, baseAddress) && regionCurrentSize == 0
      ensures intervals.Valid() && intervals.Items() == Layout(HugeWindows(o), regionSize)
      ensures forall y :: (y in kernel.pages <==> y in old(kernel.pages))
                          && (y in kernel.pages ==> kernel.pages[y] == old(kernel.pages)[y])
    {
      Reserve(o, regionSize, base);
      baseAddress := if regionCurrentSize == 0 then 0 else base;
      AlignStart(o, baseAddress);
      LayOutIntervals(o);
      ghost var reserved := kernel.pages;
      DeallocateMemory(baseAddress, regionCurrentSize, BASE_4KB);
      ReservationUndone(old(kernel.pages), reserved, kernel.pages, base, baseAddress, regionCurrentSize, BASE_4KB);
      regionCurrentSize := 0;
    }

    /** Maps a range that is large enough to find an aligned region in. */
    method Reserve(o: Offsets, regionSize: nat, base: nat)
      requires IsAligned(base, BASE_4KB) && IsAligned(regionSize, BASE_4KB)
      requires forall y :: base <= y < base + Reservation(o, regionSize) ==> y !in kernel.pages
      modifies this`regionCurrentSize, kernel
      ensures regionCurrentSize == Reservation(o, regionSize) && IsAligned(regionCurrentSize, BASE_4KB)
      ensures Mapped(old(kernel.pages), kernel.pages, base, regionCurrentSize, BASE_4KB)
    {
      if o.Has1gb() {
        regionCurrentSize := RoundUp(regionSize + HUGE_1GB, HUGE_1GB);
      } else if o.Has2mb() {
        regionCurrentSize := RoundUp(regionSize + HUGE_2MB, HUGE_2MB);
      } else {
        regionCurrentSize := regionSize;
      }
      PageSizesDivide(regionCurrentSize);
      AllocateMemory(base, regionCurrentSize, BASE_4KB);
    }

    /** Moves the start up until the largest page size in use is aligned. */
    method AlignStart(o: Offsets, baseAddress: nat)
      requires o.Has1gb() ==> o.start1gb >= 0
      requires o.Has2mb() ==> o.start2mb >= 0
      modifies this`regionStart
      ensures regionStart == RegionStart(o, baseAddress)
    {
      if o.Has1gb() {
        regionStart := RoundUp(baseAddress + o.start1gb, HUGE_1GB) - o.start1gb;
      } else if o.Has2mb() {
        regionStart := RoundUp(baseAddress + o.start2mb, HUGE_2MB) - o.start2mb;
      } else {
        regionStart := baseAddress;
      }
    }

    /** With an empty region laid out and nothing mapped in it, the region is valid. */
    lemma ReadyToMap(o: Offsets, size: nat, base: nat)
      requires o.Validated() && o.Fits(size) && IsAligned(size, BASE_4KB) && IsAligned(base, BASE_4KB)
      requires intervals.Valid() && intervals.Items() == Layout(HugeWindows(o), size)
      requires regionMaxSize == size && regionCurrentSize == 0 && regionStart == RegionStart(o, base)
      requires forall y :: regionStart <= y < regionStart + size ==> y !in kernel.pages
      ensures Valid()
    {
      HugeWindowsSpread(o, size);
      LayoutTiles(HugeWindows(o), size);
      LayoutAligned(o, size, base);
      PageEndOfNone(intervals.Items(), size);
    }

    /** Fills the empty interval list: the huge windows, sorted, then a 4KB window for every gap, sorted again. */
    method LayOutIntervals(o: Offsets)
      requires o.Validated() && 0 <= regionMaxSize && o.Fits(regionMaxSize) && IsAligned(regionMaxSize, BASE_4KB)
      requires intervals.Valid() && intervals.Items() == [] && intervals.capacity == 10
      modifies intervals, intervals.list
      ensures intervals.Valid()
      ensures intervals.Items() == Layout(HugeWindows(o), regionMaxSize)
    {
      ghost var huge := HugeWindows(o);
      HugeWindowsSpread(o, regionMaxSize);
      AddHugeWindows(o);
      intervals.Sort();
      HugeWindowsSorted(o, regionMaxSize, intervals.Items());
      AddGaps(huge);
      intervals.Sort();
      SortedLayout(huge, regionMaxSize, intervals.Items());
    }

    method AddHugeWindows(o: Offsets)
      requires intervals.Valid() && intervals.Items() == [] && intervals.capacity == 10
      modifies intervals, intervals.list
      ensures intervals.Valid()
      ensures intervals.Items() ==
        (if o.Has1gb() then [Window1gb(o)] else []) + if o.Has2mb() then [Window2mb(o)] else []
    {
      var ok := true;
      if o.Has1gb() {
        ok := intervals.AddInterval(o.start1gb, o.end1gb, HUGE_1GB);
      }
      if o.Has2mb() {
        ok := intervals.AddInterval(o.start2mb, o.end2mb, HUGE_2MB);
      }
    }

    /** Appends a 4KB window for every gap between the huge windows already in the list. */
    method AddGaps(ghost huge: seq<Window>)
      requires intervals.Valid() && intervals.Items() == huge && |huge| <= 2 && intervals.capacity == 10
      modifies intervals, intervals.list
      ensures intervals.Valid()
      ensures intervals.Items() == huge + Gaps(huge, |huge|) + Gap(EndBefore(huge, |huge|), regionMaxSize)
    {
      var ok := true;
      var previousStart := 0;
      var intervalsLength := intervals.GetLength();
      for i := 0 to intervalsLength
        invariant intervals.Valid() && intervals.Items() == huge + Gaps(huge, i)
        invariant previousStart == EndBefore(huge, i)
      {
        var interval := intervals.At(i);
        assert interval == intervals.Items()[i] == huge[i];
        if previousStart < interval.startOffset {
          ok := intervals.AddInterval(previousStart, interval.startOffset, BASE_4KB);
        }
        previousStart := interval.endOffset;
      }
      if previousStart < regionMaxSize {
        ok := intervals.AddInterval(previousStart, regionMaxSize, BASE_4KB);
      }
    }

    method AllocateMemory(address: int, length: int, pageSize: nat)
      requires length >= 0 && pageSize > 0 && IsAligned(address, pageSize) && IsAligned(length, pageSize)
      requires forall y :: address <= y < address + length ==> y !in kernel.pages
      modifies kernel
      ensures Mapped(old(kernel.pages), kernel.pages, address, length, pageSize)
    {
      if length == 0 {
        return;
      }
      kernel.Mmap(address, length, pageSize);
    }

    method DeallocateMemory(address: int, length: int, ghost pageSize: nat)
      requires length >= 0 && pageSize > 0 && IsAligned(address, pageSize) && IsAligned(length, pageSize)
      requires forall y :: address <= y < address + length ==> y in kernel.pages && kernel.pages[y] == pageSize
      modifies kernel
      ensures Unmapped(old(kernel.pages), kernel.pages, address, length)
    {
      if length == 0 {
        return;
      }
      kernel.Munmap(address, length, pageSize);
    }

    method ExtendRegion(newSize: int) returns (updatedRegionSize: int)
      requires Valid() && regionCurrentSize < newSize <= regionMaxSize
      modifies kernel
      ensures updatedRegionSize == PageEnd(intervals.Items(), regionMaxSize, newSize)
      ensures Backed(kernel.pages, regionStart, intervals.Items(), regionMaxSize, updatedRegionSize, 0, 0)
      ensures SameOutside(old(kernel.pages), kernel.pages, regionStart, regionMaxSize)
    {
      updatedRegionSize := regionCurrentSize;
      var intervalsLength := intervals.GetLength();
      ghost var ws, target := intervals.Items(), PageEnd(intervals.Items(), regionMaxSize, newSize);
      PageEndBounds(ws, regionMaxSize, newSize);
      for i := 0 to intervalsLength
        invariant updatedRegionSize == Max(regionCurrentSize, Min(target, EndBefore(ws, i)))
        invariant Backed(kernel.pages, regionStart, ws, regionMaxSize, updatedRegionSize, 0, 0)
        invariant SameOutside(old(kernel.pages), kernel.pages, regionStart, regionMaxSize)
      {
        ghost var before := kernel.pages;
        updatedRegionSize := ExtendAt(i, newSize, updatedRegionSize);
        SameOutsideTrans(old(kernel.pages), before, kernel.pages, regionStart, regionMaxSize);
      }
      GrowDone(ws, regionMaxSize, regionCurrentSize, target);
    }

    /** The loop body of ExtendRegion. */
    method ExtendAt(i: nat, newSize: int, updated: int) returns (updatedRegionSize: int)
      requires Laid() && regionCurrentSize < newSize <= regionMaxSize && i < intervals.length
      requires updated == Max(regionCurrentSize, Min(PageEnd(intervals.Items(), regionMaxSize, newSize),
                                                     EndBefore(intervals.Items(), i)))
      requires Backed(kernel.pages, regionStart, intervals.Items(), regionMaxSize, updated, 0, 0)
      modifies kernel
      ensures updatedRegionSize == Max(regionCurrentSize, Min(PageEnd(intervals.Items(), regionMaxSize, newSize),
                                                              EndBefore(intervals.Items(), i + 1)))
      ensures Backed(kernel.pages, regionStart, intervals.Items(), regionMaxSize, updatedRegionSize, 0, 0)
      ensures SameOutside(old(kernel.pages), kernel.pages, regionStart, regionMaxSize)
    {
      ghost var ws := intervals.Items();
      var interval := intervals.At(i);
      assert interval == ws[i];
      GrowStep(ws, regionMaxSize, i, regionCurrentSize, newSize);
      EndBeforeIsStart(ws, regionMaxSize, i);
      updatedRegionSize := updated;
      if (regionCurrentSize >= interval.startOffset || newSize >= interval.startOffset)
         && regionCurrentSize < interval.endOffset {
        var startOffset, endOffset := GrowRange(interval, newSize);
        RangeAligned(regionStart, interval, startOffset, endOffset);
        ghost var before := kernel.pages;
        AllocateMemory(regionStart + startOffset, endOffset - startOffset, interval.pageSize);
        BackedGrows(before, kernel.pages, regionStart, ws, regionMaxSize, i, startOffset, endOffset);
        updatedRegionSize := endOffset;
      }
    }

    /** The part of a window that growing maps. */
    method GrowRange(interval: MemoryInterval, newSize: int) returns (startOffset: int, endOffset: int)
      requires interval.pageSize > 0 && interval.startOffset <= newSize
      ensures startOffset == GrowFrom(interval, regionCurrentSize) && endOffset == GrowTo(interval, newSize)
    {
      startOffset := interval.startOffset;
      endOffset := interval.endOffset;
      if regionCurrentSize >= interval.startOffset {
        startOffset := regionCurrentSize;
      }
      if newSize <= interval.endOffset {
        var subIntervalSize := newSize - interval.startOffset;
        subIntervalSize := RoundUp(subIntervalSize, interval.pageSize);
        endOffset := interval.startOffset + subIntervalSize;
      } else {
        endOffset := interval.endOffset;
      }
    }

    /** The state of ShrinkRegion in front of window i. */
    ghost predicate Shrinking(newSize: int, updated: int, i: nat)
      reads this, intervals, intervals.list, kernel
    {
      && Laid() && 0 <= newSize < regionCurrentSize && i <= intervals.length
      && var ws := intervals.Items();
      var target, end := PageEnd(ws, regionMaxSize, newSize), EndBefore(ws, i);
      && ShrunkTo(updated, target, regionCurrentSize, end)
      && Backed(kernel.pages, regionStart, ws, regionMaxSize, target, Max(target, end), regionCurrentSize)
    }

    method ShrinkRegion(newSize: int) returns (updatedRegionSize: int)
      requires Valid() && 0 <= newSize < regionCurrentSize
      modifies kernel
      ensures updatedRegionSize == PageEnd(intervals.Items(), regionMaxSize, newSize)
      ensures Backed(kernel.pages, regionStart, intervals.Items(), regionMaxSize, updatedRegionSize, 0, 0)
      ensures SameOutside(old(kernel.pages), kernel.pages, regionStart, regionMaxSize)
    {
      updatedRegionSize := regionCurrentSize;
      var intervalsLength := intervals.GetLength();
      ShrinkStart(kernel.pages, regionStart, intervals.Items(), regionMaxSize, newSize, regionCurrentSize);
      for i := 0 to intervalsLength
        invariant Shrinking(newSize, updatedRegionSize, i)
        invariant SameOutside(old(kernel.pages), kernel.pages, regionStart, regionMaxSize)
      {
        ghost var before := kernel.pages;
        updatedRegionSize := ShrinkAt(i, newSize, updatedRegionSize);
        SameOutsideTrans(old(kernel.pages), before, kernel.pages, regionStart, regionMaxSize);
      }
      ShrinkDone(newSize, updatedRegionSize);
    }

    /** Past the last window, the target size is reached. */
    lemma ShrinkDone(newSize: int, updated: int)
      requires Shrinking(newSize, updated, intervals.length)
      ensures updated == PageEnd(intervals.Items(), regionMaxSize, newSize)
      ensures Backed(kernel.pages, regionStart, intervals.Items(), regionMaxSize, updated, 0, 0)
    {
      PageEndMonotone(intervals.Items(), regionMaxSize, newSize, regionCurrentSize);
    }

    /** The loop body of ShrinkRegion. */
    method ShrinkAt(i: nat, newSize: int, updated: int) returns (updatedRegionSize: int)
      requires i < intervals.length && Shrinking(newSize, updated, i)
      modifies kernel
      ensures Shrinking(newSize, updatedRegionSize, i + 1)
      ensures SameOutside(old(kernel.pages), kernel.pages, regionStart, regionMaxSize)
    {
      ghost var ws, target := intervals.Items(), PageEnd(intervals.Items(), regionMaxSize, newSize);
      var interval := intervals.At(i);
      assert interval == ws[i];
      ShrinkStep(ws, regionMaxSize, i, regionCurrentSize, newSize);
      EndBeforeIsStart(ws, regionMaxSize, i);
      updatedRegionSize := updated;
      if (regionCurrentSize <= interval.endOffset || newSize <= interval.endOffset)
         && regionCurrentSize > interval.startOffset {
        var startOffset := ShrinkWindow(interval, newSize, i);
        if startOffset < updatedRegionSize {
          updatedRegionSize := startOffset;
        }
      } else {
        BackedSkips(kernel.pages, regionStart, ws, regionMaxSize, target,
                    EndBefore(ws, i), interval.endOffset, regionCurrentSize);
      }
      ShrunkStep(updated, updatedRegionSize, target, regionCurrentSize, interval.startOffset, interval.endOffset,
                 Shrinks(interval, regionCurrentSize, newSize));
    }

    /** What the loop of ShrinkRegion does for a window that it does not pass over: unmaps its part between the
        target size and the current size. */
    method ShrinkWindow(interval: MemoryInterval, newSize: int, ghost i: nat) returns (startOffset: int)
      requires Laid() && 0 <= newSize < regionCurrentSize
      requires i < |intervals.Items()| && interval == intervals.Items()[i]
      requires Shrinks(interval, regionCurrentSize, newSize)
      requires var target := PageEnd(intervals.Items(), regionMaxSize, newSize);
        Backed(kernel.pages, regionStart, intervals.Items(), regionMaxSize,
               target, Max(target, interval.startOffset), regionCurrentSize)
      modifies kernel
      ensures var target := PageEnd(intervals.Items(), regionMaxSize, newSize);
        && startOffset == Max(target, interval.startOffset)
        && Backed(kernel.pages, regionStart, intervals.Items(), regionMaxSize,
                  target, Max(target, interval.endOffset), regionCurrentSize)
      ensures SameOutside(old(kernel.pages), kernel.pages, regionStart, regionMaxSize)
    {
      ghost var ws, target := intervals.Items(), PageEnd(intervals.Items(), regionMaxSize, newSize);
      ghost var before := kernel.pages;
      ShrinkStep(ws, regionMaxSize, i, regionCurrentSize, newSize);
      EndBeforeIsStart(ws, regionMaxSize, i);
      var endOffset;
      startOffset, endOffset := ShrinkRange(interval, newSize);
      RangeAligned(regionStart, interval, startOffset, endOffset);
      BackedRange(before, regionStart, ws, regionMaxSize, i, startOffset, endOffset,
                  target, Max(target, interval.startOffset), regionCurrentSize);
      DeallocateMemory(regionStart + startOffset, endOffset - startOffset, interval.pageSize);
      BackedShrinks(before, kernel.pages, regionStart, ws, regionMaxSize, i, startOffset, endOffset,
                    target, regionCurrentSize);
    }

    /** The part of a window that shrinking unmaps. */
    method ShrinkRange(interval: MemoryInterval, newSize: int) returns (startOffset: int, endOffset: int)
      requires interval.pageSize > 0
      ensures startOffset == ShrinkFrom(interval, newSize) && endOffset == ShrinkTo(interval, regionCurrentSize)
    {
      startOffset := interval.startOffset;
      endOffset := interval.endOffset;
      if regionCurrentSize <= interval.endOffset {
        endOffset := regionCurrentSize;
      }
      if newSize >= interval.startOffset {
        var subIntervalSize := newSize - interval.startOffset;
        subIntervalSize := RoundUp(subIntervalSize, interval.pageSize);
        startOffset := interval.startOffset + subIntervalSize;
      } else {
        startOffset := interval.startOffset;
      }
    }

    /** Returns 0, or -12 (-ENOMEM) when the size exceeds the region. The size after an accepted call is the page
        end of the requested size, whatever the size was before. */
    method Resize(newSize: nat) returns (code: int)
      requires Valid()
      modifies this`regionCurrentSize, kernel
      ensures Valid()
      ensures code == if newSize > regionMaxSize then -12 else 0
      ensures regionCurrentSize == SizeAfter(intervals.Items(), regionMaxSize, old(regionCurrentSize), newSize)
      ensures newSize > regionMaxSize ==> regionCurrentSize == old(regionCurrentSize)
      ensures SameOutside(old(kernel.pages), kernel.pages, regionStart, regionMaxSize)
    {
      if newSize > regionMaxSize {
        return -12;
      }
      PageEndIdempotent(intervals.Items(), regionMaxSize, newSize);
      if newSize > regionCurrentSize {
        regionCurrentSize := ExtendRegion(newSize);
      } else if newSize < regionCurrentSize {
        regionCurrentSize := ShrinkRegion(newSize);
      }
      return 0;
    }
  }
}
