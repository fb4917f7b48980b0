/** Page windows: the intervals that partition a region, and the sizes that fill whole pages of them. */
module Windows {
  import opened Globals
  import opened MemoryIntervalList

  type Window = MemoryInterval

  /** A non-empty interval of whole pages. */
  ghost predicate WholePages(w: Window) {
    0 <= w.startOffset < w.endOffset && w.pageSize > 0 && IsAligned(w.endOffset - w.startOffset, w.pageSize)
  }

  ghost predicate Adjacent(ws: seq<Window>, i: int)
    requires 0 < i < |ws|
  { ws[i-1].endOffset == ws[i].startOffset }

  /** ws partitions [0, size) without gap or overlap. */
  ghost predicate Tiles(ws: seq<Window>, size: int) {
    && (forall i :: 0 <= i < |ws| ==> WholePages(ws[i]))
    && (forall i {:trigger Adjacent(ws, i)} :: 0 < i < |ws| ==> Adjacent(ws, i))
    && (if ws == [] then size == 0 else ws[0].startOffset == 0 && ws[|ws|-1].endOffset == size)
  }

  lemma TilesOrdered(ws: seq<Window>, size: int, i: int, j: int)
    requires Tiles(ws, size) && 0 <= i < j < |ws|
    ensures ws[i].endOffset <= ws[j].startOffset
    decreases j - i
  {
    assert Adjacent(ws, j);
    if i < j - 1 { TilesOrdered(ws, size, i, j - 1); }
  }

  /** The first window that ends at or after n. */
  function WindowOf(ws: seq<Window>, n: int): (k: nat)
    ensures k <= |ws|
    ensures k < |ws| ==> n <= ws[k].endOffset
    ensures forall j :: 0 <= j < k ==> ws[j].endOffset < n
  {
    if ws == [] || n <= ws[0].endOffset then 0 else 1 + WindowOf(ws[1..], n)
  }

  lemma WindowExists(ws: seq<Window>, size: int, n: int)
    requires Tiles(ws, size) && 0 <= n <= size && ws != []
    ensures var k := WindowOf(ws, n);
      k < |ws| && ws[k].startOffset <= n <= ws[k].endOffset && (n == ws[k].startOffset ==> n == 0)
  {
    var k := WindowOf(ws, n);
    if k > 0 && k < |ws| { assert Adjacent(ws, k); }
  }

  /** n rounded up to the pages of its window, measured from the start of that window. */
  function RoundIn(w: Window, n: int): (r: int)
    requires w.pageSize > 0 && w.startOffset <= n
  { w.startOffset + RoundUp(n - w.startOffset, w.pageSize) }

  /** The size that a region of windows ws has after it was resized to n. */
  ghost function PageEnd(ws: seq<Window>, size: int, n: int): int
    requires Tiles(ws, size) && 0 <= n <= size
  {
    if ws == [] then 0 else WindowExists(ws, size, n); RoundIn(ws[WindowOf(ws, n)], n)
  }

  /** x ends a page of some window. */
  ghost predicate PageBoundary(ws: seq<Window>, x: int) {
    x == 0 || exists i :: 0 <= i < |ws| && BoundaryIn(ws[i], x)
  }

  ghost predicate BoundaryIn(w: Window, x: int) {
    w.pageSize > 0 && w.startOffset <= x <= w.endOffset && IsAligned(x - w.startOffset, w.pageSize)
  }

  lemma RoundInBounds(w: Window, n: int)
    requires WholePages(w) && w.startOffset <= n <= w.endOffset
    ensures n <= RoundIn(w, n) <= w.endOffset && BoundaryIn(w, RoundIn(w, n))
  {
    RoundUpIsLeast(n - w.startOffset, w.pageSize, w.endOffset - w.startOffset);
  }

  /** PageEnd(n) is the least page boundary that is not below n. */
  lemma PageEndIsLeastBoundary(ws: seq<Window>, size: int, n: int)
    requires Tiles(ws, size) && 0 <= n <= size
    ensures var r := PageEnd(ws, size, n);
      n <= r <= size && PageBoundary(ws, r) && forall x :: n <= x && PageBoundary(ws, x) ==> r <= x
  {
    if ws != [] {
      WindowExists(ws, size, n);
      var k, r := WindowOf(ws, n), PageEnd(ws, size, n);
      RoundInBounds(ws[k], n);
      if k < |ws| - 1 { TilesOrdered(ws, size, k, |ws| - 1); }
      forall x | n <= x && PageBoundary(ws, x) ensures r <= x {
        if x == 0 {
          RoundUpFixed(0, ws[k].pageSize);
        } else {
          var i :| 0 <= i < |ws| && BoundaryIn(ws[i], x);
          BoundaryNotBelow(ws, size, n, i, x);
        }
      }
    }
  }

  /** n bytes need the size r: r lies less than a page above n, at the end of a page of its window. */
  ghost predicate EndsPage(ws: seq<Window>, n: int, r: int) {
    && n <= r
    && forall w <- ws :: w.startOffset < r <= w.endOffset ==>
         w.pageSize > 0 && r < n + w.pageSize && (r - w.startOffset) % w.pageSize == 0
  }

  /** So does the page end. */
  lemma PageEndEndsPage(ws: seq<Window>, size: int, n: int)
    requires Tiles(ws, size) && 0 <= n <= size
    ensures EndsPage(ws, n, PageEnd(ws, size, n))
  {
    PageEndBounds(ws, size, n);
    if ws != [] {
      WindowExists(ws, size, n);
      var k, r := WindowOf(ws, n), PageEnd(ws, size, n);
      RoundInBounds(ws[k], n);
      forall i | 0 <= i < |ws| && ws[i].startOffset < r <= ws[i].endOffset ensures i == k {
        if i < k { TilesOrdered(ws, size, i, k); }
        if k < i { TilesOrdered(ws, size, k, i); }
      }
    }
  }

  lemma PageEndBounds(ws: seq<Window>, size: int, n: int)
    requires Tiles(ws, size) && 0 <= n <= size
    ensures n <= PageEnd(ws, size, n) <= size
  {
    PageEndIsLeastBoundary(ws, size, n);
  }

  lemma BoundaryNotBelow(ws: seq<Window>, size: int, n: int, i: int, x: int)
    requires Tiles(ws, size) && 0 <= n <= size && n <= x && 0 <= i < |ws| && BoundaryIn(ws[i], x)
    ensures PageEnd(ws, size, n) <= x
  {
    WindowExists(ws, size, n);
    var k := WindowOf(ws, n);
    RoundInBounds(ws[k], n);
    if i == k {
      RoundUpIsLeast(n - ws[k].startOffset, ws[k].pageSize, x - ws[k].startOffset);
    } else if i > k {
      TilesOrdered(ws, size, k, i);
    }
  }

  /** A boundary is its own page end, so rounding twice is rounding once. */
  lemma PageEndIdempotent(ws: seq<Window>, size: int, n: int)
    requires Tiles(ws, size) && 0 <= n <= size
    ensures var r := PageEnd(ws, size, n); 0 <= r <= size && PageEnd(ws, size, r) == r
  {
    PageEndIsLeastBoundary(ws, size, n);
    PageEndIsLeastBoundary(ws, size, PageEnd(ws, size, n));
  }

  lemma PageEndMonotone(ws: seq<Window>, size: int, m: int, n: int)
    requires Tiles(ws, size) && 0 <= m <= n <= size
    ensures PageEnd(ws, size, m) <= PageEnd(ws, size, n)
  {
    PageEndIsLeastBoundary(ws, size, m);
    PageEndIsLeastBoundary(ws, size, n);
  }

  /** The whole region ends at a page boundary. */
  lemma PageEndOfAll(ws: seq<Window>, size: int)
    requires Tiles(ws, size)
    ensures size >= 0 && PageEnd(ws, size, size) == size
  {
    if ws != [] {
      if |ws| > 1 { TilesOrdered(ws, size, 0, |ws| - 1); }
      PageEndIsLeastBoundary(ws, size, size);
    }
  }

  lemma PageEndOfNone(ws: seq<Window>, size: int)
    requires Tiles(ws, size)
    ensures size >= 0 && PageEnd(ws, size, 0) == 0
  {
    PageEndOfAll(ws, size);
    PageEndIsLeastBoundary(ws, size, 0);
    assert PageBoundary(ws, 0);
  }

  /** Seen from any window that contains n, its page end is the same. */
  lemma PageEndFrom(ws: seq<Window>, size: int, i: int, n: int)
    requires Tiles(ws, size) && 0 <= i < |ws| && ws[i].startOffset <= n <= ws[i].endOffset
    ensures 0 <= n <= size && PageEnd(ws, size, n) == RoundIn(ws[i], n)
  {
    if i < |ws| - 1 { TilesOrdered(ws, size, i, |ws| - 1); }
    var k := WindowOf(ws, n);
    assert k <= i;
    WindowExists(ws, size, n);
    if k < i {
      TilesOrdered(ws, size, k, i);
      RoundUpFixed(ws[k].endOffset - ws[k].startOffset, ws[k].pageSize);
      RoundUpFixed(0, ws[i].pageSize);
    }
  }

  // ---------------------------------------------------------------- runs of requests

  /** The size after one request: a request beyond the region is refused. */
  ghost function SizeAfter(ws: seq<Window>, size: int, c: int, n: nat): int
    requires Tiles(ws, size)
  {
    if n > size then c else PageEnd(ws, size, n)
  }

  ghost function SizeAfterAll(ws: seq<Window>, size: int, c: int, requests: seq<nat>): int
    requires Tiles(ws, size)
  {
    if requests == [] then c
    else SizeAfter(ws, size, SizeAfterAll(ws, size, c, requests[..|requests|-1]), requests[|requests|-1])
  }

  /** Whatever the size was at first and whatever was requested before, the last request that is not refused decides
      the size. */
  lemma {:induction false} LastAcceptedDecides(ws: seq<Window>, size: int, c: int, requests: seq<nat>, i: nat)
    requires Tiles(ws, size) && i < |requests| && requests[i] <= size
    requires forall j :: i < j < |requests| ==> requests[j] > size
    ensures SizeAfterAll(ws, size, c, requests) == PageEnd(ws, size, requests[i])
    decreases |requests|
  {
    if i < |requests| - 1 {
      LastAcceptedDecides(ws, size, c, requests[..|requests|-1], i);
    }
  }

  // ---------------------------------------------------------------- growing and shrinking, window by window

  function Max(a: int, b: int): int { if a < b then b else a }

  function Min(a: int, b: int): int { if a < b then a else b }

  /** The end of the windows in front of window i. */
  function EndBefore(ws: seq<Window>, i: nat): int
    requires i <= |ws|
  { if i == 0 then 0 else ws[i-1].endOffset }

  lemma EndBeforeIsStart(ws: seq<Window>, size: int, i: nat)
    requires Tiles(ws, size) && i < |ws|
    ensures EndBefore(ws, i) == ws[i].startOffset
    ensures ws[i].endOffset <= size
  {
    if i > 0 { assert Adjacent(ws, i); }
    if i < |ws| - 1 { TilesOrdered(ws, size, i, |ws| - 1); }
  }

  /** The part of window w that growing from size c to size n has to map, computed as ExtendRegion does. */
  predicate Grows(w: Window, c: int, n: int) { (c >= w.startOffset || n >= w.startOffset) && c < w.endOffset }

  function GrowFrom(w: Window, c: int): int { if c >= w.startOffset then c else w.startOffset }

  function GrowTo(w: Window, n: int): int
    requires w.pageSize > 0 && w.startOffset <= n
  { if n <= w.endOffset then RoundIn(w, n) else w.endOffset }

  /** Growing has reached Max(c, Min(target, end)) when it is done with the windows up to that end. */
  lemma GrowStep(ws: seq<Window>, size: int, i: nat, c: int, n: int)
    requires Tiles(ws, size) && i < |ws| && 0 <= c < n <= size && PageEnd(ws, size, c) == c
    ensures var w, target := ws[i], PageEnd(ws, size, n);
      var before, after := Max(c, Min(target, EndBefore(ws, i))), Max(c, Min(target, w.endOffset));
      if Grows(w, c, n) then
        && w.startOffset <= n
        && before == GrowFrom(w, c) <= after == GrowTo(w, n)
        && BoundaryIn(w, before) && BoundaryIn(w, after)
      else before == after
  {
    var w, target := ws[i], PageEnd(ws, size, n);
    EndBeforeIsStart(ws, size, i);
    PageEndIsLeastBoundary(ws, size, n);
    if w.startOffset <= n <= w.endOffset {
      PageEndFrom(ws, size, i, n);
      RoundInBounds(w, n);
    }
    if w.startOffset <= c <= w.endOffset {
      PageEndFrom(ws, size, i, c);
      RoundInBounds(w, c);
    }
    if n < w.startOffset {
      StartIsBoundary(ws, size, i);
    }
  }

  lemma StartIsBoundary(ws: seq<Window>, size: int, i: nat)
    requires Tiles(ws, size) && i < |ws|
    ensures PageBoundary(ws, ws[i].startOffset)
  {
    assert BoundaryIn(ws[i], ws[i].startOffset);
  }

  predicate Shrinks(w: Window, c: int, n: int) { (c <= w.endOffset || n <= w.endOffset) && c > w.startOffset }

  function ShrinkFrom(w: Window, n: int): int
    requires w.pageSize > 0
  { if n >= w.startOffset then RoundIn(w, n) else w.startOffset }

  function ShrinkTo(w: Window, c: int): int { if c <= w.endOffset then c else w.endOffset }

  /** Shrinking from size c to size n passes over the windows that end below n, and unmaps what lies between the
      target size and c in each of the others. */
  lemma ShrinkStep(ws: seq<Window>, size: int, i: nat, c: int, n: int)
    requires Tiles(ws, size) && i < |ws| && 0 <= n < c <= size && PageEnd(ws, size, c) == c
    ensures var w, target := ws[i], PageEnd(ws, size, n);
      && target <= c
      && if Shrinks(w, c, n) then
           && n <= w.endOffset
           && ShrinkFrom(w, n) == Max(target, w.startOffset) <= ShrinkTo(w, c) == Min(c, w.endOffset)
           && BoundaryIn(w, ShrinkFrom(w, n)) && BoundaryIn(w, ShrinkTo(w, c))
         else (w.endOffset < n && w.endOffset <= target) || c <= w.startOffset
  {
    var w, target := ws[i], PageEnd(ws, size, n);
    PageEndMonotone(ws, size, n, c);
    PageEndIsLeastBoundary(ws, size, n);
    if w.startOffset <= n <= w.endOffset {
      PageEndFrom(ws, size, i, n);
      RoundInBounds(w, n);
    }
    if w.startOffset <= c <= w.endOffset {
      PageEndFrom(ws, size, i, c);
      RoundInBounds(w, c);
    }
    if n < w.startOffset {
      StartIsBoundary(ws, size, i);
    }
  }
}
