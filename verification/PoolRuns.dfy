/** First-fit allocation over whole runs: every sequence of calls, and every order of freeing. */
module PoolRuns {
  import opened Blocks
  import opened PoolLaws
  import opened Sets

  // ---------------------------------------------------------------- runs

  datatype Call = Allocate(size: nat) | Free(start: nat, size: nat)

  function After(p: Pool, c: Call): Pool {
    match c
    case Allocate(size) => Allocated(p, size).1
    case Free(start, size) => Freed(p, start, size).1
  }

  /** The pool after a sequence of calls. */
  function Run(p: Pool, calls: seq<Call>): Pool
    decreases |calls|
  {
    if calls == [] then p else Run(After(p, calls[0]), calls[1..])
  }

  /** Every Free of the run is safe in the state in which it is made. */
  ghost predicate SafeRun(p: Pool, calls: seq<Call>)
    decreases |calls|
  {
    calls != [] ==>
      && (calls[0].Free? ==> SafeFree(p, calls[0].start, calls[0].size))
      && SafeRun(After(p, calls[0]), calls[1..])
  }

  lemma FreshIsValid(first: nat, last: nat, slots: nat)
    requires 0 < first < last && 1 <= slots
    ensures Inv(Fresh(first, last, slots))
  {
    var p := Fresh(first, last, slots);
    forall x ensures Covers(p.free, x) <==> first <= x < last {
      assert first <= x < last ==> p.free[0].Has(x);
    }
  }

  /** A run keeps the invariant in every state it passes through iff every Free in it is safe. */
  lemma {:induction false} RunKeepsInvariantIff(p: Pool, calls: seq<Call>)
    requires Inv(p)
    ensures SafeRun(p, calls) <==> forall n :: 0 <= n <= |calls| ==> Inv(Run(p, calls[..n]))
    decreases |calls|
  {
    if calls != [] {
      var q, rest := After(p, calls[0]), calls[1..];
      assert Inv(q) <==> (calls[0].Free? ==> SafeFree(p, calls[0].start, calls[0].size)) by {
        match calls[0]
        case Allocate(size) => AllocateIsFirstFit(p, size);
        case Free(start, size) => FreeKeepsInvariantIff(p, start, size);
      }
      forall n | 0 <= n <= |rest| ensures Run(p, calls[..n+1]) == Run(q, rest[..n]) {
        assert calls[..n+1][1..] == rest[..n];
      }
      assert Run(q, rest[..0]) == q;
      if Inv(q) {
        RunKeepsInvariantIff(q, rest);
        if forall n :: 0 <= n <= |rest| ==> Inv(Run(q, rest[..n])) {
          forall n | 0 <= n <= |calls| ensures Inv(Run(p, calls[..n])) {
            if n > 0 { assert Run(p, calls[..(n-1)+1]) == Run(q, rest[..n-1]); }
          }
        }
        if forall n :: 0 <= n <= |calls| ==> Inv(Run(p, calls[..n])) {
          forall n | 0 <= n <= |rest| ensures Inv(Run(q, rest[..n])) {
            assert Inv(Run(p, calls[..n+1]));
          }
        }
      } else {
        assert Run(p, calls[..0+1]) == q;
      }
    }
  }

  // ---------------------------------------------------------------- the validation

  ghost predicate AtMostOnce(bs: seq<Block>, x: int) {
    forall i, j :: 0 <= i < j < |bs| ==> !(bs[i].Has(x) && bs[j].Has(x))
  }

  /** Every pool address lies in one block and in no second one. */
  ghost predicate ExactlyOnce(p: Pool) {
    forall x :: p.first <= x < p.last ==> Covers(p.occupied + p.free, x) && AtMostOnce(p.occupied + p.free, x)
  }

  /** No block is empty, except at the given address. */
  ghost predicate EmptyOnlyAt(bs: seq<Block>, x: nat) {
    forall k :: 0 <= k < |bs| && bs[k].start == bs[k].end ==> bs[k].start == x
  }

  /** For nodes inside the pool, empty ones included, the pairwise overlap test and the comparison of total sizes
      accept iff every pool address is covered exactly once and every empty node lies at the end of the pool. */
  lemma ConsistentIffExactlyOnce(p: Pool)
    requires p.first <= p.last
    requires forall b <- p.occupied + p.free :: p.first <= b.start <= b.end <= p.last
    ensures Consistent(p) <==> ExactlyOnce(p) && EmptyOnlyAt(p.occupied + p.free, p.last)
  {
    var all := p.occupied + p.free;
    forall k | 0 <= k < |all| ensures p.first <= all[k].start <= all[k].end <= p.last { assert all[k] in all; }
    TotalSizeConcat(p.occupied, p.free);
    TilesIff(all, p.first, p.last);
  }

  /** The same for one list: blocks inside [first, last) tile it iff they are apart and add up to its size. */
  lemma TilesIff(bs: seq<Block>, first: nat, last: nat)
    requires first <= last
    requires forall k :: 0 <= k < |bs| ==> first <= bs[k].start <= bs[k].end <= last
    ensures Apart(bs) && TotalSize(bs) == last - first <==>
            (forall x :: first <= x < last ==> Covers(bs, x) && AtMostOnce(bs, x)) && EmptyOnlyAt(bs, last)
  {
    if Apart(bs) && TotalSize(bs) == last - first {
      ApartTiles(bs, first, last);
    }
    if (forall x :: first <= x < last ==> Covers(bs, x) && AtMostOnce(bs, x)) && EmptyOnlyAt(bs, last) {
      TilesApart(bs, first, last);
    }
  }

  lemma ApartTiles(bs: seq<Block>, first: nat, last: nat)
    requires first <= last && Apart(bs) && TotalSize(bs) == last - first
    requires forall k :: 0 <= k < |bs| ==> first <= bs[k].start <= bs[k].end <= last
    ensures forall x :: first <= x < last ==> Covers(bs, x) && AtMostOnce(bs, x)
    ensures EmptyOnlyAt(bs, last)
  {
    var range := Span(first, last);
    forall x | x in Cells(bs) ensures x in range { CellsAre(bs, x); }
    CellsSize(bs);
    SubsetSize(Cells(bs), range);
    forall x | first <= x < last ensures Covers(bs, x) && AtMostOnce(bs, x) { CellsAre(bs, x); }
    forall k | 0 <= k < |bs| && bs[k].start == bs[k].end ensures bs[k].start == last {
      if bs[k].start < last {
        assert Covers(bs, bs[k].start);
        var j :| 0 <= j < |bs| && bs[j].Has(bs[k].start);
        assert Overlap(bs[j], bs[k]) && Overlap(bs[k], bs[j]);
      }
    }
  }

  lemma TilesApart(bs: seq<Block>, first: nat, last: nat)
    requires first <= last
    requires forall k :: 0 <= k < |bs| ==> first <= bs[k].start <= bs[k].end <= last
    requires forall x :: first <= x < last ==> Covers(bs, x) && AtMostOnce(bs, x)
    requires EmptyOnlyAt(bs, last)
    ensures Apart(bs) && TotalSize(bs) == last - first
  {
    forall i, j | 0 <= i < j < |bs| ensures !Overlap(bs[i], bs[j]) {
      if bs[i].start < last { assert AtMostOnce(bs, bs[i].start); }
      if bs[j].start < last { assert AtMostOnce(bs, bs[j].start); }
    }
    CellsSize(bs);
    forall x ensures x in Cells(bs) <==> x in Span(first, last) { CellsAre(bs, x); }
    assert Cells(bs) == Span(first, last);
  }

  lemma TotalSizeConcat(bs: seq<Block>, cs: seq<Block>)
    ensures TotalSize(bs + cs) == TotalSize(bs) + TotalSize(cs)
  {
    if bs == [] { assert bs + cs == cs; } else { assert (bs + cs)[1..] == bs[1..] + cs; TotalSizeConcat(bs[1..], cs); }
  }

  /** A valid pool passes the validation; in particular free and occupied space always add up to the pool. */
  lemma ValidIsConsistent(p: Pool)
    requires Inv(p)
    ensures Consistent(p)
    ensures TotalSize(p.free) + TotalSize(p.occupied) == p.last - p.first
  {
    forall b <- p.occupied ensures p.first <= b.start < b.end <= p.last { BlockInside(p, p.occupied, b); }
    forall b <- p.free ensures p.first <= b.start < b.end <= p.last { BlockInside(p, p.free, b); }
    forall x | p.first <= x < p.last
      ensures Covers(p.occupied + p.free, x) && AtMostOnce(p.occupied + p.free, x)
    {
      OnceInEither(p, x);
    }
    ConsistentIffExactlyOnce(p);
  }

  lemma BlockInside(p: Pool, bs: seq<Block>, b: Block)
    requires b in bs && Sorted(bs) && forall x :: Covers(bs, x) ==> p.first <= x < p.last
    ensures p.first <= b.start < b.end <= p.last
  {
    var k :| 0 <= k < |bs| && bs[k] == b;
    assert b.Has(b.start) && b.Has(b.end - 1) && Covers(bs, b.start) && Covers(bs, b.end - 1);
  }

  lemma OnceInEither(p: Pool, x: int)
    requires Inv(p) && p.first <= x < p.last
    ensures Covers(p.occupied + p.free, x) && AtMostOnce(p.occupied + p.free, x)
  {
    var all, n := p.occupied + p.free, |p.occupied|;
    if Covers(p.occupied, x) {
      var k :| 0 <= k < n && p.occupied[k].Has(x);
      assert all[k].Has(x);
    } else {
      assert Covers(p.free, x);
      var k :| 0 <= k < |p.free| && p.free[k].Has(x);
      assert all[n + k].Has(x);
    }
    forall i, j | 0 <= i < j < |all| ensures !(all[i].Has(x) && all[j].Has(x)) {
      if i < n { assert all[i] == p.occupied[i]; } else { assert all[i] == p.free[i - n]; }
      if j < n { assert all[j] == p.occupied[j]; } else { assert all[j] == p.free[j - n]; }
    }
  }

  // ---------------------------------------------------------------- freeing a whole pool, in any order

  /** What freeing a whole block does to the gapless neighbours in the free list: between two free nodes it
      leaves one more, beside one free node as many, and away from all free nodes none at all. */
  lemma FreeSeams(p: Pool, b: Block)
    requires Inv(p) && b in p.occupied
    ensures var q := Freed(p, b.start, b.Size()).1;
      |Seams(q.free)| ==
        if EndsAt(p.free, b.start) && StartsAt(p.free, b.end) then |Seams(p.free)| + 1
        else if EndsAt(p.free, b.start) || StartsAt(p.free, b.end) then |Seams(p.free)|
        else 0
  {
    TargetOf(p, b);
    var k := FirstTouching(p.free, b.start, b.end);
    assert b.start + b.Size() == b.end;
    var q := Freed(p, b.start, b.Size()).1;
    if k == |p.free| {
      assert q.free == Coalesce(Insert(p.free, b));
      assert !EndsAt(p.free, b.start) && !StartsAt(p.free, b.end);
      InsertKeeps(p.free, b);
      CoalesceSeams(Insert(p.free, b));
    } else {
      assert q.free == p.free[k := Absorb(p.free[k], b.start, b.end)];
      OneSide(p.free, b);
      if p.free[k].end == b.start { AbsorbBelow(p.free, b, k); } else { AbsorbAbove(p.free, b, k); }
    }
  }

  lemma TargetOf(p: Pool, b: Block)
    requires Inv(p) && b in p.occupied
    ensures Found(p, b.start) && Target(p, b.start) == b && b.start < b.end
    ensures forall x :: b.Has(x) ==> !Covers(p.free, x)
    ensures Detached(p, FirstHolding(p.occupied, b.start), b.Size()).Room()
  {
    var k :| 0 <= k < |p.occupied| && p.occupied[k] == b;
    assert b.Has(b.start) && Covers(p.occupied, b.start);
    TargetIs(p, b.start);
    forall x | b.Has(x) ensures Covers(p.occupied, x) {}
  }

  /** Every block of a sorted list that misses b lies on one side of it. */
  lemma OneSide(bs: seq<Block>, b: Block)
    requires Sorted(bs) && b.start < b.end && forall x :: b.Has(x) ==> !Covers(bs, x)
    ensures forall j :: 0 <= j < |bs| ==> bs[j].end <= b.start || b.end <= bs[j].start
  {
    forall j | 0 <= j < |bs| ensures bs[j].end <= b.start || b.end <= bs[j].start {
      assert bs[j].Has(bs[j].start) && Covers(bs, bs[j].start);
      assert bs[j].Has(b.start) ==> Covers(bs, b.start);
    }
  }

  lemma AbsorbBelow(bs: seq<Block>, b: Block, k: nat)
    requires Sorted(bs) && b.start < b.end && forall x :: b.Has(x) ==> !Covers(bs, x)
    requires k < |bs| && bs[k].end == b.start
    ensures |Seams(bs[k := Block(bs[k].start, b.end)])| == |Seams(bs)| + if StartsAt(bs, b.end) then 1 else 0
  {
    OneSide(bs, b);
    if StartsAt(bs, b.end) {
      var j :| 0 <= j < |bs| && bs[j].start == b.end;
      assert forall i :: 0 <= i < k ==> bs[i].end <= bs[k].start;
      assert forall i :: k + 1 < i < |bs| ==> bs[k+1].end <= bs[i].start;
      assert j == k + 1;
      NewSeam(bs, b, k);
    } else {
      SameSeams(bs, b, k);
    }
  }

  /** Extending block k up to its successor makes one seam more. */
  lemma NewSeam(bs: seq<Block>, b: Block, k: nat)
    requires k + 1 < |bs| && bs[k].end == b.start < b.end == bs[k+1].start
    ensures |Seams(bs[k := Block(bs[k].start, b.end)])| == |Seams(bs)| + 1
  {
    var r := bs[k := Block(bs[k].start, b.end)];
    forall i | 0 < i < |bs| ensures SeamAt(r, i) <==> SeamAt(bs, i) || i == k + 1 {}
    assert !SeamAt(bs, k + 1);
    assert Seams(r) == Seams(bs) + {k + 1};
  }

  /** Extending block k to where no block starts makes none. */
  lemma SameSeams(bs: seq<Block>, b: Block, k: nat)
    requires k < |bs| && bs[k].end == b.start < b.end && !StartsAt(bs, b.end)
    requires k + 1 < |bs| ==> bs[k+1].start != b.start
    ensures Seams(bs[k := Block(bs[k].start, b.end)]) == Seams(bs)
  {
    var r := bs[k := Block(bs[k].start, b.end)];
    forall i | 0 < i < |bs| ensures SeamAt(r, i) <==> SeamAt(bs, i) {
      if i == k + 1 { assert bs[i].start != b.end; }
    }
  }

  lemma AbsorbAbove(bs: seq<Block>, b: Block, k: nat)
    requires Sorted(bs) && b.start < b.end && forall x :: b.Has(x) ==> !Covers(bs, x)
    requires k == FirstTouching(bs, b.start, b.end) < |bs|
    requires bs[k].end != b.start
    ensures !EndsAt(bs, b.start)
    ensures |Seams(bs[k := Block(b.start, bs[k].end)])| == |Seams(bs)|
  {
    OneSide(bs, b);
    var r := bs[k := Block(b.start, bs[k].end)];
    forall i | 0 < i < |bs| ensures SeamAt(r, i) <==> SeamAt(bs, i) {
      if i == k { assert bs[k-1].end != b.start && bs[k-1].end != b.end; }
    }
    assert Seams(r) == Seams(bs);
  }

  /** The pool after freeing the given blocks, in that order. */
  function FreeAll(p: Pool, order: seq<Block>): Pool {
    if order == [] then p
    else
      var q, b := FreeAll(p, order[..|order|-1]), order[|order|-1];
      if b.start <= b.end then Freed(q, b.start, b.end - b.start).1 else q
  }

  lemma CoversAppend(bs: seq<Block>, b: Block, x: int)
    ensures Covers(bs + [b], x) <==> Covers(bs, x) || b.Has(x)
  {
    var r := bs + [b];
    assert r[|bs|] == b;
    if Covers(bs, x) {
      var j :| 0 <= j < |bs| && bs[j].Has(x);
      assert r[j].Has(x);
    }
  }

  lemma FreeAllLast(p: Pool, rest: seq<Block>, b: Block)
    requires b.start <= b.end
    ensures FreeAll(p, rest + [b]) == Freed(FreeAll(p, rest), b.start, b.Size()).1
  {
    var order := rest + [b];
    assert order[..|order|-1] == rest;
  }

  /** Freeing distinct whole blocks keeps the pool valid and moves exactly their addresses. */
  lemma {:induction false} FreeAllMoves(p: Pool, order: seq<Block>)
    requires Inv(p) && Distinct(order) && forall b <- order :: b in p.occupied
    ensures var q := FreeAll(p, order);
      && Inv(q) && q.first == p.first && q.last == p.last
      && (forall b :: b in q.occupied <==> b in p.occupied && b !in order)
      && |q.occupied| == |p.occupied| - |order|
      && (forall x :: Covers(q.free, x) <==> Covers(p.free, x) || Covers(order, x))
    decreases |order|
  {
    if order != [] {
      var rest, b := order[..|order|-1], order[|order|-1];
      assert order == rest + [b];
      DropLast(order, rest, b);
      FreeAllMoves(p, rest);
      FreeOneMore(FreeAll(p, rest), b);
      FreeAllLast(p, rest, b);
      forall x ensures Covers(order, x) <==> Covers(rest, x) || b.Has(x) { CoversAppend(rest, b, x); }
      assert forall c :: c in order <==> c in rest || c == b;
    }
  }

  lemma FreeOneMore(p: Pool, b: Block)
    requires Inv(p) && b in p.occupied
    ensures b.start < b.end
    ensures var q := Freed(p, b.start, b.Size()).1;
      && Inv(q) && q.first == p.first && q.last == p.last
      && (forall c :: c in q.occupied <==> c in p.occupied && c != b)
      && |q.occupied| == |p.occupied| - 1
      && (forall x :: Covers(q.free, x) <==> Covers(p.free, x) || b.Has(x))
  {
    TargetOf(p, b);
    FreeMoves(p, b.start, b.Size());
    WholeRemoved(p, b);
  }

  /** Freeing a whole block removes that block, and no other, from the occupied list. */
  lemma WholeRemoved(p: Pool, b: Block)
    requires Inv(p) && b in p.occupied
    ensures b.start < b.end
    ensures var q := Freed(p, b.start, b.Size()).1;
      |q.occupied| == |p.occupied| - 1 && forall c :: c in q.occupied <==> c in p.occupied && c != b
  {
    var k :| 0 <= k < |p.occupied| && p.occupied[k] == b;
    FreeWhole(p, k);
    SortedIsDistinct(p.occupied);
    RemoveDistinct(p.occupied, k);
  }

  lemma SortedIsDistinct(bs: seq<Block>)
    requires Sorted(bs)
    ensures Distinct(bs)
  {
  }

  // The order in which blocks are freed, seen from the free nodes before the first call.

  /** Block number i of the order is freed when both of its neighbours are free. */
  ghost predicate Bridges(free: seq<Block>, order: seq<Block>, i: nat)
    requires i < |order|
  {
    var gone := free + order[..i];
    EndsAt(gone, order[i].start) && StartsAt(gone, order[i].end)
  }

  /** Block number i of the order is freed when neither of its neighbours is free. */
  ghost predicate Isolated(free: seq<Block>, order: seq<Block>, i: nat)
    requires i < |order|
  {
    var gone := free + order[..i];
    !EndsAt(gone, order[i].start) && !StartsAt(gone, order[i].end)
  }

  /** Some block is freed after both of its neighbours, and none after it is freed before both of its own. */
  ghost predicate BridgedLast(free: seq<Block>, order: seq<Block>) {
    exists i :: 0 <= i < |order| && Bridges(free, order, i) && forall j :: i < j < |order| ==> !Isolated(free, order, j)
  }

  lemma BridgedLastStep(free: seq<Block>, rest: seq<Block>, b: Block)
    ensures var order, n := rest + [b], |rest|;
      BridgedLast(free, order) <==> Bridges(free, order, n) || (BridgedLast(free, rest) && !Isolated(free, order, n))
  {
    var order, n := rest + [b], |rest|;
    forall i | 0 <= i < n
      ensures Bridges(free, order, i) <==> Bridges(free, rest, i)
      ensures Isolated(free, order, i) <==> Isolated(free, rest, i)
    {
      assert order[..i] == rest[..i] && order[i] == rest[i];
    }
  }

  /** For non-empty blocks that leave x uncovered, one ends at x iff the address below x is covered. */
  lemma EndsIffCovered(bs: seq<Block>, x: nat)
    requires (forall k :: 0 <= k < |bs| ==> bs[k].start < bs[k].end) && !Covers(bs, x)
    ensures EndsAt(bs, x) <==> Covers(bs, x - 1)
  {
    forall k | 0 <= k < |bs| ensures bs[k].end == x <==> bs[k].Has(x - 1) { assert !bs[k].Has(x); }
  }

  lemma StartsIffCovered(bs: seq<Block>, x: nat)
    requires (forall k :: 0 <= k < |bs| ==> bs[k].start < bs[k].end) && !Covers(bs, x - 1)
    ensures StartsAt(bs, x) <==> Covers(bs, x)
  {
    forall k | 0 <= k < |bs| ensures bs[k].start == x <==> bs[k].Has(x) { assert !bs[k].Has(x - 1); }
  }

  lemma CoversConcat(bs: seq<Block>, cs: seq<Block>, x: int)
    ensures Covers(bs + cs, x) <==> Covers(bs, x) || Covers(cs, x)
  {
    if k :| 0 <= k < |bs| && bs[k].Has(x) { assert (bs + cs)[k].Has(x); }
    if k :| 0 <= k < |cs| && cs[k].Has(x) { assert (bs + cs)[|bs| + k].Has(x); }
  }

  /** A block that is still occupied has the same neighbours in the free list as among the nodes that were free at
      first and the blocks freed since. */
  lemma NeighboursKept(p: Pool, order: seq<Block>, b: Block)
    requires Inv(p) && Distinct(order) && (forall c <- order :: c in p.occupied) && b in p.occupied && b !in order
    ensures var q, gone := FreeAll(p, order), p.free + order;
      && (EndsAt(q.free, b.start) <==> EndsAt(gone, b.start))
      && (StartsAt(q.free, b.end) <==> StartsAt(gone, b.end))
  {
    var q, gone := FreeAll(p, order), p.free + order;
    FreeAllMoves(p, order);
    TargetOf(q, b);
    assert b.Has(b.start) && b.Has(b.end - 1);
    forall x ensures Covers(q.free, x) <==> Covers(gone, x) { CoversConcat(p.free, order, x); }
    NonEmpty(p, order);
    EndsIffCovered(q.free, b.start);
    EndsIffCovered(gone, b.start);
    StartsIffCovered(q.free, b.end);
    StartsIffCovered(gone, b.end);
  }

  lemma NonEmpty(p: Pool, order: seq<Block>)
    requires Sorted(p.free) && Sorted(p.occupied) && forall c <- order :: c in p.occupied
    ensures var gone := p.free + order; forall k :: 0 <= k < |gone| ==> gone[k].start < gone[k].end
  {
    forall k | 0 <= k < |order| ensures order[k].start < order[k].end { assert order[k] in order; }
  }

  lemma FreeAllStep(p: Pool, rest: seq<Block>, b: Block)
    requires Inv(p) && Distinct(rest + [b]) && forall c <- rest + [b] :: c in p.occupied
    ensures Inv(FreeAll(p, rest)) && b in FreeAll(p, rest).occupied && b.start < b.end
    ensures FreeAll(p, rest + [b]) == Freed(FreeAll(p, rest), b.start, b.Size()).1
  {
    DropLast(rest + [b], rest, b);
    assert forall c <- rest :: c in rest + [b];
    FreeAllMoves(p, rest);
    NotEmpty(p, b);
    FreeAllLast(p, rest, b);
  }

  lemma NotEmpty(p: Pool, b: Block)
    requires Inv(p) && b in p.occupied
    ensures b.start < b.end
  {
  }

  /** Gapless neighbours remain iff the order bridges a gap and nothing later makes the list coalesce. */
  lemma {:induction false} SeamsRemainIff(p: Pool, order: seq<Block>)
    requires Inv(p) && Seams(p.free) == {}
    requires Distinct(order) && forall b <- order :: b in p.occupied
    ensures Seams(FreeAll(p, order).free) != {} <==> BridgedLast(p.free, order)
    decreases |order|
  {
    if order != [] {
      var n := |order| - 1;
      var rest, b := order[..n], order[n];
      assert order == rest + [b];
      DropLast(order, rest, b);
      SeamsRemainIff(p, rest);
      FreeAllStep(p, rest, b);
      FreeSeams(FreeAll(p, rest), b);
      NeighboursKept(p, rest, b);
      BridgedLastStep(p.free, rest, b);
    }
  }

  /** A sorted list that covers exactly [first, last) starts at first, ends at last and has no holes. */
  lemma CoverEnds(bs: seq<Block>, first: nat, last: nat)
    requires Sorted(bs) && first < last && forall x :: Covers(bs, x) <==> first <= x < last
    ensures bs != [] && bs[0].start == first && bs[|bs|-1].end == last
    ensures |bs| > 1 ==> SeamAt(bs, 1)
  {
    var z := |bs| - 1;
    assert Covers(bs, first) && Covers(bs, last - 1);
    assert bs[0].Has(bs[0].start) && Covers(bs, bs[0].start);
    assert bs[z].Has(bs[z].end - 1) && Covers(bs, bs[z].end - 1);
    if |bs| > 1 {
      NextStarts(bs, first, last, 0);
    }
  }

  /** In a sorted list without holes, each block starts where its predecessor ends. */
  lemma NextStarts(bs: seq<Block>, first: nat, last: nat, k: nat)
    requires Sorted(bs) && k + 1 < |bs| && forall x :: Covers(bs, x) <==> first <= x < last
    ensures bs[k].end == bs[k+1].start
  {
    var x := bs[k].end;
    assert bs[k].Has(x - 1) && Covers(bs, x - 1);
    assert bs[k+1].Has(bs[k+1].start) && Covers(bs, bs[k+1].start);
    assert Covers(bs, x);
    assert forall i :: 0 <= i < |bs| && i != k + 1 ==> !bs[i].Has(x) || bs[k+1].start == x by {
      assert forall i :: 0 <= i < k ==> bs[i].end <= bs[k].start;
      assert forall i :: k + 1 < i < |bs| ==> bs[k+1].end <= bs[i].start;
    }
  }

  /** A valid pool without occupied blocks is one free block, or has gapless neighbours. */
  lemma EmptyPool(p: Pool)
    requires Inv(p) && p.occupied == []
    ensures p.free == [Block(p.first, p.last)] <==> Seams(p.free) == {}
    ensures Allocated(p, p.last - p.first).0 == if Seams(p.free) == {} then p.first else 0
  {
    var bs := p.free;
    assert forall x :: Covers(bs, x) <==> p.first <= x < p.last;
    CoverEnds(bs, p.first, p.last);
    if |bs| > 1 {
      assert 1 in Seams(bs);
      SplitIsTooSmall(bs, p.first, p.last);
    } else {
      FirstIs(bs, (b: Block) => b.Size() >= p.last - p.first, 0);
    }
  }

  /** No block of a list of several is as long as all of them. */
  lemma SplitIsTooSmall(bs: seq<Block>, first: nat, last: nat)
    requires Sorted(bs) && |bs| > 1 && bs[0].start == first && bs[|bs|-1].end == last
    ensures first < last && FirstFit(bs, last - first) == |bs|
  {
    var z := |bs| - 1;
    assert bs[0].end <= bs[z].start;
    forall j | 0 <= j < |bs| ensures bs[j].Size() < last - first {
      assert j > 0 ==> bs[0].end <= bs[j].start;
      assert j < z ==> bs[j].end <= bs[z].start;
    }
    FirstIs(bs, (b: Block) => b.Size() >= last - first, |bs|);
  }

  /** Freeing every block of a fully allocated pool leaves one free block covering it, from which the whole pool
      can be allocated at once, iff no block is freed after both of its neighbours unless some later one is freed
      before both of its own. */
  lemma FreeingEverythingIff(p: Pool, order: seq<Block>)
    requires Inv(p) && p.free == []
    requires Distinct(order) && forall b :: b in order <==> b in p.occupied
    ensures var q := FreeAll(p, order);
      && q.occupied == []
      && (q.free == [Block(p.first, p.last)] <==> !BridgedLast([], order))
      && Allocated(q, p.last - p.first).0 == if BridgedLast([], order) then 0 else p.first
  {
    AllFreed(p, order);
    SeamsRemainIff(p, order);
    EmptyPool(FreeAll(p, order));
  }

  lemma AllFreed(p: Pool, order: seq<Block>)
    requires Inv(p) && Distinct(order) && forall b :: b in order <==> b in p.occupied
    ensures var q := FreeAll(p, order); Inv(q) && q.first == p.first && q.last == p.last && q.occupied == []
  {
    FreeAllMoves(p, order);
    EmptyIff(FreeAll(p, order).occupied);
  }

  lemma EmptyIff<T>(s: seq<T>)
    ensures s == [] <==> forall x :: x !in s
  {
    if s != [] { assert s[0] in s; }
  }

  /** Ascending address order never frees a block after the one above it. */
  lemma AscendingOrder(p: Pool)
    requires Inv(p) && p.free == []
    ensures Distinct(p.occupied) && !BridgedLast([], p.occupied)
    ensures FreeAll(p, p.occupied).free == [Block(p.first, p.last)]
  {
    var order := p.occupied;
    forall i | 0 <= i < |order| ensures !StartsAt([] + order[..i], order[i].end) {
      assert forall j :: 0 <= j < i ==> order[j].start < order[j].end <= order[i].start;
    }
    FreeingEverythingIff(p, order);
  }

  function Reverse(bs: seq<Block>): (r: seq<Block>)
    ensures |r| == |bs| && forall k :: 0 <= k < |bs| ==> r[k] == bs[|bs| - 1 - k]
  {
    seq(|bs|, k requires 0 <= k < |bs| => bs[|bs| - 1 - k])
  }

  /** Descending order never frees a block after the one below it. */
  lemma DescendingOrder(p: Pool)
    requires Inv(p) && p.free == []
    ensures !BridgedLast([], Reverse(p.occupied))
    ensures FreeAll(p, Reverse(p.occupied)).free == [Block(p.first, p.last)]
  {
    var order, n := Reverse(p.occupied), |p.occupied|;
    ReverseDistinct(p.occupied);
    forall i | 0 <= i < n ensures !EndsAt([] + order[..i], order[i].start) {
      forall j | 0 <= j < i ensures order[j].end > order[i].start {
        assert p.occupied[n - 1 - i].end <= p.occupied[n - 1 - j].start;
      }
    }
    FreeingEverythingIff(p, order);
  }

  lemma ReverseDistinct(bs: seq<Block>)
    requires Sorted(bs)
    ensures Distinct(Reverse(bs)) && forall b :: b in Reverse(bs) <==> b in bs
  {
    var r, n := Reverse(bs), |bs|;
    forall b <- bs ensures b in r {
      var k :| 0 <= k < n && bs[k] == b;
      assert r[n - 1 - k] == b;
    }
  }

  /** However many blocks a fully allocated pool is cut into: if the block that is freed last touches neither end of
      the pool, the whole pool cannot be allocated again. */
  lemma InnerBlockLast(p: Pool, order: seq<Block>)
    requires Inv(p) && p.free == []
    requires Distinct(order) && (forall b :: b in order <==> b in p.occupied) && order != []
    requires order[|order|-1].start != p.first && order[|order|-1].end != p.last
    ensures FreeAll(p, order).free != [Block(p.first, p.last)]
    ensures Allocated(FreeAll(p, order), p.last - p.first).0 == 0
  {
    var n := |order| - 1;
    var rest, b := order[..n], order[n];
    assert order == rest + [b];
    DropLast(order, rest, b);
    OthersCover(p, rest, b);
    assert Bridges([], order, n) by { assert [] + order[..n] == rest; }
    FreeingEverythingIff(p, order);
  }

  /** An inner block of a fully allocated pool has a neighbour on either side. */
  lemma OthersCover(p: Pool, rest: seq<Block>, b: Block)
    requires Inv(p) && p.free == [] && b in p.occupied && b.start != p.first && b.end != p.last
    requires forall c :: c in rest <==> c in p.occupied && c != b
    ensures EndsAt(rest, b.start) && StartsAt(rest, b.end)
  {
    var bs := p.occupied;
    var i :| 0 <= i < |bs| && bs[i] == b;
    assert forall x :: Covers(bs, x) <==> p.first <= x < p.last;
    CoverEnds(bs, p.first, p.last);
    NextStarts(bs, p.first, p.last, i - 1);
    NextStarts(bs, p.first, p.last, i);
    assert bs[i-1] in rest && bs[i+1] in rest;
  }

  // ---------------------------------------------------------------- every fully allocated pool is reached

  /** The call that allocates as many addresses as a block holds. */
  function AllocationOf(b: Block): Call { Allocate(if b.start <= b.end then b.end - b.start else 0) }

  function Allocations(bs: seq<Block>): seq<Call> { seq(|bs|, i requires 0 <= i < |bs| => AllocationOf(bs[i])) }

  lemma {:induction false} RunAppend(p: Pool, calls: seq<Call>, c: Call)
    ensures Run(p, calls + [c]) == After(Run(p, calls), c)
    decreases |calls|
  {
    if calls == [] {
      assert calls + [c] == [c] && [c][1..] == [];
    } else {
      assert (calls + [c])[1..] == calls[1..] + [c];
      RunAppend(After(p, calls[0]), calls[1..], c);
    }
  }

  /** The pool of p before the blocks from number k on are allocated. */
  function CutUpTo(p: Pool, k: nat): Pool
    requires k <= |p.occupied|
  {
    p.(free := if k == |p.occupied| then [] else [Block(p.occupied[k].start, p.last)], occupied := p.occupied[..k])
  }

  /** Every valid pool that is fully allocated is reached by allocating its blocks in address order. */
  lemma FullyAllocatedIsReached(p: Pool)
    requires Inv(p) && p.free == []
    ensures Run(Fresh(p.first, p.last, p.slots), Allocations(p.occupied)) == p
  {
    var bs, calls := p.occupied, Allocations(p.occupied);
    assert forall x :: Covers(bs, x) <==> p.first <= x < p.last;
    CoverEnds(bs, p.first, p.last);
    assert bs[..|bs|] == bs && calls[..|bs|] == calls && CutUpTo(p, 0) == Fresh(p.first, p.last, p.slots);
    CutUp(p, Fresh(p.first, p.last, p.slots), calls, |bs|);
  }

  lemma {:induction false} CutUp(p: Pool, whole: Pool, calls: seq<Call>, k: nat)
    requires FullyCut(p) && whole == CutUpTo(p, 0) && calls == Allocations(p.occupied) && k <= |p.occupied|
    ensures Run(whole, calls[..k]) == CutUpTo(p, k)
    decreases k
  {
    if k > 0 {
      CutUp(p, whole, calls, k - 1);
      CutStep(p, k - 1);
      RunAppend(whole, calls[..k-1], calls[k-1]);
      assert calls[..k] == calls[..k-1] + [calls[k-1]];
    }
  }

  /** The occupied blocks of p are in order and cover the pool. */
  ghost predicate FullyCut(p: Pool) {
    && 0 < p.first < p.last && Sorted(p.occupied) && |p.occupied| <= p.slots
    && forall x :: Covers(p.occupied, x) <==> p.first <= x < p.last
  }

  lemma CutStep(p: Pool, k: nat)
    requires FullyCut(p) && k < |p.occupied|
    ensures After(CutUpTo(p, k), AllocationOf(p.occupied[k])) == CutUpTo(p, k + 1)
  {
    var bs, b := p.occupied, p.occupied[k];
    CutFacts(p, k);
    assert bs[..k+1] == bs[..k] + [b];
    TakeFront(CutUpTo(p, k), bs[..k], b.start, b.end, p.last);
  }

  lemma CutFacts(p: Pool, k: nat)
    requires FullyCut(p) && k < |p.occupied|
    ensures var bs, b := p.occupied, p.occupied[k];
      && p.first <= b.start < b.end <= p.last
      && (b.end == p.last <==> k + 1 == |bs|)
      && (k + 1 < |bs| ==> bs[k+1].start == b.end)
      && forall c <- bs[..k] :: c.start <= b.start
  {
    var bs := p.occupied;
    CoverEnds(bs, p.first, p.last);
    if k + 1 < |bs| {
      NextStarts(bs, p.first, p.last, k);
      assert bs[k].end <= bs[|bs|-1].start;
    }
    assert k > 0 ==> bs[0].end <= bs[k].start;
    forall c <- bs[..k] ensures c.start <= bs[k].start {
      var j :| 0 <= j < k && bs[j] == c;
    }
  }

  /** Allocating from the only free node, above all occupied blocks. */
  lemma TakeFront(p: Pool, below: seq<Block>, start: nat, end: nat, last: nat)
    requires 0 < start < end <= last && p.free == [Block(start, last)] && p.occupied == below
    requires end < last ==> p.Room()
    requires forall b <- below :: b.start <= start
    ensures Allocated(p, end - start) ==
      (start, p.(free := if end == last then [] else [Block(end, last)], occupied := below + [Block(start, end)]))
  {
    var taken := Block(start, end);
    AllocatedAt(p, end - start, 0);
    FirstIs(below, (b: Block) => b.start > start, |below|);
    assert Insert(below, taken) == below + [taken];
    assert CutFront(p.free, 0, end - start) == if end == last then [] else [Block(end, last)];
  }

  // ---------------------------------------------------------------- states in which the promises fail

  /** A pool that is allocated as a single block. */
  ghost predicate OneBlock(p: Pool, b: Block) {
    0 < p.first < p.last && p.slots >= 1 && b == Block(p.first, p.last) && p.free == [] && p.occupied == [b]
  }

  /** Such a pool is valid, and allocating all of a new pool leads to it. */
  lemma OneBlockIsReached(p: Pool, b: Block)
    requires OneBlock(p, b)
    ensures Inv(p) && Run(Fresh(p.first, p.last, p.slots), Allocations(p.occupied)) == p
  {
    forall x ensures Covers(p.occupied, x) <==> p.first <= x < p.last {
      assert p.first <= x < p.last ==> p.occupied[0].Has(x);
    }
    FullyAllocatedIsReached(p);
  }

  /** What Free does to part of the only block of a fully allocated pool. */
  lemma FreeOfOne(p: Pool, b: Block, start: nat, size: nat)
    requires p.free == [] && p.occupied == [b] && b.Has(start) && size < b.Size()
    ensures var cut := p.(occupied := [Block(b.start + size, b.end)]);
      Freed(p, start, size) == if p.slots > 1 then (0, cut.(free := [Block(start, start + size)])) else (-1, cut)
  {
    FirstIs(p.occupied, (c: Block) => Holds(c, start), 0);
    var cut, r := Detached(p, 0, size), Block(start, start + size);
    assert cut == p.(occupied := [Block(b.start + size, b.end)]);
    assert FirstTouching(cut.free, start, start + size) == 0;
    assert Insert(cut.free, r) == [r] && Coalesce([r]) == [r];
  }

  /** With a single slot, freeing a proper prefix of that block is refused after the block has been cut. */
  lemma PrefixFreeBreaks(p: Pool, b: Block, size: nat)
    requires OneBlock(p, b) && p.slots == 1 && 0 < size < b.Size()
    ensures Freed(p, b.start, size) == (-1, p.(occupied := [Block(b.start + size, b.end)]))
    ensures !Inv(Freed(p, b.start, size).1)
  {
    FreeOfOne(p, b, b.start, size);
    MissesAddress(Freed(p, b.start, size).1, b.start);
  }

  /** Freeing a region inside that block frees it, but cuts as many addresses off the front. */
  lemma InnerFreeBreaks(p: Pool, b: Block, start: nat, size: nat)
    requires OneBlock(p, b) && p.slots > 1 && b.start < start < b.end && 0 < size < b.Size()
    ensures Freed(p, start, size) ==
      (0, p.(free := [Block(start, start + size)], occupied := [Block(b.start + size, b.end)]))
    ensures !Inv(Freed(p, start, size).1)
  {
    FreeOfOne(p, b, start, size);
    MissesAddress(Freed(p, start, size).1, b.start);
  }

  lemma MissesAddress(p: Pool, x: nat)
    requires p.first <= x < p.last
    requires (forall b <- p.free :: !b.Has(x)) && (forall b <- p.occupied :: !b.Has(x))
    ensures !Inv(p)
  {
    assert !Covers(p.free, x) && !Covers(p.occupied, x);
  }

  /** A pool cut into three blocks is valid and reached by three allocations; freed outside in, it cannot be allocated
      as a whole again. */
  lemma OutsideInFails(p: Pool, x: nat, y: nat, order: seq<Block>)
    requires 0 < p.first < x < y < p.last && p.slots >= 3 && p.free == []
    requires p.occupied == [Block(p.first, x), Block(x, y), Block(y, p.last)]
    requires order == [p.occupied[0], p.occupied[2], p.occupied[1]]
    ensures Inv(p) && Run(Fresh(p.first, p.last, p.slots), Allocations(p.occupied)) == p
    ensures FreeAll(p, order).free != [Block(p.first, p.last)]
    ensures Allocated(FreeAll(p, order), p.last - p.first).0 == 0
  {
    var bs := p.occupied;
    forall z ensures Covers(bs, z) <==> p.first <= z < p.last {
      assert p.first <= z < p.last ==> bs[0].Has(z) || bs[1].Has(z) || bs[2].Has(z);
    }
    FullyAllocatedIsReached(p);
    InnerBlockLast(p, order);
  }

  /** Freeing nothing at all inserts an empty node when a slot is left. */
  lemma EmptyFreeBreaks(p: Pool, b: Block, start: nat)
    requires OneBlock(p, b) && p.slots > 1 && b.Has(start)
    ensures Freed(p, start, 0) == (0, p.(free := [Block(start, start)]))
    ensures !Inv(Freed(p, start, 0).1)
  {
    FreeOfOne(p, b, start, 0);
    assert Freed(p, start, 0).1.free[0] == Block(start, start);
  }
}
