/** What first-fit allocation keeps, restores and guarantees, over every pool and every run. */
module PoolLaws {
  import opened Blocks
  import opened Sets

  ghost predicate Covers(bs: seq<Block>, x: int) { exists k :: 0 <= k < |bs| && bs[k].Has(x) }

  /** Non-empty blocks in address order, none overlapping the next. */
  ghost predicate Sorted(bs: seq<Block>) {
    && (forall k :: 0 <= k < |bs| ==> bs[k].start < bs[k].end)
    && (forall i, j :: 0 <= i < j < |bs| ==> bs[i].end <= bs[j].start)
  }

  /** The two lists partition the pool, except that they leave out the addresses of gap. */
  ghost predicate InvBut(p: Pool, gap: Block) {
    && 0 < p.first < p.last
    && Sorted(p.free) && Sorted(p.occupied)
    && |p.free| + |p.occupied| <= p.slots
    && (forall x :: Covers(p.free, x) || Covers(p.occupied, x) <==> p.first <= x < p.last && !gap.Has(x))
    && (forall x :: !(Covers(p.free, x) && Covers(p.occupied, x)))
  }

  /** The representation invariant: the two lists partition the pool. */
  ghost predicate Inv(p: Pool) { InvBut(p, Block(0, 0)) }

  /** cs covers what bs covers and b as well. */
  ghost predicate Adds(bs: seq<Block>, cs: seq<Block>, b: Block) {
    forall x :: Covers(cs, x) <==> Covers(bs, x) || b.Has(x)
  }

  /** cs covers what bs covers, less b. */
  ghost predicate Takes(bs: seq<Block>, cs: seq<Block>, b: Block) {
    forall x :: Covers(cs, x) <==> Covers(bs, x) && !b.Has(x)
  }

  // ---------------------------------------------------------------- editing a sorted list

  lemma InsertKeeps(bs: seq<Block>, b: Block)
    requires Sorted(bs) && b.start < b.end
    requires forall x :: b.Has(x) ==> !Covers(bs, x)
    ensures Sorted(Insert(bs, b)) && Adds(bs, Insert(bs, b), b)
  {
    var k, r := FirstAfter(bs, b.start), Insert(bs, b);
    forall j | 0 <= j < |bs| ensures if j < k then bs[j].end <= b.start else b.end <= bs[j].start {
      assert b.Has(b.start) && (bs[j].Has(b.start) ==> Covers(bs, b.start));
      assert bs[j].Has(bs[j].start) && Covers(bs, bs[j].start);
      if j < k { assert !(bs[j].start > b.start); } else { assert bs[k].start > b.start; }
    }
    assert forall j :: 0 <= j < |r| ==> r[j] == if j < k then bs[j] else if j == k then b else bs[j-1];
    InsertAdds(bs, k, b);
  }

  lemma InsertAdds(bs: seq<Block>, k: nat, b: Block)
    requires k <= |bs|
    ensures Adds(bs, InsertAt(bs, k, b), b)
  {
    var r := InsertAt(bs, k, b);
    forall x ensures Covers(r, x) <==> Covers(bs, x) || b.Has(x) {
      if b.Has(x) { assert r[k].Has(x); }
      if j :| 0 <= j < |bs| && bs[j].Has(x) { assert r[if j < k then j else j + 1].Has(x); }
      if j :| 0 <= j < |r| && r[j].Has(x) && j != k { assert bs[if j < k then j else j - 1].Has(x); }
    }
  }

  lemma RemoveKeeps(bs: seq<Block>, k: nat)
    requires Sorted(bs) && k < |bs|
    ensures Sorted(Remove(bs, k)) && Takes(bs, Remove(bs, k), bs[k])
  {
    var r := Remove(bs, k);
    assert forall j :: 0 <= j < |r| ==> r[j] == bs[if j < k then j else j + 1];
    forall x ensures Covers(r, x) <==> Covers(bs, x) && !bs[k].Has(x) {
      if j :| 0 <= j < |bs| && j != k && bs[j].Has(x) { assert r[if j < k then j else j - 1].Has(x); }
    }
  }

  lemma CutFrontKeeps(bs: seq<Block>, k: nat, size: nat)
    requires Sorted(bs) && k < |bs| && 0 <= size <= bs[k].Size()
    ensures Sorted(CutFront(bs, k, size))
    ensures Takes(bs, CutFront(bs, k, size), Block(bs[k].start, bs[k].start + size))
    ensures forall x :: bs[k].start <= x < bs[k].start + size ==> Covers(bs, x)
  {
    var r, cut := CutFront(bs, k, size), Block(bs[k].start, bs[k].start + size);
    assert forall x :: cut.Has(x) ==> bs[k].Has(x);
    if bs[k].Size() == size {
      assert cut == bs[k];
      RemoveKeeps(bs, k);
    } else {
      forall x ensures Covers(r, x) <==> Covers(bs, x) && !cut.Has(x) {
        if j :| 0 <= j < |bs| && bs[j].Has(x) { assert j != k ==> r[j].Has(x); }
        if bs[k].Has(x) && !cut.Has(x) { assert r[k].Has(x); }
      }
    }
  }

  lemma AbsorbKeeps(bs: seq<Block>, k: nat, start: nat, end: nat)
    requires Sorted(bs) && k < |bs| && start <= end && Touches(bs[k], start, end)
    requires forall x :: start <= x < end ==> !Covers(bs, x)
    ensures Sorted(bs[k := Absorb(bs[k], start, end)])
    ensures Adds(bs, bs[k := Absorb(bs[k], start, end)], Block(start, end))
  {
    var b, r := Absorb(bs[k], start, end), bs[k := Absorb(bs[k], start, end)];
    forall j | 0 <= j < |bs| && j != k ensures if j < k then bs[j].end <= b.start else b.end <= bs[j].start {
      assert bs[j].Has(bs[j].start) && Covers(bs, bs[j].start);
      assert bs[j].Has(start) ==> Covers(bs, start);
      assert bs[j].Has(bs[j].end - 1) && Covers(bs, bs[j].end - 1);
    }
    forall x ensures Covers(r, x) <==> Covers(bs, x) || start <= x < end {
      if j :| 0 <= j < |bs| && bs[j].Has(x) { assert r[j].Has(x); }
      if start <= x < end { assert r[k].Has(x); }
    }
  }

  lemma CoversCons(b: Block, bs: seq<Block>, x: int)
    ensures Covers([b] + bs, x) <==> b.Has(x) || Covers(bs, x)
  {
    assert ([b] + bs)[0] == b;
    if k :| 0 <= k < |bs| && bs[k].Has(x) { assert ([b] + bs)[k+1].Has(x); }
    if k :| 0 <= k < |[b] + bs| && ([b] + bs)[k].Has(x) && k > 0 { assert bs[k-1].Has(x); }
  }

  /** Coalescing keeps the covered addresses, even of a list that is not sorted. */
  lemma {:induction false} CoalesceCovers(bs: seq<Block>, x: int)
    requires forall k :: 0 <= k < |bs| ==> bs[k].start <= bs[k].end
    ensures Covers(Coalesce(bs), x) <==> Covers(bs, x)
    decreases |bs|
  {
    if |bs| < 2 {
    } else if bs[0].end == bs[1].start {
      CoalesceCovers([Block(bs[0].start, bs[1].end)] + bs[2..], x);
      CoversCons(Block(bs[0].start, bs[1].end), bs[2..], x);
      CoversCons(bs[0], bs[1..], x);
      CoversCons(bs[1], bs[2..], x);
      assert bs == [bs[0]] + bs[1..] && bs[1..] == [bs[1]] + bs[2..];
    } else {
      CoalesceCovers(bs[1..], x);
      CoversCons(bs[0], Coalesce(bs[1..]), x);
      CoversCons(bs[0], bs[1..], x);
      assert bs == [bs[0]] + bs[1..];
    }
  }

  lemma SortedCons(b: Block, bs: seq<Block>)
    requires Sorted(bs) && b.start < b.end && (bs != [] ==> b.end <= bs[0].start)
    ensures Sorted([b] + bs)
  {
    assert forall j :: 0 < j < |bs| ==> bs[0].start < bs[0].end <= bs[j].start;
  }

  /** Coalescing keeps the order, and never needs more slots. */
  lemma {:induction false} CoalesceKeeps(bs: seq<Block>)
    requires Sorted(bs)
    ensures Sorted(Coalesce(bs)) && |Coalesce(bs)| <= |bs|
    ensures bs != [] ==> Coalesce(bs) != [] && Coalesce(bs)[0].start == bs[0].start
    decreases |bs|
  {
    if |bs| < 2 {
    } else if bs[0].end == bs[1].start {
      var r := [Block(bs[0].start, bs[1].end)] + bs[2..];
      assert forall j :: 0 < j < |r| ==> r[j] == bs[j+1];
      CoalesceKeeps(r);
    } else {
      CoalesceKeeps(bs[1..]);
      SortedCons(bs[0], Coalesce(bs[1..]));
    }
  }

  /** A block that touches neither neighbour survives coalescing. */
  lemma {:induction false} CoalesceIsolated(bs: seq<Block>, k: nat)
    requires k < |bs|
    requires k > 0 ==> bs[k-1].end != bs[k].start
    requires k + 1 < |bs| ==> bs[k].end != bs[k+1].start
    ensures bs[k] in Coalesce(bs)
    decreases |bs|
  {
    if |bs| < 2 {
    } else if bs[0].end == bs[1].start {
      CoalesceIsolated([Block(bs[0].start, bs[1].end)] + bs[2..], k - 1);
    } else if k > 0 {
      CoalesceIsolated(bs[1..], k - 1);
    }
  }

  /** The positions of the blocks that follow their predecessor without a gap. */
  ghost function Seams(bs: seq<Block>): set<int> { set k | 0 < k < |bs| && SeamAt(bs, k) }

  ghost predicate SeamAt(bs: seq<Block>, k: int)
    requires 0 < k < |bs|
  { bs[k-1].end == bs[k].start }

  lemma SeamsCons(b: Block, bs: seq<Block>)
    ensures Seams([b] + bs) == {} <==> Seams(bs) == {} && (bs != [] ==> b.end != bs[0].start)
  {
    var r := [b] + bs;
    assert forall k :: 0 < k < |bs| ==> (SeamAt(bs, k) <==> SeamAt(r, k + 1));
    assert bs != [] ==> (SeamAt(r, 1) <==> b.end == bs[0].start);
    if k :| k in Seams(bs) { assert k + 1 in Seams(r); }
    if k :| k in Seams(r) { assert k > 1 ==> SeamAt(bs, k - 1) && k - 1 in Seams(bs); }
    if bs != [] && b.end == bs[0].start { assert 1 in Seams(r); }
  }

  /** Coalescing leaves no seam, and changes nothing when there is none. */
  lemma {:induction false} CoalesceSeams(bs: seq<Block>)
    requires Sorted(bs)
    ensures Seams(Coalesce(bs)) == {}
    ensures Seams(bs) == {} ==> Coalesce(bs) == bs
    decreases |bs|
  {
    if |bs| >= 2 {
      assert bs == [bs[0]] + bs[1..];
      SeamsCons(bs[0], bs[1..]);
      if bs[0].end == bs[1].start {
        CoalesceSeams([Block(bs[0].start, bs[1].end)] + bs[2..]);
      } else {
        assert Sorted(bs[1..]);
        CoalesceSeams(bs[1..]);
        CoalesceKeeps(bs[1..]);
        SeamsCons(bs[0], Coalesce(bs[1..]));
      }
    }
  }

  // ---------------------------------------------------------------- allocating

  /** b is the lowest free block that is long enough. */
  ghost predicate LowestFit(p: Pool, size: nat, b: Block) {
    b in p.free && b.Size() >= size && forall c <- p.free :: c.Size() >= size ==> b.start <= c.start
  }

  /** The lowest free block that is long enough, if there is one, is the first in the list. */
  lemma FitIff(p: Pool, size: nat)
    requires Sorted(p.free)
    ensures var k := FirstFit(p.free, size);
      && (k < |p.free| ==> LowestFit(p, size, p.free[k]) && forall c :: LowestFit(p, size, c) ==> c == p.free[k])
      && (k == |p.free| ==> forall c :: !LowestFit(p, size, c))
  {
    var k := FirstFit(p.free, size);
    if k < |p.free| {
      FirstIsLowest(p, size);
      LowestFitUnique(p, size, p.free[k]);
    }
  }

  lemma BlocksArePositive(p: Pool)
    requires Inv(p)
    ensures Sorted(p.free) && forall b <- p.free :: b.start > 0
  {
    forall b <- p.free ensures b.start > 0 { assert b.Has(b.start) && Covers(p.free, b.start); }
  }

  /** Allocate succeeds iff the lowest block that is long enough fits exactly or a slot is left. It returns the start
      of that block. */
  lemma AllocateSucceedsIff(p: Pool, size: nat)
    requires Sorted(p.free) && forall b <- p.free :: b.start > 0
    ensures var (a, q) := Allocated(p, size);
      && (a != 0 <==> size > 0 && exists b :: LowestFit(p, size, b) && (b.Size() == size || p.Room()))
      && (a != 0 ==> exists b :: LowestFit(p, size, b) && b.start == a)
      && (a == 0 ==> q == p)
  {
    FitIff(p, size);
  }

  /** Allocate succeeds iff the lowest block that is long enough fits exactly or a slot is left; it then moves
      exactly the requested addresses, at the start of that block, from free to occupied. */
  lemma AllocateIsFirstFit(p: Pool, size: nat)
    requires Inv(p)
    ensures var (a, q) := Allocated(p, size);
      && Inv(q)
      && (a != 0 <==> size > 0 && exists b :: LowestFit(p, size, b) && (b.Size() == size || p.Room()))
      && (a != 0 ==> exists b :: LowestFit(p, size, b) && b.start == a)
      && (a != 0 ==> Takes(p.free, q.free, Block(a, a + size)) && Adds(p.occupied, q.occupied, Block(a, a + size)))
      && (a == 0 ==> q == p)
  {
    BlocksArePositive(p);
    AllocateSucceedsIff(p, size);
    if Allocated(p, size).0 != 0 { AllocatedKeeps(p, size); }
  }

  /** What becomes of the nodes: the lowest block that is long enough disappears or keeps its rest, the region becomes
      an occupied block of its own, and every other node stays what it was. */
  lemma AllocateCuts(p: Pool, size: nat) returns (k: nat, j: nat)
    requires Inv(p) && Allocated(p, size).0 != 0
    ensures k < |p.free| && LowestFit(p, size, p.free[k]) && j <= |p.occupied|
    ensures var (a, q) := Allocated(p, size);
      && a == p.free[k].start
      && q.free == (if size == p.free[k].Size() then p.free[..k] + p.free[k+1..]
                    else p.free[k := Block(a + size, p.free[k].end)])
      && q.occupied == p.occupied[..j] + [Block(a, a + size)] + p.occupied[j..]
  {
    k, j := AllocatedAtNodes(p, size);
    FirstIsLowest(p, size);
  }

  lemma AllocatedAtNodes(p: Pool, size: nat) returns (k: nat, j: nat)
    requires Allocated(p, size).0 != 0
    ensures k == FirstFit(p.free, size) < |p.free| && j <= |p.occupied|
    ensures var (a, q) := Allocated(p, size);
      && a == p.free[k].start
      && q.free == (if size == p.free[k].Size() then p.free[..k] + p.free[k+1..]
                    else p.free[k := Block(a + size, p.free[k].end)])
      && q.occupied == p.occupied[..j] + [Block(a, a + size)] + p.occupied[j..]
  {
    k := FirstFit(p.free, size);
    j := FirstAfter(p.occupied, p.free[k].start);
    AllocatedIs(p, size);
  }

  lemma FirstIsLowest(p: Pool, size: nat)
    requires Sorted(p.free) && FirstFit(p.free, size) < |p.free|
    ensures LowestFit(p, size, p.free[FirstFit(p.free, size)])
  {
    var k := FirstFit(p.free, size);
    forall c <- p.free | c.Size() >= size ensures p.free[k].start <= c.start {
      var j :| 0 <= j < |p.free| && p.free[j] == c;
      assert j >= k;
    }
  }

  /** A successful allocation keeps the partition and moves exactly [a, a+size) from free to occupied. */
  lemma AllocatedKeeps(p: Pool, size: nat)
    requires Inv(p) && size > 0 && FirstFit(p.free, size) < |p.free|
    requires p.free[FirstFit(p.free, size)].Size() == size || p.Room()
    ensures var (a, q) := Allocated(p, size);
      Inv(q) && Takes(p.free, q.free, Block(a, a + size)) && Adds(p.occupied, q.occupied, Block(a, a + size))
    ensures forall x :: Block(Allocated(p, size).0, Allocated(p, size).0 + size).Has(x) ==> Covers(p.free, x)
  {
    var k := FirstFit(p.free, size);
    var b := Block(p.free[k].start, p.free[k].start + size);
    var q := p.(free := CutFront(p.free, k, size), occupied := Insert(p.occupied, b));
    AllocatedIs(p, size);
    assert Allocated(p, size) == (b.start, q);
    MoveFront(p, k, size);
  }

  lemma AllocatedIs(p: Pool, size: nat)
    requires size > 0 && FirstFit(p.free, size) < |p.free|
    requires p.free[FirstFit(p.free, size)].Size() == size || p.Room()
    ensures var k := FirstFit(p.free, size); var b := Block(p.free[k].start, p.free[k].start + size);
      Allocated(p, size) == (b.start, p.(free := CutFront(p.free, k, size), occupied := Insert(p.occupied, b)))
  {
  }

  lemma MoveFront(p: Pool, k: nat, size: nat)
    requires Inv(p) && k < |p.free| && 0 < size <= p.free[k].Size()
    requires p.free[k].Size() == size || p.Room()
    ensures var b := Block(p.free[k].start, p.free[k].start + size);
      var q := p.(free := CutFront(p.free, k, size), occupied := Insert(p.occupied, b));
      && Inv(q) && Takes(p.free, q.free, b) && Adds(p.occupied, q.occupied, b)
      && forall x :: b.Has(x) ==> Covers(p.free, x)
  {
    var b := Block(p.free[k].start, p.free[k].start + size);
    CutFrontKeeps(p.free, k, size);
    forall x | b.Has(x) ensures Covers(p.free, x) && !Covers(p.occupied, x) {}
    InsertKeeps(p.occupied, b);
    MoveKeeps(p, Block(0, 0), p.(free := CutFront(p.free, k, size), occupied := Insert(p.occupied, b)), b);
  }

  /** Addresses that move from the free to the occupied list keep the partition. */
  lemma MoveKeeps(p: Pool, gap: Block, q: Pool, b: Block)
    requires InvBut(p, gap) && Sorted(q.free) && Sorted(q.occupied)
    requires q.first == p.first && q.last == p.last && q.slots == p.slots && |q.free| + |q.occupied| <= q.slots
    requires Takes(p.free, q.free, b) && Adds(p.occupied, q.occupied, b)
    requires forall x :: b.Has(x) ==> Covers(p.free, x)
    ensures InvBut(q, gap)
  {
  }

  lemma LowestFitUnique(p: Pool, size: nat, b: Block)
    requires Sorted(p.free) && LowestFit(p, size, b)
    ensures forall c :: LowestFit(p, size, c) ==> c == b
  {
    forall c | LowestFit(p, size, c) ensures c == b {
      var i :| 0 <= i < |p.free| && p.free[i] == b;
      var j :| 0 <= j < |p.free| && p.free[j] == c;
    }
  }

  // ---------------------------------------------------------------- freeing

  ghost predicate Touched(p: Pool, start: nat, size: nat) {
    exists k :: 0 <= k < |p.free| && Touches(p.free[k], start, start + size)
  }

  /** Returning a region that is missing from the pool completes the pool, if a node or a slot can take it. */
  lemma ReturnedCompletes(p: Pool, start: nat, size: nat)
    requires size > 0 && InvBut(p, Block(start, start + size))
    requires p.first <= start && start + size <= p.last
    ensures var (code, q) := Returned(p, start, size);
      && (code == 0 <==> Touched(p, start, size) || p.Room())
      && (code == 0 ==> Inv(q) && q.occupied == p.occupied && Adds(p.free, q.free, Block(start, start + size)))
      && (code != 0 ==> code == -1 && q == p)
  {
    var k := FirstTouching(p.free, start, start + size);
    if k < |p.free| {
      ExtendedCompletes(p, Block(start, start + size), k);
    } else if p.Room() {
      InsertedCompletes(p, Block(start, start + size));
    }
  }

  lemma ExtendedCompletes(p: Pool, gap: Block, k: nat)
    requires gap.start < gap.end && InvBut(p, gap) && p.first <= gap.start && gap.end <= p.last
    requires k < |p.free| && Touches(p.free[k], gap.start, gap.end)
    ensures var r := p.free[k := Absorb(p.free[k], gap.start, gap.end)];
      Inv(p.(free := r)) && Adds(p.free, r, gap)
  {
    forall x | gap.start <= x < gap.end ensures !Covers(p.free, x) { assert gap.Has(x); }
    AbsorbKeeps(p.free, k, gap.start, gap.end);
    FillKeeps(p, gap, p.(free := p.free[k := Absorb(p.free[k], gap.start, gap.end)]));
  }

  lemma InsertedCompletes(p: Pool, gap: Block)
    requires gap.start < gap.end && InvBut(p, gap) && p.first <= gap.start && gap.end <= p.last && p.Room()
    ensures var r := Coalesce(Insert(p.free, gap)); Inv(p.(free := r)) && Adds(p.free, r, gap)
  {
    var r := Insert(p.free, gap);
    InsertKeeps(p.free, gap);
    CoalesceKeeps(r);
    forall x ensures Covers(Coalesce(r), x) <==> Covers(r, x) { CoalesceCovers(r, x); }
    FillKeeps(p, gap, p.(free := Coalesce(r)));
  }

  lemma FillKeeps(p: Pool, gap: Block, q: Pool)
    requires InvBut(p, gap) && p.first <= gap.start && gap.end <= p.last
    requires q == p.(free := q.free) && Sorted(q.free) && |q.free| + |q.occupied| <= q.slots
    requires Adds(p.free, q.free, gap)
    ensures Inv(q)
  {
    forall x | gap.Has(x) ensures !Covers(p.occupied, x) {}
  }

  /** Taking a non-empty front part off an occupied block leaves exactly that part out of the pool. */
  lemma DetachedLeavesGap(p: Pool, k: nat, size: nat)
    requires Inv(p) && k < |p.occupied| && 0 < size <= p.occupied[k].Size()
    ensures var b := p.occupied[k]; var gap := Block(b.start, b.start + size);
      && InvBut(Detached(p, k, size), gap)
      && p.first <= gap.start && gap.end <= p.last
      && Takes(p.occupied, Detached(p, k, size).occupied, gap)
  {
    var b := p.occupied[k];
    var gap := Block(b.start, b.start + size);
    CutFrontKeeps(p.occupied, k, size);
    assert gap.Has(b.start) && gap.Has(b.start + size - 1);
    LeaveGap(p, gap, Detached(p, k, size));
    assert Covers(p.occupied, b.start) && Covers(p.occupied, b.start + size - 1);
  }

  lemma LeaveGap(p: Pool, gap: Block, q: Pool)
    requires Inv(p) && q == p.(occupied := q.occupied) && |q.occupied| <= |p.occupied|
    requires Sorted(q.occupied) && Takes(p.occupied, q.occupied, gap)
    requires forall x :: gap.Has(x) ==> Covers(p.occupied, x)
    ensures InvBut(q, gap)
  {
  }

  /** The occupied block, if any, in which Free finds an address. */
  ghost predicate Found(p: Pool, start: nat) { FirstHolding(p.occupied, start) < |p.occupied| }

  function Target(p: Pool, start: nat): Block
    requires FirstHolding(p.occupied, start) < |p.occupied|
  { p.occupied[FirstHolding(p.occupied, start)] }

  /** The calls of Free that leave a valid pool behind: those that are refused; those of a non-empty front part
      of a block, when the block disappears, a free node touches the part, or a slot is left; and those
      of size 0 that change nothing. */
  ghost predicate SafeFree(p: Pool, start: nat, size: nat) {
    Found(p, start) && size <= Target(p, start).Size() ==>
      if size == 0 then Touched(p, start, 0) || !p.Room()
      else start == Target(p, start).start &&
           (size == Target(p, start).Size() || Touched(p, start, size) || p.Room())
  }

  /** The block that holds an address covers it, and no other block does. */
  lemma TargetIs(p: Pool, start: nat)
    requires Inv(p)
    ensures Found(p, start) <==> Covers(p.occupied, start)
    ensures Found(p, start) ==> Target(p, start).Has(start)
  {
    var k := FirstHolding(p.occupied, start);
    if j :| 0 <= j < |p.occupied| && p.occupied[j].Has(start) { assert Holds(p.occupied[j], start); }
  }

  /** A safe Free of a non-empty region returns 0 and moves exactly that region from occupied to free. */
  lemma FreeMoves(p: Pool, start: nat, size: nat)
    requires Inv(p) && SafeFree(p, start, size)
    requires size > 0 && Found(p, start) && size <= Target(p, start).Size()
    ensures var (code, q) := Freed(p, start, size); var b := Block(start, start + size);
      code == 0 && Inv(q) && Adds(p.free, q.free, b) && Takes(p.occupied, q.occupied, b)
  {
    var k := FirstHolding(p.occupied, start);
    DetachedLeavesGap(p, k, size);
    ReturnedCompletes(Detached(p, k, size), start, size);
  }

  /** cs is bs with the block that ends at start grown to end; a block that starts at end is still there. */
  ghost predicate GrownUp(bs: seq<Block>, cs: seq<Block>, start: nat, end: nat) {
    && |cs| == |bs|
    && (forall k :: 0 <= k < |bs| ==> cs[k] == if bs[k].end == start then Block(bs[k].start, end) else bs[k])
    && (forall k :: 0 <= k < |cs| ==> cs[k].start != start && cs[k].end != start)
    && (forall k :: 0 <= k < |bs| && bs[k].start == end ==> cs[k] == bs[k])
  }

  /** cs is bs with the block that starts at end grown down to start. */
  ghost predicate GrownDown(bs: seq<Block>, cs: seq<Block>, start: nat, end: nat) {
    && |cs| == |bs|
    && (forall k :: 0 <= k < |bs| ==> cs[k] == if bs[k].start == end then Block(start, bs[k].end) else bs[k])
  }

  ghost predicate EndsAt(bs: seq<Block>, x: nat) { exists k :: 0 <= k < |bs| && bs[k].end == x }

  ghost predicate StartsAt(bs: seq<Block>, x: nat) { exists k :: 0 <= k < |bs| && bs[k].start == x }

  /** cs is the free list bs after the region [start, end) has been returned to it, room telling whether a slot is left.
      The node that ends where the region starts grows to the end of the region, even when another one starts there, and
      the two are left apart. Without it, the one that starts where the region ends grows down to its start. Either way
      every other free node stays what it was. Only a region that touches none gets a node of its own, if there is room,
      and then no touching neighbours are left. */
  ghost predicate Extended(bs: seq<Block>, cs: seq<Block>, start: nat, end: nat, room: bool) {
    if EndsAt(bs, start) then GrownUp(bs, cs, start, end)
    else if StartsAt(bs, end) then GrownDown(bs, cs, start, end)
    else if room then Seams(cs) == {}
    else cs == bs
  }

  /** Which free node takes a freed region that lies in a block; FreeMoves says what the list covers. The call is
      refused, but only after the block has been shortened, iff no node and no slot can take the region. */
  lemma FreeExtends(p: Pool, k: nat, start: nat, size: nat)
    requires Inv(p) && k < |p.occupied| && size > 0
    requires p.occupied[k].start <= start && start + size <= p.occupied[k].end
    ensures var (code, q) := Freed(p, start, size);
      var room := size == p.occupied[k].Size() || |p.free| + |p.occupied| < p.slots;
      && Extended(p.free, q.free, start, start + size, room)
      && code == if EndsAt(p.free, start) || StartsAt(p.free, start + size) || room then 0 else -1
  {
    FreedIs(p, k, start, size);
    FreeIsClear(p, k, start, size);
    ReturnedExtends(Detached(p, k, size), start, size);
  }

  lemma FreedIs(p: Pool, k: nat, start: nat, size: nat)
    requires Inv(p) && k < |p.occupied| && size <= p.occupied[k].Size() && p.occupied[k].Has(start)
    ensures var d := Detached(p, k, size);
      && Freed(p, start, size) == Returned(d, start, size)
      && d.free == p.free
      && (d.Room() <==> size == p.occupied[k].Size() || |p.free| + |p.occupied| < p.slots)
  {
    HoldsOnce(p.occupied, k, start);
  }

  lemma ReturnedExtends(p: Pool, start: nat, size: nat)
    requires Clear(p.free, start, start + size)
    ensures Extended(p.free, Returned(p, start, size).1.free, start, start + size, p.Room())
    ensures Returned(p, start, size).0 ==
            if EndsAt(p.free, start) || StartsAt(p.free, start + size) || p.Room() then 0 else -1
  {
    if k :| 0 <= k < |p.free| && p.free[k].end == start {
      LowerIsExtended(p, start, size, k);
    } else if k :| 0 <= k < |p.free| && p.free[k].start == start + size {
      UpperIsExtended(p, start, size, k);
    } else {
      NodeIsAdded(p, start, size);
    }
  }

  /** What becomes of the block that holds the address: it disappears, or loses its front, wherever in it the address
      lies. Every other occupied block stays what it was. */
  lemma FreeShortens(p: Pool, k: nat, start: nat, size: nat)
    requires Inv(p) && k < |p.occupied| && p.occupied[k].Has(start) && 0 < size <= p.occupied[k].Size()
    ensures var t := p.occupied[k];
      Freed(p, start, size).1.occupied ==
        if size == t.Size() then p.occupied[..k] + p.occupied[k+1..]
        else p.occupied[k := Block(t.start + size, t.end)]
  {
    FreedIs(p, k, start, size);
  }

  /** A sorted list without an address of [start, end). */
  ghost predicate Clear(bs: seq<Block>, start: nat, end: nat) {
    start < end && Sorted(bs) && forall x :: start <= x < end ==> !Covers(bs, x)
  }

  /** No free node reaches into a region of a block. */
  lemma FreeIsClear(p: Pool, k: nat, start: nat, size: nat)
    requires Inv(p) && k < |p.occupied| && size > 0
    requires p.occupied[k].start <= start && start + size <= p.occupied[k].end
    ensures Clear(p.free, start, start + size)
  {
    forall x | start <= x < start + size ensures !Covers(p.free, x) {
      assert p.occupied[k].Has(x) && Covers(p.occupied, x);
    }
  }

  lemma LowerIsExtended(p: Pool, start: nat, size: nat, k: nat)
    requires Clear(p.free, start, start + size) && k < |p.free| && p.free[k].end == start
    ensures GrownUp(p.free, Returned(p, start, size).1.free, start, start + size)
  {
    var bs, end := p.free, start + size;
    FirstIs(bs, (b: Block) => Touches(b, start, end), k);
    assert !Covers(bs, start);
    forall j | 0 <= j < |bs| && j != k ensures bs[j].start != start && bs[j].end != start {
      assert bs[j].Has(start) ==> Covers(bs, start);
    }
  }

  lemma UpperIsExtended(p: Pool, start: nat, size: nat, k: nat)
    requires Clear(p.free, start, start + size) && k < |p.free| && p.free[k].start == start + size
    requires !EndsAt(p.free, start)
    ensures GrownDown(p.free, Returned(p, start, size).1.free, start, start + size)
  {
    var bs, end := p.free, start + size;
    FirstIs(bs, (b: Block) => Touches(b, start, end), k);
  }

  lemma NodeIsAdded(p: Pool, start: nat, size: nat)
    requires Clear(p.free, start, start + size)
    requires forall k :: 0 <= k < |p.free| ==> !Touches(p.free[k], start, start + size)
    ensures var q := Returned(p, start, size).1;
      if p.Room() then Seams(q.free) == {} else q.free == p.free
  {
    var b := Block(start, start + size);
    var r := Insert(p.free, b);
    FirstIs(p.free, (b: Block) => Touches(b, start, start + size), |p.free|);
    InsertKeeps(p.free, b);
    CoalesceSeams(r);
  }

  /** Whatever is returned, the free list covers nothing but itself and the region. */
  lemma ReturnedCovers(p: Pool, start: nat, size: nat, x: int)
    requires Sorted(p.free)
    ensures Covers(Returned(p, start, size).1.free, x) ==> Covers(p.free, x) || start <= x < start + size
  {
    var b := Block(start, start + size);
    var k := FirstTouching(p.free, start, start + size);
    if k < |p.free| {
      var r := Returned(p, start, size).1.free;
      if j :| 0 <= j < |r| && r[j].Has(x) {
        assert j != k || !b.Has(x) ==> p.free[j].Has(x);
      }
    } else if p.Room() {
      var r := Insert(p.free, b);
      CoalesceCovers(r, x);
      var q := FirstAfter(p.free, start);
      if j :| 0 <= j < |r| && r[j].Has(x) {
        assert r[j] == if j < q then p.free[j] else if j == q then b else p.free[j-1];
      }
    }
  }

  /** An unsafe Free of a non-empty region loses the first address of the block. */
  lemma UnsafeFreeLoses(p: Pool, start: nat, size: nat)
    requires Inv(p) && !SafeFree(p, start, size) && size > 0
    ensures !Inv(Freed(p, start, size).1)
  {
    var k := FirstHolding(p.occupied, start);
    var b := p.occupied[k];
    var (code, q) := Freed(p, start, size);
    TargetIs(p, start);
    DetachedLeavesGap(p, k, size);
    assert b.Has(b.start) && Covers(p.occupied, b.start);
    assert !Covers(q.occupied, b.start);
    if start == b.start {
      ReturnedCompletes(Detached(p, k, size), start, size);
    }
    ReturnedCovers(Detached(p, k, size), start, size, b.start);
    assert !Covers(q.free, b.start);
  }

  /** A Free of size 0 inside a block either changes nothing or inserts an empty node. */
  lemma EmptyFree(p: Pool, start: nat)
    requires Inv(p) && Found(p, start)
    ensures Inv(Freed(p, start, 0).1) <==> Touched(p, start, 0) || !p.Room()
  {
    var k := FirstHolding(p.occupied, start);
    assert Detached(p, k, 0) == p by { assert p.occupied[k].Has(p.occupied[k].start); }
    var j := FirstTouching(p.free, start, start);
    if j < |p.free| {
      EmptyAbsorbed(p, j, start);
    } else if p.Room() {
      EmptyInserted(p, start);
    }
  }

  lemma EmptyAbsorbed(p: Pool, j: nat, x: nat)
    requires Inv(p) && j < |p.free| && Touches(p.free[j], x, x)
    ensures p.free[j := Absorb(p.free[j], x, x)] == p.free
  {
  }

  /** An empty node that touches no free node stays in the list. */
  lemma EmptyInserted(p: Pool, x: nat)
    requires FirstTouching(p.free, x, x) == |p.free|
    ensures !Inv(p.(free := Coalesce(Insert(p.free, Block(x, x)))))
  {
    var e, q := Block(x, x), FirstAfter(p.free, x);
    var r := Insert(p.free, e);
    assert r[q] == e;
    assert q > 0 ==> r[q-1] == p.free[q-1];
    assert q + 1 < |r| ==> r[q+1] == p.free[q];
    CoalesceIsolated(r, q);
  }

  /** For every address and size: Free leaves a valid pool behind iff the call is safe. */
  lemma FreeKeepsInvariantIff(p: Pool, start: nat, size: nat)
    requires Inv(p)
    ensures Inv(Freed(p, start, size).1) <==> SafeFree(p, start, size)
  {
    if Found(p, start) && size <= Target(p, start).Size() {
      if size == 0 {
        EmptyFree(p, start);
      } else if SafeFree(p, start, size) {
        FreeMoves(p, start, size);
      } else {
        UnsafeFreeLoses(p, start, size);
      }
    }
  }

  /** Freeing a whole block is never refused, even with every slot taken, and removes just that block. */
  lemma FreeWhole(p: Pool, k: nat)
    requires Inv(p) && k < |p.occupied|
    ensures var b := p.occupied[k]; var (code, q) := Freed(p, b.start, b.Size());
      && b.start < b.end
      && code == 0 && Inv(q) && Adds(p.free, q.free, b) && q.occupied == Remove(p.occupied, k)
  {
    var b := p.occupied[k];
    assert Block(b.start, b.start + b.Size()) == b;
    HoldsOnce(p.occupied, k, b.start);
    FreeMoves(p, b.start, b.Size());
  }

  lemma HoldsOnce(bs: seq<Block>, k: nat, x: nat)
    requires Sorted(bs) && k < |bs| && bs[k].Has(x)
    ensures FirstHolding(bs, x) == k
  {
    forall j | 0 <= j < k ensures !Holds(bs[j], x) { assert bs[j].end <= bs[k].start; }
    FirstIs(bs, (b: Block) => Holds(b, x), k);
  }

  /** A Free of an address in no block, or of more than the rest of its block, is refused and changes nothing. */
  lemma FreeCodes(p: Pool, start: nat, size: nat)
    requires Inv(p)
    ensures var (code, q) := Freed(p, start, size);
      && (!Covers(p.occupied, start) ==> code == -1 && q == p)
      && (Covers(p.occupied, start) ==> Found(p, start))
      && (Covers(p.occupied, start) && size > Target(p, start).Size() ==> code == -2 && q == p)
  {
    TargetIs(p, start);
  }

  // ---------------------------------------------------------------- sizes

  /** The addresses in some block. */
  ghost function Cells(bs: seq<Block>): set<int>
    requires forall k :: 0 <= k < |bs| ==> bs[k].start <= bs[k].end
  {
    if bs == [] then {} else Span(bs[0].start, bs[0].end) + Cells(bs[1..])
  }

  lemma {:induction false} CellsAre(bs: seq<Block>, x: int)
    requires forall k :: 0 <= k < |bs| ==> bs[k].start <= bs[k].end
    ensures x in Cells(bs) <==> Covers(bs, x)
  {
    if bs != [] {
      CellsAre(bs[1..], x);
      CoversCons(bs[0], bs[1..], x);
      assert bs == [bs[0]] + bs[1..];
    }
  }

  /** Blocks that do not overlap hold as many addresses as their sizes add up to. */
  lemma {:induction false} CellsSize(bs: seq<Block>)
    requires forall k :: 0 <= k < |bs| ==> bs[k].start <= bs[k].end
    requires Apart(bs)
    ensures |Cells(bs)| == TotalSize(bs)
  {
    if bs != [] {
      var t := bs[1..];
      forall i, j | 0 <= i < j < |t| ensures !Overlap(t[i], t[j]) { assert t[i] == bs[i+1] && t[j] == bs[j+1]; }
      CellsSize(t);
      forall x | x in Cells(t) ensures x !in Span(bs[0].start, bs[0].end) {
        CellsAre(t, x);
        var k :| 0 <= k < |t| && t[k].Has(x);
        assert !Overlap(bs[0], bs[k+1]);
      }
    }
  }

  lemma SameCoverSameSize(cs: seq<Block>, bs: seq<Block>)
    requires Sorted(cs) && Sorted(bs)
    requires forall x :: Covers(cs, x) <==> Covers(bs, x)
    ensures TotalSize(cs) == TotalSize(bs)
  {
    forall x ensures x in Cells(cs) <==> x in Cells(bs) { CellsAre(cs, x); CellsAre(bs, x); }
    assert Cells(cs) == Cells(bs);
    CellsSize(cs);
    CellsSize(bs);
  }

  // ---------------------------------------------------------------- undoing an allocation

  /** r has the same occupied list, the same free addresses and the same free space as p. */
  ghost predicate Restores(p: Pool, r: Pool) {
    && r.occupied == p.occupied
    && (forall x :: Covers(r.free, x) <==> Covers(p.free, x))
    && TotalSize(r.free) == TotalSize(p.free)
  }

  /** Freeing what Allocate returned succeeds and restores the occupied list, the free addresses and the free space. */
  lemma AllocateThenFree(p: Pool, size: nat)
    requires Inv(p) && Allocated(p, size).0 != 0
    ensures var (a, q) := Allocated(p, size); var (code, r) := Freed(q, a, size);
      code == 0 && Inv(r) && Restores(p, r)
  {
    var (a, q) := Allocated(p, size);
    AllocatedIs(p, size);
    AllocatedKeeps(p, size);
    MovedBack(p, q, Block(a, a + size));
  }

  lemma MovedBack(p: Pool, q: Pool, b: Block)
    requires Inv(p) && Inv(q) && Takes(p.free, q.free, b) && q.occupied == Insert(p.occupied, b)
    requires forall x :: b.Has(x) ==> Covers(p.free, x)
    ensures b.Size() >= 0
    ensures var (code, r) := Freed(q, b.start, b.Size()); code == 0 && Inv(r) && Restores(p, r)
  {
    var k := FirstAfter(p.occupied, b.start);
    RemoveInserted(p.occupied, k, b);
    FreeWhole(q, k);
    var r := Freed(q, b.start, b.Size()).1;
    CoverRestored(p.free, q.free, r.free, b);
    SameCoverSameSize(r.free, p.free);
  }

  lemma CoverRestored(bs: seq<Block>, cs: seq<Block>, ds: seq<Block>, b: Block)
    requires Takes(bs, cs, b) && Adds(cs, ds, b) && forall x :: b.Has(x) ==> Covers(bs, x)
    ensures forall x :: Covers(ds, x) <==> Covers(bs, x)
  {
  }

  lemma RemoveInserted<T>(s: seq<T>, k: nat, x: T)
    requires k <= |s|
    ensures var r := InsertAt(s, k, x); r[k] == x && Remove(r, k) == s
  {
  }
}
