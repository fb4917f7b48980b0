/** Address blocks, and the abstract first-fit pool that the slot table of
    `FirstFitAllocator` represents: two address-ordered lists of blocks that
    share a fixed number of slots. Addresses are naturals and 0 is NULL. */
module Blocks {
  import opened Sets

  /** The addresses start, start+1, ..., end-1. */
  datatype Block = Block(start: nat, end: nat)
  {
    function Size(): int { end - start }

    predicate Has(x: int) { start <= x < end }
  }

  /** The test with which the allocator looks an address up (an empty block is found at its start). */
  predicate Holds(b: Block, address: nat) {
    address == b.start || b.Has(address)
  }

  predicate Touches(b: Block, start: nat, end: nat) {
    end == b.start || b.end == start
  }

  // ---------------------------------------------------------------- searching a list

  /** Index of the first block that satisfies p; |bs| when there is none. */
  function First(bs: seq<Block>, p: Block -> bool): (k: nat)
    ensures k <= |bs|
    ensures k < |bs| ==> p(bs[k])
    ensures forall j :: 0 <= j < k ==> !p(bs[j])
  {
    if bs == [] then 0 else if p(bs[0]) then 0 else 1 + First(bs[1..], p)
  }

  lemma FirstIs(bs: seq<Block>, p: Block -> bool, k: nat)
    requires k <= |bs|
    requires k < |bs| ==> p(bs[k])
    requires forall j :: 0 <= j < k ==> !p(bs[j])
    ensures First(bs, p) == k
  {
    var f := First(bs, p);
  }

  function FirstFit(bs: seq<Block>, size: nat): nat { First(bs, (b: Block) => b.Size() >= size) }

  function FirstHolding(bs: seq<Block>, address: nat): nat { First(bs, (b: Block) => Holds(b, address)) }

  function FirstAfter(bs: seq<Block>, address: nat): nat { First(bs, (b: Block) => b.start > address) }

  function FirstTouching(bs: seq<Block>, start: nat, end: nat): nat {
    First(bs, (b: Block) => Touches(b, start, end))
  }

  // ---------------------------------------------------------------- editing a list

  function Remove<T>(s: seq<T>, k: nat): seq<T>
    requires k < |s|
  { s[..k] + s[k+1..] }

  function InsertAt<T>(s: seq<T>, k: nat, x: T): seq<T>
    requires k <= |s|
  { s[..k] + [x] + s[k..] }

  /** Removing a position keeps all other elements. */
  lemma RemoveDistinct<T>(s: seq<T>, k: nat)
    requires Distinct(s) && k < |s|
    ensures Distinct(Remove(s, k)) && s[k] !in Remove(s, k)
    ensures forall x <- s :: x in Remove(s, k) || x == s[k]
    ensures forall x <- Remove(s, k) :: x in s
  {
    var r := Remove(s, k);
    assert forall j :: 0 <= j < |r| ==> r[j] == s[if j < k then j else j + 1];
    assert forall j :: 0 <= j < |s| && j != k ==> s[j] == r[if j < k then j else j - 1];
  }

  /** Inserting adds one element. */
  lemma InsertDistinct<T>(s: seq<T>, k: nat, x: T)
    requires Distinct(s) && k <= |s| && x !in s
    ensures Distinct(InsertAt(s, k, x))
    ensures forall y <- s + [x] :: y in InsertAt(s, k, x)
    ensures forall y <- InsertAt(s, k, x) :: y in s || y == x
  {
    var r := InsertAt(s, k, x);
    assert forall j :: 0 <= j < |r| ==> r[j] == if j < k then s[j] else if j == k then x else s[j-1];
    assert forall j :: 0 <= j < |s| ==> s[j] == r[if j < k then j else j + 1];
    assert r[k] == x;
  }

  /** bs without the first size addresses of block k. */
  function CutFront(bs: seq<Block>, k: nat, size: nat): seq<Block>
    requires k < |bs| && size <= bs[k].Size()
  {
    if bs[k].Size() == size then Remove(bs, k) else bs[k := Block(bs[k].start + size, bs[k].end)]
  }

  /** Insertion in address order. */
  function Insert(bs: seq<Block>, b: Block): seq<Block> {
    InsertAt(bs, FirstAfter(bs, b.start), b)
  }

  /** b extended by the adjacent region [start, end); a region below b is preferred. */
  function Absorb(b: Block, start: nat, end: nat): Block {
    if end == b.start then Block(start, b.end) else Block(b.start, end)
  }

  /** Merges every run of blocks that follow each other without a gap. */
  function Coalesce(bs: seq<Block>): seq<Block>
    decreases |bs|
  {
    if |bs| < 2 then bs
    else if bs[0].end == bs[1].start then Coalesce([Block(bs[0].start, bs[1].end)] + bs[2..])
    else [bs[0]] + Coalesce(bs[1..])
  }

  /** bs with block k absorbed by its predecessor. */
  function Merged(bs: seq<Block>, k: nat): seq<Block>
    requires 0 < k < |bs|
  {
    Remove(bs, k)[k-1 := Block(bs[k-1].start, bs[k].end)]
  }

  /** bs is bs0 after the blocks in front of cursor k have been merged and left behind. */
  ghost predicate CoalescedUpTo(bs0: seq<Block>, bs: seq<Block>, k: nat) {
    var done := if k == 0 then 0 else k - 1;
    && k <= |bs|
    && Coalesce(bs0) == bs[..done] + Coalesce(bs[done..])
    && (k == |bs| ==> bs == Coalesce(bs0))
  }

  lemma CoalesceSkip(bs0: seq<Block>, bs: seq<Block>, k: nat)
    requires CoalescedUpTo(bs0, bs, k) && k < |bs|
    requires k > 0 ==> bs[k-1].end != bs[k].start
    ensures CoalescedUpTo(bs0, bs, k + 1)
  {
    if k > 0 {
      var rest := bs[k-1..];
      assert rest[1..] == bs[k..];
      assert bs[..k-1] + ([bs[k-1]] + Coalesce(bs[k..])) == bs[..k] + Coalesce(bs[k..]);
    }
    assert bs[..k] + bs[k..] == bs;
  }

  lemma CoalesceMerge(bs0: seq<Block>, bs: seq<Block>, k: nat)
    requires CoalescedUpTo(bs0, bs, k) && 0 < k < |bs|
    requires bs[k-1].end == bs[k].start
    ensures CoalescedUpTo(bs0, Merged(bs, k), k)
  {
    var rest, r := bs[k-1..], Merged(bs, k);
    assert r[..k-1] == bs[..k-1];
    assert r[k-1..] == [Block(rest[0].start, rest[1].end)] + rest[2..];
    assert r[..k-1] + r[k-1..] == r;
  }

  // ---------------------------------------------------------------- the pool

  datatype Pool = Pool(first: nat, last: nat, slots: nat, free: seq<Block>, occupied: seq<Block>)
  {
    predicate Room() { |free| + |occupied| < slots }
  }

  function Fresh(first: nat, last: nat, slots: nat): Pool {
    Pool(first, last, slots, [Block(first, last)], [])
  }

  /** What Allocate(size) returns and leaves behind. */
  function Allocated(p: Pool, size: nat): (nat, Pool) {
    var k := FirstFit(p.free, size);
    if size == 0 || k == |p.free| then (0, p)
    else
      var b := p.free[k];
      var taken := Block(b.start, b.start + size);
      if b.Size() == size || p.Room() then
        (b.start, p.(free := CutFront(p.free, k, size), occupied := Insert(p.occupied, taken)))
      else (0, p)
  }

  lemma AllocatedAt(p: Pool, size: nat, k: nat)
    requires k < |p.free| && 0 < size <= p.free[k].Size()
    requires forall j :: 0 <= j < k ==> !(p.free[j].Size() >= size)
    ensures var b := p.free[k];
      Allocated(p, size) ==
        if b.Size() == size || p.Room() then
          (b.start, p.(free := CutFront(p.free, k, size),
                       occupied := Insert(p.occupied, Block(b.start, b.start + size))))
        else (0, p)
  {
    FirstIs(p.free, (b: Block) => b.Size() >= size, k);
  }

  /** What returning the region [start, start+size) to the free list does. */
  function Returned(p: Pool, start: nat, size: nat): (int, Pool) {
    var end := start + size;
    var k := FirstTouching(p.free, start, end);
    if k < |p.free| then (0, p.(free := p.free[k := Absorb(p.free[k], start, end)]))
    else if !p.Room() then (-1, p)
    else (0, p.(free := Coalesce(Insert(p.free, Block(start, end)))))
  }

  /** The pool after Free has taken [start, start+size) off the occupied block number k. */
  function Detached(p: Pool, k: nat, size: nat): Pool
    requires k < |p.occupied| && size <= p.occupied[k].Size()
  {
    p.(occupied := CutFront(p.occupied, k, size))
  }

  /** What Free(start, size) returns and leaves behind. */
  function Freed(p: Pool, start: nat, size: nat): (int, Pool) {
    var k := FirstHolding(p.occupied, start);
    if k == |p.occupied| then (-1, p)
    else if p.occupied[k].Size() < size then (-2, p)
    else Returned(Detached(p, k, size), start, size)
  }

  function TotalSize(bs: seq<Block>): int {
    if bs == [] then 0 else bs[0].Size() + TotalSize(bs[1..])
  }

  lemma TotalSizeAppend(bs: seq<Block>, b: Block)
    ensures TotalSize(bs + [b]) == TotalSize(bs) + b.Size()
  {
    if bs != [] { assert (bs + [b])[1..] == bs[1..] + [b]; }
  }

  // ---------------------------------------------------------------- what IsValidDataStructure tests

  /** One of the two blocks starts inside the other. */
  predicate Overlap(a: Block, b: Block) { b.Has(a.start) || a.Has(b.start) }

  ghost predicate Apart(bs: seq<Block>) {
    forall i, j :: 0 <= i < j < |bs| ==> !Overlap(bs[i], bs[j])
  }

  ghost predicate Consistent(p: Pool) {
    && Apart(p.occupied + p.free)
    && TotalSize(p.occupied) + TotalSize(p.free) == p.last - p.first
  }
}
