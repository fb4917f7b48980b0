/** The slot table of src/FirstFitAllocator.cpp: one array of slots through which
    the free list and the occupied list are threaded by index. */
module FirstFitAllocator {
  import opened Blocks
  import opened Sets

  /** One slot. An unused slot has start NULL (0). */
  datatype Chunk = Chunk(start: nat, end: nat, next: int)

  // ---------------------------------------------------------------- chains, as values

  function At(ix: seq<int>, k: nat): int { if k < |ix| then ix[k] else -1 }

  function Before(ix: seq<int>, k: nat): int
    requires k <= |ix|
  { if k == 0 then -1 else ix[k-1] }

  ghost predicate Follows(m: seq<Chunk>, ix: seq<int>, k: nat)
    requires k < |ix| && 0 <= ix[k] < |m|
  { m[ix[k]].next == At(ix, k + 1) }

  /** ix lists, in order, the slots reached from head by following next. */
  ghost predicate IsChain(m: seq<Chunk>, head: int, ix: seq<int>) {
    && head == At(ix, 0)
    && (forall k :: 0 <= k < |ix| ==> 0 <= ix[k] < |m|)
    && (forall k {:trigger Follows(m, ix, k)} :: 0 <= k < |ix| ==> Follows(m, ix, k))
    && Distinct(ix)
  }

  function BlockOf(c: Chunk): Block { Block(c.start, c.end) }

  ghost function BlocksOf(m: seq<Chunk>, ix: seq<int>): (bs: seq<Block>)
    requires forall k :: 0 <= k < |ix| ==> 0 <= ix[k] < |m|
    ensures |bs| == |ix|
    ensures forall k {:trigger bs[k]} :: 0 <= k < |ix| ==> bs[k] == BlockOf(m[ix[k]])
  {
    seq(|ix|, k requires 0 <= k < |ix| => BlockOf(m[ix[k]]))
  }

  ghost predicate UsedIffOnChain(m: seq<Chunk>, free: seq<int>, occupied: seq<int>, i: int)
    requires 0 <= i < |m|
  { m[i].start != 0 <==> i in free || i in occupied }

  /** The slots in use are exactly those on one of the two chains. */
  ghost predicate InUse(m: seq<Chunk>, free: seq<int>, occupied: seq<int>) {
    forall i {:trigger UsedIffOnChain(m, free, occupied, i)} :: 0 <= i < |m| ==> UsedIffOnChain(m, free, occupied, i)
  }

  ghost predicate Disjoint(free: seq<int>, occupied: seq<int>) {
    forall j, k :: 0 <= j < |free| && 0 <= k < |occupied| ==> free[j] != occupied[k]
  }

  ghost predicate Ordered(m: seq<Chunk>) { forall i :: 0 <= i < |m| ==> m[i].start <= m[i].end }

  /** Both chains are well formed and share no slot, and the slots in use are exactly those on a chain. */
  ghost predicate IsTable(m: seq<Chunk>, freeHead: int, free: seq<int>, occupiedHead: int, occupied: seq<int>) {
    && IsChain(m, freeHead, free)
    && IsChain(m, occupiedHead, occupied)
    && Disjoint(free, occupied)
    && InUse(m, free, occupied)
    && Ordered(m)
  }

  /** Linking slot n in front of position k of a chain. */
  lemma ChainInsert(m: seq<Chunk>, m': seq<Chunk>, head: int, ix: seq<int>, k: nat, n: int)
    requires IsChain(m, head, ix) && k <= |ix|
    requires |m'| == |m| && 0 <= n < |m| && n !in ix
    requires m'[n].next == At(ix, k)
    requires k > 0 ==> m'[ix[k-1]].next == n
    requires forall j :: 0 <= j < |ix| && j != k - 1 ==> m'[ix[j]].next == m[ix[j]].next
    ensures IsChain(m', if k == 0 then n else head, InsertAt(ix, k, n))
  {
    var r := InsertAt(ix, k, n);
    InsertDistinct(ix, k, n);
    forall j | 0 <= j < |r| ensures 0 <= r[j] < |m'| && Follows(m', r, j) {
      if j < k {
        assert r[j] == ix[j] && Follows(m, ix, j);
      } else if j > k {
        assert r[j] == ix[j-1] && Follows(m, ix, j - 1);
      }
    }
  }

  /** Unlinking position k of a chain. */
  lemma ChainRemove(m: seq<Chunk>, m': seq<Chunk>, head: int, ix: seq<int>, k: nat)
    requires IsChain(m, head, ix) && k < |ix|
    requires |m'| == |m|
    requires k > 0 ==> m'[ix[k-1]].next == At(ix, k + 1)
    requires forall j :: 0 <= j < |ix| && j != k - 1 && j != k ==> m'[ix[j]].next == m[ix[j]].next
    ensures IsChain(m', if k == 0 then At(ix, 1) else head, Remove(ix, k))
  {
    var r := Remove(ix, k);
    RemoveDistinct(ix, k);
    forall j | 0 <= j < |r| ensures 0 <= r[j] < |m'| && Follows(m', r, j) {
      if j < k { assert r[j] == ix[j] && Follows(m, ix, j); } else { assert r[j] == ix[j+1] && Follows(m, ix, j + 1); }
    }
  }

  /** The slots of a table bound the lengths of its two lists; a free slot exists iff they are not exhausted. */
  lemma SlotCount(m: seq<Chunk>, freeHead: int, free: seq<int>, occupiedHead: int, occupied: seq<int>)
    requires IsTable(m, freeHead, free, occupiedHead, occupied)
    ensures |free| + |occupied| <= |m|
    ensures |free| + |occupied| < |m| <==> exists i :: 0 <= i < |m| && m[i].start == 0
  {
    var all := free + occupied;
    DistinctSize(all);
    var every := Span(0, |m|);
    if exists i :: 0 <= i < |m| && m[i].start == 0 {
      var i :| 0 <= i < |m| && m[i].start == 0;
      assert UsedIffOnChain(m, free, occupied, i);
      SubsetSize(Elements(all), every - {i});
    } else {
      forall i | 0 <= i < |m| ensures i in all { assert UsedIffOnChain(m, free, occupied, i); }
      assert Elements(all) == every;
    }
    SubsetSize(Elements(all), every);
  }

  /** m' is m with block b written to slot n and with nothing else changed but links inside chain ix. */
  ghost predicate Linked(m: seq<Chunk>, m': seq<Chunk>, ix: seq<int>, n: int, b: Block) {
    && |m'| == |m|
    && 0 <= n < |m|
    && BlockOf(m'[n]) == b
    && (forall i :: 0 <= i < |m| && i != n ==> BlockOf(m'[i]) == BlockOf(m[i]))
    && (forall i :: 0 <= i < |m| && i != n && i !in ix ==> m'[i] == m[i])
  }

  /** m with block b in slot n, and n linked in front of position k of chain ix. */
  ghost function Link(m: seq<Chunk>, ix: seq<int>, k: nat, n: int, b: Block): seq<Chunk>
    requires forall j :: 0 <= j < |ix| ==> 0 <= ix[j] < |m|
    requires k <= |ix| && 0 <= n < |m|
  {
    var m1 := if k == 0 then m else m[ix[k-1] := m[ix[k-1]].(next := n)];
    m1[n := Chunk(b.start, b.end, At(ix, k))]
  }

  lemma LinkFacts(m: seq<Chunk>, head: int, ix: seq<int>, k: nat, n: int, b: Block)
    requires IsChain(m, head, ix) && k <= |ix| && 0 <= n < |m| && n !in ix
    ensures Linked(m, Link(m, ix, k, n, b), ix, n, b)
    ensures IsChain(Link(m, ix, k, n, b), if k == 0 then n else head, InsertAt(ix, k, n))
  {
    var m' := Link(m, ix, k, n, b);
    ChainInsert(m, m', head, ix, k, n);
  }

  lemma BlocksInsert(m: seq<Chunk>, m': seq<Chunk>, ix: seq<int>, k: nat, n: int, b: Block)
    requires forall j :: 0 <= j < |ix| ==> 0 <= ix[j] < |m| && ix[j] != n
    requires k <= |ix| && Linked(m, m', ix, n, b)
    ensures forall j :: 0 <= j < |InsertAt(ix, k, n)| ==> 0 <= InsertAt(ix, k, n)[j] < |m'|
    ensures BlocksOf(m', InsertAt(ix, k, n)) == InsertAt(BlocksOf(m, ix), k, b)
  {
    var r := InsertAt(ix, k, n);
    forall j | 0 <= j < |r|
      ensures 0 <= r[j] < |m'| && BlockOf(m'[r[j]]) == InsertAt(BlocksOf(m, ix), k, b)[j]
    {
      if j < k { assert r[j] == ix[j]; } else if j > k { assert r[j] == ix[j-1]; }
    }
  }

  lemma BlocksRemove(m: seq<Chunk>, m': seq<Chunk>, ix: seq<int>, k: nat)
    requires |m'| == |m| && k < |ix|
    requires forall j :: 0 <= j < |ix| ==> 0 <= ix[j] < |m|
    requires forall j :: 0 <= j < |ix| && j != k ==> BlockOf(m'[ix[j]]) == BlockOf(m[ix[j]])
    ensures forall j :: 0 <= j < |Remove(ix, k)| ==> 0 <= Remove(ix, k)[j] < |m'|
    ensures BlocksOf(m', Remove(ix, k)) == Remove(BlocksOf(m, ix), k)
  {
    var r := Remove(ix, k);
    forall j | 0 <= j < |r|
      ensures 0 <= r[j] < |m'| && BlockOf(m'[r[j]]) == Remove(BlocksOf(m, ix), k)[j]
    {
      if j < k { assert r[j] == ix[j]; } else { assert r[j] == ix[j+1]; }
    }
  }

  /** The free chain after slot free[k], whose link was overwritten, is unlinked from it. */
  lemma MoveFree(m: seq<Chunk>, m1: seq<Chunk>, m2: seq<Chunk>, head: int, free: seq<int>, k: nat)
    requires IsChain(m, head, free) && |m1| == |m| && k < |free|
    requires forall j :: 0 <= j < |free| && j != k ==> m1[free[j]] == m[free[j]]
    requires m2 == if k == 0 then m1 else m1[free[k-1] := m1[free[k-1]].(next := At(free, k + 1))]
    ensures IsChain(m2, if k == 0 then At(free, 1) else head, Remove(free, k))
    ensures BlocksOf(m2, Remove(free, k)) == Remove(BlocksOf(m, free), k)
  {
    ChainRemove(m, m2, head, free, k);
    BlocksRemove(m, m2, free, k);
  }

  /** Slots in use stay exactly those on a chain when slot free[k] changes chains. */
  lemma MoveUsed(m: seq<Chunk>, m': seq<Chunk>, free: seq<int>, k: nat, occupied: seq<int>, q: nat)
    requires Distinct(free) && Distinct(occupied) && Disjoint(free, occupied) && InUse(m, free, occupied)
    requires k < |free| && q <= |occupied|
    requires |m'| == |m| && forall i :: 0 <= i < |m| ==> BlockOf(m'[i]) == BlockOf(m[i])
    ensures Disjoint(Remove(free, k), InsertAt(occupied, q, free[k]))
    ensures InUse(m', Remove(free, k), InsertAt(occupied, q, free[k]))
  {
    RemoveDistinct(free, k);
    InsertDistinct(occupied, q, free[k]);
    forall i | 0 <= i < |m'|
      ensures UsedIffOnChain(m', Remove(free, k), InsertAt(occupied, q, free[k]), i)
    {
      assert UsedIffOnChain(m, free, occupied, i);
      assert BlockOf(m'[i]) == BlockOf(m[i]);
    }
    forall i, j | 0 <= i < |Remove(free, k)| && 0 <= j < |InsertAt(occupied, q, free[k])|
      ensures Remove(free, k)[i] != InsertAt(occupied, q, free[k])[j]
    {
      assert Remove(free, k)[i] in Remove(free, k);
      assert InsertAt(occupied, q, free[k])[j] in InsertAt(occupied, q, free[k]);
    }
  }

  /** Slot free[k], already linked into the occupied chain, is unlinked from the free chain. */
  lemma MoveFacts(m: seq<Chunk>, m1: seq<Chunk>, m2: seq<Chunk>, freeHead: int, free: seq<int>, k: nat,
                  occupiedHead: int, occupied: seq<int>, q: nat)
    requires IsTable(m, freeHead, free, occupiedHead, occupied)
    requires k < |free| && q <= |occupied|
    requires m1 == Link(m, occupied, q, free[k], BlockOf(m[free[k]]))
    requires m2 == if k == 0 then m1 else m1[free[k-1] := m1[free[k-1]].(next := At(free, k + 1))]
    ensures IsTable(m2, if k == 0 then At(free, 1) else freeHead, Remove(free, k),
                    if q == 0 then free[k] else occupiedHead, InsertAt(occupied, q, free[k]))
    ensures BlocksOf(m2, Remove(free, k)) == Remove(BlocksOf(m, free), k)
    ensures BlocksOf(m2, InsertAt(occupied, q, free[k])) == InsertAt(BlocksOf(m, occupied), q, BlockOf(m[free[k]]))
  {
    var n := free[k];
    assert n !in occupied;
    LinkFacts(m, occupiedHead, occupied, q, n, BlockOf(m[n]));
    MoveFree(m, m1, m2, freeHead, free, k);
    BlocksInsert(m, m1, occupied, q, n, BlockOf(m[n]));
    InsertDistinct(occupied, q, n);
    ChainSurvives(m1, m2, if q == 0 then n else occupiedHead, InsertAt(occupied, q, n));
    assert forall i :: 0 <= i < |m| ==> BlockOf(m2[i]) == BlockOf(m[i]);
    MoveUsed(m, m2, free, k, occupied, q);
    forall i | 0 <= i < |m2| ensures m2[i].start <= m2[i].end { assert BlockOf(m2[i]) == BlockOf(m[i]); }
  }

  /** A chain does not depend on the slots outside it. */
  lemma ChainSurvives(m: seq<Chunk>, m': seq<Chunk>, head: int, ix: seq<int>)
    requires IsChain(m, head, ix) && |m'| == |m|
    requires forall i :: 0 <= i < |m| && i in ix ==> m'[i] == m[i]
    ensures IsChain(m', head, ix)
    ensures BlocksOf(m', ix) == BlocksOf(m, ix)
  {
    forall j | 0 <= j < |ix| ensures m'[ix[j]] == m[ix[j]] && Follows(m', ix, j) {
      assert ix[j] in ix && Follows(m, ix, j);
    }
  }

  /** An unused slot n is linked into one of the two chains. */
  lemma LinkTable(m: seq<Chunk>, head: int, ix: seq<int>, otherHead: int, other: seq<int>, k: nat, n: int, b: Block)
    requires IsTable(m, head, ix, otherHead, other)
    requires k <= |ix| && 0 <= n < |m| && m[n].start == 0 && 0 < b.start <= b.end
    ensures IsTable(Link(m, ix, k, n, b), if k == 0 then n else head, InsertAt(ix, k, n), otherHead, other)
    ensures BlocksOf(Link(m, ix, k, n, b), InsertAt(ix, k, n)) == InsertAt(BlocksOf(m, ix), k, b)
    ensures BlocksOf(Link(m, ix, k, n, b), other) == BlocksOf(m, other)
  {
    var m' := Link(m, ix, k, n, b);
    assert UsedIffOnChain(m, ix, other, n);
    LinkFacts(m, head, ix, k, n, b);
    BlocksInsert(m, m', ix, k, n, b);
    ChainSurvives(m, m', otherHead, other);
    LinkUsed(m, m', ix, k, n, other);
  }

  /** The same for the second chain. */
  lemma LinkTable2(m: seq<Chunk>, otherHead: int, other: seq<int>, head: int, ix: seq<int>, k: nat, n: int, b: Block)
    requires IsTable(m, otherHead, other, head, ix)
    requires k <= |ix| && 0 <= n < |m| && m[n].start == 0 && 0 < b.start <= b.end
    ensures n !in other && n != otherHead
    ensures IsTable(Link(m, ix, k, n, b), otherHead, other, if k == 0 then n else head, InsertAt(ix, k, n))
    ensures BlocksOf(Link(m, ix, k, n, b), InsertAt(ix, k, n)) == InsertAt(BlocksOf(m, ix), k, b)
    ensures BlocksOf(Link(m, ix, k, n, b), other) == BlocksOf(m, other)
  {
    assert UsedIffOnChain(m, other, ix, n);
    SwapTable(m, otherHead, other, head, ix);
    LinkTable(m, head, ix, otherHead, other, k, n, b);
    SwapTable(Link(m, ix, k, n, b), if k == 0 then n else head, InsertAt(ix, k, n), otherHead, other);
    assert other != [] ==> other[0] in other;
  }

  lemma LinkUsed(m: seq<Chunk>, m': seq<Chunk>, ix: seq<int>, k: nat, n: int, other: seq<int>)
    requires Distinct(ix) && Disjoint(ix, other) && InUse(m, ix, other)
    requires k <= |ix| && 0 <= n < |m| && m[n].start == 0
    requires |m'| == |m| && m'[n].start != 0
    requires forall i :: 0 <= i < |m| && i != n ==> BlockOf(m'[i]) == BlockOf(m[i])
    ensures Disjoint(InsertAt(ix, k, n), other) && InUse(m', InsertAt(ix, k, n), other)
  {
    assert UsedIffOnChain(m, ix, other, n);
    InsertDistinct(ix, k, n);
    forall i | 0 <= i < |m'| ensures UsedIffOnChain(m', InsertAt(ix, k, n), other, i) {
      assert UsedIffOnChain(m, ix, other, i);
      if i != n { assert BlockOf(m'[i]) == BlockOf(m[i]); }
    }
    forall i, j | 0 <= i < |InsertAt(ix, k, n)| && 0 <= j < |other| ensures InsertAt(ix, k, n)[i] != other[j] {
      assert InsertAt(ix, k, n)[i] in InsertAt(ix, k, n) && other[j] in other;
    }
  }

  /** m with position k of chain ix unlinked and its slot cleared. */
  ghost function Unlink(m: seq<Chunk>, ix: seq<int>, k: nat): seq<Chunk>
    requires forall j :: 0 <= j < |ix| ==> 0 <= ix[j] < |m|
    requires k < |ix|
  {
    var m1 := m[ix[k] := Chunk(0, 0, -1)];
    if k == 0 then m1 else m1[ix[k-1] := m1[ix[k-1]].(next := At(ix, k + 1))]
  }

  lemma UnlinkTable(m: seq<Chunk>, head: int, ix: seq<int>, otherHead: int, other: seq<int>, k: nat)
    requires IsTable(m, head, ix, otherHead, other)
    requires k < |ix|
    ensures IsTable(Unlink(m, ix, k), if k == 0 then At(ix, 1) else head, Remove(ix, k), otherHead, other)
    ensures BlocksOf(Unlink(m, ix, k), Remove(ix, k)) == Remove(BlocksOf(m, ix), k)
    ensures BlocksOf(Unlink(m, ix, k), other) == BlocksOf(m, other)
  {
    var m' := Unlink(m, ix, k);
    assert ix[k] in ix && (k > 0 ==> ix[k-1] in ix);
    MoveFree(m, m[ix[k] := Chunk(0, 0, -1)], m', head, ix, k);
    ChainSurvives(m, m', otherHead, other);
    UnlinkUsed(m, m', ix, k, other);
  }

  lemma UnlinkUsed(m: seq<Chunk>, m': seq<Chunk>, ix: seq<int>, k: nat, other: seq<int>)
    requires Distinct(ix) && Disjoint(ix, other) && InUse(m, ix, other) && Ordered(m)
    requires k < |ix| && 0 <= ix[k] < |m|
    requires |m'| == |m| && BlockOf(m'[ix[k]]) == Block(0, 0)
    requires forall i :: 0 <= i < |m| && i != ix[k] ==> BlockOf(m'[i]) == BlockOf(m[i])
    ensures Disjoint(Remove(ix, k), other) && InUse(m', Remove(ix, k), other) && Ordered(m')
  {
    RemoveDistinct(ix, k);
    assert ix[k] !in other;
    forall i | 0 <= i < |m'|
      ensures UsedIffOnChain(m', Remove(ix, k), other, i)
      ensures m'[i].start <= m'[i].end
    {
      assert UsedIffOnChain(m, ix, other, i);
      if i != ix[k] { assert BlockOf(m'[i]) == BlockOf(m[i]); }
    }
    forall i, j | 0 <= i < |Remove(ix, k)| && 0 <= j < |other| ensures Remove(ix, k)[i] != other[j] {
      assert Remove(ix, k)[i] in Remove(ix, k);
    }
  }

  /** Writing a block to slot ix[k], leaving its link alone. */
  lemma Rewrite(m: seq<Chunk>, m': seq<Chunk>, head: int, ix: seq<int>, otherHead: int, other: seq<int>, k: nat,
                b: Block)
    requires IsTable(m, head, ix, otherHead, other)
    requires k < |ix| && 0 < b.start <= b.end
    requires m' == m[ix[k] := Chunk(b.start, b.end, m[ix[k]].next)]
    ensures IsTable(m', head, ix, otherHead, other)
    ensures BlocksOf(m', ix) == BlocksOf(m, ix)[k := b]
    ensures BlocksOf(m', other) == BlocksOf(m, other)
  {
    assert ix[k] in ix && UsedIffOnChain(m, ix, other, ix[k]);
    forall i | 0 <= i < |m| ensures UsedIffOnChain(m', ix, other, i) { assert UsedIffOnChain(m, ix, other, i); }
    ChainSurvives(m, m', otherHead, other);
    forall j | 0 <= j < |ix| ensures Follows(m', ix, j) { assert Follows(m, ix, j); }
  }

  /** Slot ix[k-1] takes over the block of slot ix[k], which is unlinked and cleared. */
  lemma MergeTable(m: seq<Chunk>, m': seq<Chunk>, head: int, ix: seq<int>, otherHead: int, other: seq<int>, k: nat)
    requires IsTable(m, head, ix, otherHead, other)
    requires 0 < k < |ix| && m[ix[k-1]].end == m[ix[k]].start
    requires m' == m[ix[k-1] := Chunk(m[ix[k-1]].start, m[ix[k]].end, m[ix[k]].next)][ix[k] := Chunk(0, 0, -1)]
    ensures IsTable(m', head, Remove(ix, k), otherHead, other)
    ensures BlocksOf(m', Remove(ix, k)) == Merged(BlocksOf(m, ix), k)
    ensures BlocksOf(m', other) == BlocksOf(m, other)
  {
    var m1 := Unlink(m, ix, k);
    assert Follows(m, ix, k) && ix[k-1] in ix && ix[k] in ix;
    UnlinkTable(m, head, ix, otherHead, other, k);
    assert UsedIffOnChain(m, ix, other, ix[k-1]);
    assert Remove(ix, k)[k-1] == ix[k-1];
    assert m1[ix[k-1]].next == m[ix[k]].next;
    assert m' == m1[ix[k-1] := Chunk(m[ix[k-1]].start, m[ix[k]].end, m1[ix[k-1]].next)];
    Rewrite(m1, m', head, Remove(ix, k), otherHead, other, k - 1, Block(m[ix[k-1]].start, m[ix[k]].end));
  }

  lemma SwapTable(m: seq<Chunk>, head: int, ix: seq<int>, otherHead: int, other: seq<int>)
    requires IsTable(m, head, ix, otherHead, other)
    ensures IsTable(m, otherHead, other, head, ix)
  {
    forall i | 0 <= i < |m| ensures UsedIffOnChain(m, other, ix, i) { assert UsedIffOnChain(m, ix, other, i); }
  }

  /** Slot i overlaps another of the slots all. */
  ghost predicate Clashes(m: seq<Chunk>, all: seq<int>, i: int)
    requires 0 <= i < |m| && forall k :: 0 <= k < |all| ==> 0 <= all[k] < |m|
  {
    exists j :: 0 <= j < |all| && all[j] != i && Overlap(BlockOf(m[i]), BlockOf(m[all[j]]))
  }

  lemma ClashesEither(m: seq<Chunk>, a: seq<int>, b: seq<int>, i: int)
    requires 0 <= i < |m|
    requires forall k :: 0 <= k < |a| ==> 0 <= a[k] < |m|
    requires forall k :: 0 <= k < |b| ==> 0 <= b[k] < |m|
    ensures Clashes(m, a + b, i) <==> Clashes(m, a, i) || Clashes(m, b, i)
  {
    assert forall j :: 0 <= j < |a| ==> (a + b)[j] == a[j];
    assert forall j :: 0 <= j < |b| ==> (a + b)[|a| + j] == b[j];
  }

  /** Blocks are pairwise apart iff no slot overlaps another. */
  lemma ApartIffNoneClashes(m: seq<Chunk>, all: seq<int>, bs: seq<Block>)
    requires Distinct(all) && forall k :: 0 <= k < |all| ==> 0 <= all[k] < |m|
    requires |bs| == |all| && forall k :: 0 <= k < |all| ==> bs[k] == BlockOf(m[all[k]])
    ensures Apart(bs) <==> forall k :: 0 <= k < |all| ==> !Clashes(m, all, all[k])
  {
    if k :| 0 <= k < |all| && Clashes(m, all, all[k]) {
      var j :| 0 <= j < |all| && all[j] != all[k] && Overlap(BlockOf(m[all[k]]), BlockOf(m[all[j]]));
      assert Overlap(bs[k], bs[j]) && Overlap(bs[j], bs[k]);
    } else {
      forall i, j | 0 <= i < j < |bs| ensures !Overlap(bs[i], bs[j]) { assert !Clashes(m, all, all[i]); }
    }
  }

  lemma ApartIffNoClash(m: seq<Chunk>, occupied: seq<int>, free: seq<int>)
    requires Distinct(occupied) && Distinct(free) && Disjoint(free, occupied)
    requires forall k :: 0 <= k < |occupied| ==> 0 <= occupied[k] < |m|
    requires forall k :: 0 <= k < |free| ==> 0 <= free[k] < |m|
    ensures Apart(BlocksOf(m, occupied) + BlocksOf(m, free)) <==>
            && (forall k :: 0 <= k < |occupied| ==> !Clashes(m, occupied + free, occupied[k]))
            && (forall k :: 0 <= k < |free| ==> !Clashes(m, occupied + free, free[k]))
  {
    var all, n := occupied + free, |occupied|;
    ApartIffNoneClashes(m, all, BlocksOf(m, occupied) + BlocksOf(m, free));
    assert forall k :: 0 <= k < |free| ==> all[n + k] == free[k];
    assert forall k :: 0 <= k < n ==> all[k] == occupied[k];
    assert forall k :: 0 <= k < |all| ==> all[k] == if k < n then occupied[k] else free[k - n];
  }

  // ---------------------------------------------------------------- the allocator

  class FirstFitAllocator {
    const len: nat
    const start: nat
    const end: nat
    const chunks: array<Chunk>
    var occupiedHead: int
    var freeHead: int
    ghost var free: seq<int>
    ghost var occupied: seq<int>

    ghost predicate Valid()
      reads this, chunks
    {
      && chunks.Length == len
      && IsTable(chunks[..], freeHead, free, occupiedHead, occupied)
    }

    /** The pool that the slot table represents. */
    ghost function Contents(): Pool
      requires Valid()
      reads this, chunks
    {
      Pool(start, end, len, BlocksOf(chunks[..], free), BlocksOf(chunks[..], occupied))
    }

    constructor Initialize(len: nat, start: nat, end: nat)
      requires 1 <= len <= 0x7fff_ffff && 0 < start < end
      ensures Valid() && Contents() == Fresh(start, end, len)
    {
      this.len, this.start, this.end := len, start, end;
      var a := new Chunk[len];
      chunks := a;
      new;
      for i := 0 to len
        invariant forall j :: 0 <= j < i ==> chunks[j] == Chunk(0, 0, -1)
      {
        chunks[i] := Chunk(0, 0, -1);
      }
      occupiedHead := -1;
      freeHead := 0;
      chunks[freeHead] := chunks[freeHead].(start := start);
      chunks[freeHead] := chunks[freeHead].(end := end);
      chunks[freeHead] := chunks[freeHead].(next := -1);
      free, occupied := [0], [];
      assert BlocksOf(chunks[..], free) == [Block(start, end)];
    }

    // Field assignments to one slot.

    method SetStart(i: int, value: nat)
      requires 0 <= i < chunks.Length
      modifies chunks
      ensures chunks[..] == old(chunks[..])[i := old(chunks[..])[i].(start := value)]
    {
      chunks[i] := chunks[i].(start := value);
    }

    method SetEnd(i: int, value: nat)
      requires 0 <= i < chunks.Length
      modifies chunks
      ensures chunks[..] == old(chunks[..])[i := old(chunks[..])[i].(end := value)]
    {
      chunks[i] := chunks[i].(end := value);
    }

    method SetNext(i: int, value: int)
      requires 0 <= i < chunks.Length
      modifies chunks
      ensures chunks[..] == old(chunks[..])[i := old(chunks[..])[i].(next := value)]
    {
      chunks[i] := chunks[i].(next := value);
    }

    method FindFreeNode() returns (node: int)
      requires chunks.Length == len
      ensures node == -1 <==> forall j :: 0 <= j < len ==> chunks[j].start != 0
      ensures node != -1 ==> 0 <= node < len && chunks[node].start == 0
    {
      for i := 0 to len
        invariant forall j :: 0 <= j < i ==> chunks[j].start != 0
      {
        if chunks[i].start == 0 {
          return i;
        }
      }
      return -1;
    }

    lemma RoomIffUnusedSlot()
      requires Valid()
      ensures Contents().Room() <==> exists j :: 0 <= j < len && chunks[j].start == 0
    {
      SlotCount(chunks[..], freeHead, free, occupiedHead, occupied);
      assert forall j :: 0 <= j < len ==> chunks[..][j] == chunks[j];
    }

    method FindOccupiedMemoryRegionNode(address: nat) returns (node: int, ghost k: nat)
      requires Valid()
      ensures node == At(occupied, FirstHolding(Contents().occupied, address))
      ensures k == FirstHolding(Contents().occupied, address)
    {
      node, k := occupiedHead, 0;
      while node >= 0
        invariant k <= |occupied| && node == At(occupied, k)
        invariant forall j :: 0 <= j < k ==> !Holds(Contents().occupied[j], address)
        decreases |occupied| - k
      {
        assert Contents().occupied[k] == BlockOf(chunks[node]);
        if address == chunks[node].start || (address >= chunks[node].start && address < chunks[node].end) {
          FirstIs(Contents().occupied, (b: Block) => Holds(b, address), k);
          return;
        }
        assert Follows(chunks[..], occupied, k);
        node, k := chunks[node].next, k + 1;
      }
      FirstIs(Contents().occupied, (b: Block) => Holds(b, address), k);
      node := -1;
    }

    /** The search half of AllocateMemoryRegionNode: the last occupied slot not above address, and its successor. */
    method FindOccupiedPosition(address: nat) returns (i: int, previous: int, ghost k: nat)
      requires IsChain(chunks[..], occupiedHead, occupied)
      ensures k == FirstAfter(BlocksOf(chunks[..], occupied), address)
      ensures i == At(occupied, FirstAfter(BlocksOf(chunks[..], occupied), address)) && previous == Before(occupied, k)
    {
      ghost var blocks := BlocksOf(chunks[..], occupied);
      i, previous, k := occupiedHead, -1, 0;
      while i >= 0
        invariant k <= |occupied| && i == At(occupied, k) && previous == Before(occupied, k)
        invariant forall j :: 0 <= j < k ==> !(blocks[j].start > address)
        decreases |occupied| - k
      {
        assert blocks[k] == BlockOf(chunks[..][occupied[k]]);
        assert Follows(chunks[..], occupied, k);
        if chunks[i].start > address {
          break;
        }
        previous, i, k := i, chunks[i].next, k + 1;
      }
      FirstIs(blocks, (b: Block) => b.start > address, k);
    }

    /** The linking half of AllocateMemoryRegionNode. */
    method LinkOccupied(node: int, i: int, previous: int, start: nat, size: nat, ghost k: nat)
      requires IsChain(chunks[..], occupiedHead, occupied)
      requires 0 <= node < chunks.Length && node !in occupied
      requires k <= |occupied| && i == At(occupied, k) && previous == Before(occupied, k)
      modifies this`occupiedHead, this`occupied, chunks
      ensures chunks[..] == Link(old(chunks[..]), old(occupied), k, node, Block(start, start + size))
      ensures occupied == InsertAt(old(occupied), k, node)
      ensures occupiedHead == if k == 0 then node else old(occupiedHead)
    {
      ghost var m := chunks[..];
      if previous == -1 {
        occupiedHead := node;
        SetNext(node, i);
      } else if i == -1 {
        SetNext(previous, node);
        SetNext(node, -1);
      } else {
        SetNext(previous, node);
        SetNext(node, i);
      }
      SetStart(node, start);
      SetEnd(node, start + size);
      assert chunks[..] == Link(m, occupied, k, node, Block(start, start + size));
      occupied := InsertAt(occupied, k, node);
    }

    /** Stores [start, start+size) in slot freeNode, or in an unused slot when freeNode is -1, and links
        that slot into the occupied chain. A slot that came from the free chain is not unlinked from it,
        except from its head. */
    method AllocateMemoryRegionNode(freeNode: int, start: nat, size: nat) returns (node: int)
      requires Valid()
      requires freeNode == -1 || freeNode in free
      modifies this`occupiedHead, this`freeHead, this`occupied, chunks
      ensures node == -1 <==> freeNode == -1 && !old(Contents().Room())
      ensures node == -1 ==> unchanged(this) && unchanged(chunks)
      ensures node != -1 ==>
        var k := FirstAfter(old(Contents().occupied), start);
        && (if freeNode == -1 then 0 <= node < len && old(chunks[..])[node].start == 0 else node == freeNode)
        && chunks[..] == Link(old(chunks[..]), old(occupied), k, node, Block(start, start + size))
        && occupied == InsertAt(old(occupied), k, node)
        && occupiedHead == (if k == 0 then node else old(occupiedHead))
        && freeHead == (if node == old(freeHead) then old(chunks[..])[node].next else old(freeHead))
    {
      RoomIffUnusedSlot();
      node := freeNode;
      if node == -1 {
        node := FindFreeNode();
      }
      if node == -1 {
        return;
      }
      assert UsedIffOnChain(chunks[..], free, occupied, node);
      if node == freeHead {
        freeHead := chunks[freeHead].next;
      }
      var i, previous, k := FindOccupiedPosition(start);
      LinkOccupied(node, i, previous, start, size, k);
    }

    /** Moves slot free[k] to the occupied list. */
    method MoveNodeFromFeeListToOccupied(freeNode: int, previousFreeNode: int, ghost k: nat) returns (node: int)
      requires Valid()
      requires k < |free| && freeNode == free[k] && previousFreeNode == Before(free, k)
      modifies this, chunks
      ensures node == freeNode
      ensures Valid()
      ensures var p := old(Contents());
        Contents() == p.(free := Remove(p.free, k), occupied := Insert(p.occupied, p.free[k]))
    {
      ghost var m, freeHead0, occupiedHead0, occupied0 := chunks[..], freeHead, occupiedHead, occupied;
      ghost var q := FirstAfter(Contents().occupied, chunks[freeNode].start);
      assert Follows(m, free, k);
      var nextFreeNode := chunks[freeNode].next;
      var start := chunks[freeNode].start;
      var end := chunks[freeNode].end;
      var size := end - start;
      assert m[free[k]] == chunks[freeNode] && BlockOf(m[free[k]]) == Block(start, start + size);
      assert Contents().free[k] == BlockOf(m[free[k]]);
      node := AllocateMemoryRegionNode(freeNode, start, size);
      ghost var m1 := chunks[..];
      if previousFreeNode != -1 {
        SetNext(previousFreeNode, nextFreeNode);
      }
      ghost var free0 := free;
      assert m1 == Link(m, occupied0, q, free0[k], BlockOf(m[free0[k]]));
      free := Remove(free, k);
      assert freeHead == if k == 0 then At(free0, 1) else freeHead0 by {
        assert freeHead0 == At(free0, 0) && Follows(m, free0, k);
      }
      MoveFacts(m, m1, chunks[..], freeHead0, free0, k, occupiedHead0, occupied0, q);
    }

    method Allocate(size: nat) returns (address: nat)
      requires Valid()
      modifies this, chunks
      ensures Valid()
      ensures (address, Contents()) == Allocated(old(Contents()), size)
    {
      address := 0;
      if size == 0 || freeHead == -1 {
        return;
      }
      var i, previous := freeHead, -1;
      ghost var k := 0;
      ghost var p, m := Contents(), chunks[..];
      while i >= 0
        invariant k <= |free| && i == At(free, k) && previous == Before(free, k)
        invariant forall j :: 0 <= j < k ==> !(p.free[j].Size() >= size)
        decreases |free| - k
      {
        assert p.free[k] == BlockOf(m[free[k]]);
        var slotSize := chunks[i].end - chunks[i].start;
        if slotSize >= size {
          address := AllocateFrom(i, previous, size, slotSize, k);
          return;
        }
        assert Follows(m, free, k);
        previous, i := i, chunks[i].next;
        k := k + 1;
      }
      FirstIs(p.free, (b: Block) => b.Size() >= size, k);
    }

    /** The body of Allocate for the first free node that is long enough. */
    method AllocateFrom(i: int, previous: int, size: nat, slotSize: int, ghost k: nat) returns (address: nat)
      requires Valid()
      requires k < |free| && i == free[k] && previous == Before(free, k)
      requires 0 < size <= slotSize == Contents().free[k].Size()
      requires forall j :: 0 <= j < k ==> !(Contents().free[j].Size() >= size)
      modifies this, chunks
      ensures Valid()
      ensures (address, Contents()) == Allocated(old(Contents()), size)
    {
      ghost var p, b := Contents(), Contents().free[k];
      assert b == BlockOf(chunks[..][free[k]]);
      AllocatedAt(p, size, k);
      address := chunks[i].start;
      var node := -1;
      if slotSize == size {
        assert b == Block(b.start, b.start + size);
        node := MoveNodeFromFeeListToOccupied(i, previous, k);
      } else {
        node := AllocateSplit(i, size, k);
      }
      if node < 0 {
        address := 0;
      }
    }

    /** The branch of Allocate that cuts size addresses off the front of a longer free node. */
    method AllocateSplit(i: int, size: nat, ghost k: nat) returns (node: int)
      requires Valid()
      requires k < |free| && i == free[k] && 0 < size < Contents().free[k].Size()
      modifies this, chunks
      ensures Valid()
      ensures var p := old(Contents());
        var b := p.free[k];
        if p.Room() then
          && node >= 0
          && Contents() == p.(free := CutFront(p.free, k, size),
                              occupied := Insert(p.occupied, Block(b.start, b.start + size)))
        else node == -1 && Contents() == p
    {
      ghost var m, b := chunks[..], Contents().free[k];
      ghost var occupied0, occupiedHead0, freeHead0 := occupied, occupiedHead, freeHead;
      assert b == BlockOf(m[i]) && i in free;
      assert UsedIffOnChain(m, free, occupied, i);
      ghost var q := FirstAfter(Contents().occupied, b.start);
      node := AllocateMemoryRegionNode(-1, chunks[i].start, size);
      if node >= 0 {
        LinkTable2(m, freeHead0, free, occupiedHead0, occupied0, q, node, Block(b.start, b.start + size));
        assert freeHead == freeHead0;
        ghost var m1 := chunks[..];
        assert chunks[i] == m1[i] && BlockOf(m1[i]) == b;
        SetStart(i, chunks[i].start + size);
        assert chunks[..] == m1[free[k] := Chunk(b.start + size, b.end, m1[free[k]].next)];
        Rewrite(m1, chunks[..], freeHead, free, occupiedHead, occupied, k, Block(b.start + size, b.end));
      }
    }

    /** The body of the merge: the node before i takes over its block, and slot i is cleared. */
    method MergeNode(i: int, previous: int, ghost k: nat)
      requires Valid()
      requires 0 < k < |free| && i == free[k] && previous == free[k-1]
      requires chunks[previous].end == chunks[i].start
      modifies this`free, chunks
      ensures Valid()
      ensures free == Remove(old(free), k)
      ensures var p := old(Contents()); Contents() == p.(free := Merged(p.free, k))
    {
      ghost var m, free0, b0, b1 := chunks[..], free, Contents().free[k-1], Contents().free[k];
      assert b0 == BlockOf(m[previous]) && b1 == BlockOf(m[i]);
      assert m[previous].start <= m[previous].end && m[i].start <= m[i].end;
      assert UsedIffOnChain(m, free, occupied, previous) && free[k-1] in free;
      assert Follows(m, free, k);
      SetEnd(previous, chunks[i].end);
      SetNext(previous, chunks[i].next);
      SetStart(i, 0);
      SetEnd(i, 0);
      SetNext(i, -1);
      free := Remove(free, k);
      MergeTable(m, chunks[..], freeHead, free0, occupiedHead, occupied, k);
    }

    lemma NextFree(k: nat)
      requires Valid() && k < |free|
      ensures 0 <= free[k] < chunks.Length && chunks[free[k]].next == At(free, k + 1)
    {
      assert Follows(chunks[..], free, k);
    }

    /** The branch of the merge loop: node i is merged into its predecessor, to which the cursor steps back, if the
        two touch. */
    method CombineAt(i: int, previous: int, ghost k: nat, ghost bs0: seq<Block>) returns (cursor: int, ghost q: nat)
      requires Valid()
      requires k < |free| && i == free[k] && previous == Before(free, k)
      requires CoalescedUpTo(bs0, Contents().free, k)
      modifies this`free, chunks
      ensures Valid()
      ensures q < |free| && cursor == free[q] && |free| - q == |old(free)| - k
      ensures CoalescedUpTo(bs0, Contents().free, q + 1)
      ensures Contents() == old(Contents()).(free := Contents().free)
    {
      ghost var bs := Contents().free;
      assert bs[k] == BlockOf(chunks[..][i]) && (k > 0 ==> bs[k-1] == BlockOf(chunks[..][previous]));
      cursor, q := i, k;
      if previous != -1 && chunks[previous].end == chunks[i].start {
        MergeNode(i, previous, k);
        CoalesceMerge(bs0, bs, k);
        cursor, q := previous, k - 1;
      } else {
        CoalesceSkip(bs0, bs, k);
      }
    }

    /** Merges free nodes that touch; after a merge the cursor steps back, so that the merged node is
        compared with its new successor. */
    method CombineAdjacentFreeNodes()
      requires Valid()
      modifies this`free, chunks
      ensures Valid()
      ensures var p := old(Contents()); Contents() == p.(free := Coalesce(p.free))
    {
      var i, previous := freeHead, -1;
      ghost var k: nat := 0;
      ghost var p := Contents();
      assert p.free[0..] == p.free;
      while i >= 0
        invariant Valid()
        invariant k <= |free| && i == At(free, k) && previous == Before(free, k)
        invariant Contents() == p.(free := Contents().free)
        invariant CoalescedUpTo(p.free, Contents().free, k)
        decreases |free| - k
      {
        i, k := CombineAt(i, previous, k, p.free);
        NextFree(k);
        previous, i := i, chunks[i].next;
        k := k + 1;
      }
    }

    /** The search of AddFreedRegionToFreeList for the first free node above address. */
    method FindFreePosition(address: nat) returns (i: int, previous: int, ghost k: nat)
      requires IsChain(chunks[..], freeHead, free)
      ensures k == FirstAfter(BlocksOf(chunks[..], free), address)
      ensures i == At(free, FirstAfter(BlocksOf(chunks[..], free), address)) && previous == Before(free, k)
    {
      ghost var blocks := BlocksOf(chunks[..], free);
      i, previous, k := freeHead, -1, 0;
      while i >= 0
        invariant k <= |free| && i == At(free, k) && previous == Before(free, k)
        invariant forall j :: 0 <= j < k ==> !(blocks[j].start > address)
        decreases |free| - k
      {
        assert blocks[k] == BlockOf(chunks[..][free[k]]);
        assert Follows(chunks[..], free, k);
        if chunks[i].start > address {
          break;
        }
        previous, i, k := i, chunks[i].next, k + 1;
      }
      FirstIs(blocks, (b: Block) => b.start > address, k);
    }

    /** Stores [start, start+size) in unused slot node and links it into the free chain. */
    method LinkFree(node: int, i: int, previous: int, start: nat, size: nat, ghost k: nat)
      requires Valid()
      requires 0 <= node < len && chunks[node].start == 0 && 0 < start
      requires k <= |free| && i == At(free, k) && previous == Before(free, k)
      modifies this`freeHead, this`free, chunks
      ensures Valid()
      ensures var p := old(Contents()); Contents() == p.(free := InsertAt(p.free, k, Block(start, start + size)))
    {
      ghost var m, freeHead0, free0 := chunks[..], freeHead, free;
      if previous == -1 {
        SetNext(node, freeHead);
        freeHead := node;
      } else if i == -1 {
        SetNext(previous, node);
        SetNext(node, -1);
      } else {
        SetNext(previous, node);
        SetNext(node, i);
      }
      SetStart(node, start);
      SetEnd(node, start + size);
      free := InsertAt(free, k, node);
      assert m[node].start == 0 && UsedIffOnChain(m, free0, occupied, node);
      assert chunks[..] == Link(m, free0, k, node, Block(start, start + size));
      LinkTable(m, freeHead0, free0, occupiedHead, occupied, k, node, Block(start, start + size));
    }

    /** Extends a free node that touches [start, start+size), or else stores the region in a new node. */
    method AddFreedRegionToFreeList(start: nat, size: nat) returns (code: int)
      requires Valid() && 0 < start
      modifies this`freeHead, this`free, chunks
      ensures Valid()
      ensures (code, Contents()) == Returned(old(Contents()), start, size)
    {
      var i, k := FindTouchingNode(start, size);
      if i >= 0 {
        ExtendFreeNode(i, start, size, k);
        return 0;
      }
      code := StoreFreedRegion(start, size);
    }

    /** The search of AddFreedRegionToFreeList for a free node that touches the region. */
    method FindTouchingNode(start: nat, size: nat) returns (i: int, ghost k: nat)
      requires Valid()
      ensures i == At(free, FirstTouching(Contents().free, start, start + size))
      ensures k == FirstTouching(Contents().free, start, start + size)
    {
      ghost var blocks := Contents().free;
      i, k := freeHead, 0;
      while i >= 0
        invariant k <= |free| && i == At(free, k)
        invariant forall j :: 0 <= j < k ==> !Touches(blocks[j], start, start + size)
        decreases |free| - k
      {
        assert blocks[k] == BlockOf(chunks[..][free[k]]);
        if start + size == chunks[i].start || chunks[i].end == start {
          break;
        }
        assert Follows(chunks[..], free, k);
        i, k := chunks[i].next, k + 1;
      }
      FirstIs(blocks, (b: Block) => Touches(b, start, start + size), k);
    }

    /** The second half of AddFreedRegionToFreeList: a new node for a region that touches no free node. */
    method StoreFreedRegion(start: nat, size: nat) returns (code: int)
      requires Valid() && 0 < start
      modifies this`freeHead, this`free, chunks
      ensures Valid()
      ensures var p := old(Contents());
        if p.Room() then code == 0 && Contents() == p.(free := Coalesce(Insert(p.free, Block(start, start + size))))
        else code == -1 && Contents() == p
    {
      RoomIffUnusedSlot();
      var node := FindFreeNode();
      if node < 0 {
        return node;
      }
      var next, previous, q := FindFreePosition(start);
      LinkFree(node, next, previous, start, size, q);
      CombineAdjacentFreeNodes();
      return 0;
    }

    /** The two merges of AddFreedRegionToFreeList; a region in front of the node is tried first. */
    method ExtendFreeNode(i: int, start: nat, size: nat, ghost k: nat)
      requires Valid()
      requires k < |free| && i == free[k] && 0 < start
      requires Touches(Contents().free[k], start, start + size)
      modifies chunks
      ensures Valid()
      ensures var p := old(Contents());
        Contents() == p.(free := p.free[k := Absorb(p.free[k], start, start + size)])
    {
      ghost var m, b := chunks[..], Contents().free[k];
      assert b == BlockOf(m[i]) && m[i].start <= m[i].end && free[k] in free;
      assert UsedIffOnChain(m, free, occupied, i);
      if start + size == chunks[i].start {
        SetStart(i, start);
      } else {
        SetEnd(i, start + size);
      }
      Rewrite(m, chunks[..], freeHead, free, occupiedHead, occupied, k, Absorb(b, start, start + size));
    }

    /** Unlinks and clears the given slot of the occupied chain. */
    method FreeOccupiedRegionNode(node: int) returns (code: int, ghost k: nat)
      requires Valid()
      modifies this`occupiedHead, this`occupied, chunks
      ensures Valid()
      ensures code == 0 <==> node in old(occupied)
      ensures code == 0 ==> k < |old(occupied)| && old(occupied)[k] == node
      ensures code == 0 ==> (var p := old(Contents()); Contents() == p.(occupied := Remove(p.occupied, k)))
      ensures code != 0 ==> code == -1 && unchanged(this) && unchanged(chunks)
    {
      ghost var m, occupied0, occupiedHead0 := chunks[..], occupied, occupiedHead;
      var i, previous := occupiedHead, -1;
      k := 0;
      while i >= 0
        invariant k <= |occupied| && i == At(occupied, k) && previous == Before(occupied, k)
        invariant forall j :: 0 <= j < k ==> occupied[j] != node
        decreases |occupied| - k
      {
        if i == node {
          break;
        }
        assert Follows(m, occupied, k);
        previous, i, k := i, chunks[i].next, k + 1;
      }
      if i == -1 {
        return -1, k;
      }
      assert Follows(m, occupied, k);
      if previous == -1 {
        occupiedHead := chunks[i].next;
      } else {
        SetNext(previous, chunks[i].next);
      }
      SetStart(i, 0);
      SetEnd(i, 0);
      SetNext(i, -1);
      occupied := Remove(occupied, k);
      assert chunks[..] == Unlink(m, occupied0, k);
      SwapTable(m, freeHead, free, occupiedHead0, occupied0);
      UnlinkTable(m, occupiedHead0, occupied0, freeHead, free, k);
      SwapTable(chunks[..], occupiedHead, occupied, freeHead, free);
      return 0, k;
    }

    method Free(start: nat, size: nat) returns (code: int)
      requires Valid()
      modifies this, chunks
      ensures Valid()
      ensures (code, Contents()) == Freed(old(Contents()), start, size)
    {
      var node, k := FindOccupiedMemoryRegionNode(start);
      if node < 0 {
        return node;
      }
      ghost var p, m := Contents(), chunks[..];
      assert p.occupied[k] == BlockOf(m[occupied[k]]) && occupied[k] in occupied;
      assert UsedIffOnChain(m, free, occupied, node);
      var nodeSize := chunks[node].end - chunks[node].start;
      if nodeSize < size {
        return -2;
      }
      if nodeSize == size {
        ghost var q;
        code, q := FreeOccupiedRegionNode(node);
        if code < 0 {
          return;
        }
        assert q == k;
      } else {
        SetStart(node, chunks[node].start + size);
        SwapTable(m, freeHead, free, occupiedHead, occupied);
        Rewrite(m, chunks[..], occupiedHead, occupied, freeHead, free, k,
                Block(p.occupied[k].start + size, p.occupied[k].end));
        SwapTable(chunks[..], occupiedHead, occupied, freeHead, free);
      }
      assert Contents() == Detached(p, k, size);
      code := AddFreedRegionToFreeList(start, size);
    }

    method GetFreeSpace() returns (sum: int)
      requires Valid()
      ensures sum == TotalSize(Contents().free)
    {
      sum := ChainSize(freeHead, free);
    }

    /** The summing loop, over the free or the occupied chain. */
    method ChainSize(head: int, ghost ix: seq<int>) returns (sum: int)
      requires IsChain(chunks[..], head, ix)
      ensures sum == TotalSize(BlocksOf(chunks[..], ix))
    {
      ghost var blocks := BlocksOf(chunks[..], ix);
      sum := 0;
      var i := head;
      ghost var k := 0;
      while i >= 0
        invariant k <= |ix| && i == At(ix, k)
        invariant sum == TotalSize(blocks[..k])
        decreases |ix| - k
      {
        assert blocks[k] == BlockOf(chunks[..][ix[k]]) && Follows(chunks[..], ix, k);
        TotalSizeAppend(blocks[..k], blocks[k]);
        assert blocks[..k+1] == blocks[..k] + [blocks[k]];
        sum := sum + (chunks[i].end - chunks[i].start);
        i, k := chunks[i].next, k + 1;
      }
      assert blocks[..k] == blocks;
    }

    method GetTopAddress() returns (top: nat)
      requires Valid()
      ensures start <= top
      ensures forall b <- Contents().occupied :: b.end <= top
      ensures top == start || exists b <- Contents().occupied :: b.end == top
    {
      ghost var blocks := Contents().occupied;
      top := start;
      var i := occupiedHead;
      ghost var k := 0;
      while i >= 0
        invariant k <= |occupied| && i == At(occupied, k)
        invariant start <= top
        invariant forall j :: 0 <= j < k ==> blocks[j].end <= top
        invariant top == start || exists j :: 0 <= j < k && blocks[j].end == top
        decreases |occupied| - k
      {
        assert blocks[k] == BlockOf(chunks[..][occupied[k]]) && Follows(chunks[..], occupied, k);
        if chunks[i].end > top {
          top := chunks[i].end;
        }
        i, k := chunks[i].next, k + 1;
      }
    }

    method Contains(address: nat) returns (r: bool)
      ensures r <==> start <= address < end
    {
      r := address >= start && address < end;
    }

    /** The inner loop of the overlap test: does another node of the chain overlap slot i? */
    method OverlapsChain(i: int, head: int, ghost ix: seq<int>) returns (r: bool)
      requires IsChain(chunks[..], head, ix) && 0 <= i < chunks.Length
      ensures r <==> exists j :: 0 <= j < |ix| && ix[j] != i && Overlap(BlockOf(chunks[i]), BlockOf(chunks[ix[j]]))
    {
      r := false;
      var j := head;
      ghost var k := 0;
      while j >= 0
        invariant k <= |ix| && j == At(ix, k)
        invariant r <==> exists q :: 0 <= q < k && ix[q] != i && Overlap(BlockOf(chunks[i]), BlockOf(chunks[ix[q]]))
        decreases |ix| - k
      {
        assert Follows(chunks[..], ix, k);
        if i != j &&
           ((chunks[i].start >= chunks[j].start && chunks[i].start < chunks[j].end) ||
            (chunks[j].start >= chunks[i].start && chunks[j].start < chunks[i].end)) {
          r := true;
        }
        j, k := chunks[j].next, k + 1;
      }
    }

    /** One outer loop of the overlap test: does some node of the chain overlap another node of either chain? */
    method ChainOverlaps(head: int, ghost ix: seq<int>) returns (r: bool)
      requires Valid() && IsChain(chunks[..], head, ix)
      ensures r <==> exists k :: 0 <= k < |ix| && Clashes(chunks[..], occupied + free, ix[k])
    {
      r := false;
      var i := head;
      ghost var k := 0;
      while i >= 0
        invariant k <= |ix| && i == At(ix, k)
        invariant r <==> exists q :: 0 <= q < k && Clashes(chunks[..], occupied + free, ix[q])
        decreases |ix| - k
      {
        assert Follows(chunks[..], ix, k);
        var withOccupied := OverlapsChain(i, occupiedHead, occupied);
        var withFree := OverlapsChain(i, freeHead, free);
        ClashesEither(chunks[..], occupied, free, i);
        r := r || withOccupied || withFree;
        i, k := chunks[i].next, k + 1;
      }
    }

    method IsValidDataStructure() returns (r: bool)
      requires Valid()
      ensures r <==> Consistent(Contents())
    {
      var overlap := ChainOverlaps(occupiedHead, occupied);
      var overlapFree := ChainOverlaps(freeHead, free);
      ApartIffNoClash(chunks[..], occupied, free);
      if overlap || overlapFree {
        return false;
      }
      var expectedSize := end - start;
      var occupiedSize := ChainSize(occupiedHead, occupied);
      var freeSize := ChainSize(freeHead, free);
      return occupiedSize + freeSize == expectedSize;
    }
  }
}
