/** The fixed-capacity list of memory intervals, with its in-place exchange sort. */
module MemoryIntervalList {
  datatype MemoryInterval = MemoryInterval(startOffset: int, endOffset: int, pageSize: nat)

  predicate LessThan(lhs: MemoryInterval, rhs: MemoryInterval) { lhs.startOffset < rhs.startOffset }

  ghost predicate Sorted(s: seq<MemoryInterval>) {
    forall i, j :: 0 <= i < j < |s| ==> s[i].startOffset <= s[j].startOffset
  }

  ghost predicate StrictlySorted(s: seq<MemoryInterval>) {
    forall i, j :: 0 <= i < j < |s| ==> s[i].startOffset < s[j].startOffset
  }

  /** Only one sorted order exists when all starts differ. */
  lemma {:induction false} SortedOrderIsUnique(a: seq<MemoryInterval>, b: seq<MemoryInterval>)
    requires Sorted(a) && StrictlySorted(b) && multiset(a) == multiset(b)
    ensures a == b
  {
    assert |a| == |multiset(a)| == |multiset(b)| == |b|;
    if a != [] {
      SameFirst(a, b);
      RestOf(a);
      RestOf(b);
      SortedOrderIsUnique(a[1..], b[1..]);
      assert a == [a[0]] + a[1..] && b == [b[0]] + b[1..];
    }
  }

  lemma SameFirst(a: seq<MemoryInterval>, b: seq<MemoryInterval>)
    requires Sorted(a) && StrictlySorted(b) && multiset(a) == multiset(b) && a != [] && b != []
    ensures a[0] == b[0]
  {
    assert a[0] in multiset(b) && b[0] in multiset(a);
    var i :| 0 <= i < |b| && b[i] == a[0];
    var j :| 0 <= j < |a| && a[j] == b[0];
    assert j > 0 ==> a[0].startOffset <= a[j].startOffset;
    assert i > 0 ==> b[0].startOffset < b[i].startOffset;
  }

  lemma RestOf(a: seq<MemoryInterval>)
    requires a != []
    ensures multiset(a[1..]) == multiset(a) - multiset{a[0]}
  {
    assert a == [a[0]] + a[1..];
  }

  class MemoryIntervalList {
    const capacity: nat
    var length: nat
    const list: array<MemoryInterval>

    ghost predicate Valid()
      reads this
    { list.Length == capacity && length <= capacity }

    ghost function Items(): seq<MemoryInterval>
      requires Valid()
      reads this, list
    { list[..length] }

    constructor Initialize(capacity: nat)
      ensures Valid() && fresh(list) && this.capacity == capacity && Items() == []
    {
      this.capacity := capacity;
      length := 0;
      list := new MemoryInterval[capacity](_ => MemoryInterval(0, 0, 0));
    }

    /** Appends an interval; on a full list the source ends the process, which is reported as !ok here. */
    method AddInterval(startOffset: int, endOffset: int, pageSize: nat) returns (ok: bool)
      requires Valid()
      modifies this, list
      ensures Valid()
      ensures ok <==> old(length) < capacity
      ensures Items() == if ok then old(Items()) + [MemoryInterval(startOffset, endOffset, pageSize)] else old(Items())
    {
      if length == capacity {
        return false;
      }
      list[length] := list[length].(startOffset := startOffset);
      list[length] := list[length].(endOffset := endOffset);
      list[length] := list[length].(pageSize := pageSize);
      length := length + 1;
      return true;
    }

    /** Exchanges two elements field by field. */
    method SwapIntervals(i: int, j: int)
      requires Valid() && 0 <= i < length && 0 <= j < length
      modifies list
      ensures Items() == old(Items())[i := old(list[j])][j := old(list[i])]
    {
      var startOffset := list[i].startOffset;
      list[i] := list[i].(startOffset := list[j].startOffset);
      list[j] := list[j].(startOffset := startOffset);
      var endOffset := list[i].endOffset;
      list[i] := list[i].(endOffset := list[j].endOffset);
      list[j] := list[j].(endOffset := endOffset);
      var pageSize := list[i].pageSize;
      list[i] := list[i].(pageSize := list[j].pageSize);
      list[j] := list[j].(pageSize := pageSize);
    }

    method Sort()
      requires Valid()
      modifies list
      ensures Sorted(Items()) && multiset(Items()) == multiset(old(Items()))
    {
      for i := 0 to length
        invariant multiset(Items()) == multiset(old(Items()))
        invariant LeastFirst(Items(), i)
      {
        PlaceLeast(i);
      }
    }

    /** The inner loop of Sort: exchanges bring the least of the remaining elements to position i. */
    method PlaceLeast(i: int)
      requires Valid() && 0 <= i < length && LeastFirst(Items(), i)
      modifies list
      ensures multiset(Items()) == multiset(old(Items())) && LeastFirst(Items(), i + 1)
    {
      ghost var s0 := Items();
      for j := i to length
        invariant Exchanged(s0, Items(), i, j)
      {
        ghost var s := Items();
        assert s[i] == list[i] && s[j] == list[j];
        if !LessThan(list[i], list[j]) {
          SwapIntervals(i, j);
        }
        ExchangedStep(s0, s, i, j);
      }
    }

    /** s is s0 after the exchanges that bring the least of the elements i to j-1 to position i. */
    static ghost predicate Exchanged(s0: seq<MemoryInterval>, s: seq<MemoryInterval>, i: int, j: int) {
      && |s| == |s0| && multiset(s) == multiset(s0)
      && LeastFirst(s, i)
      && forall k :: 0 <= i <= k < j && k < |s| ==> s[i].startOffset <= s[k].startOffset
    }

    static lemma ExchangedStep(s0: seq<MemoryInterval>, s: seq<MemoryInterval>, i: int, j: int)
      requires Exchanged(s0, s, i, j) && 0 <= i <= j < |s|
      ensures Exchanged(s0, if LessThan(s[i], s[j]) then s else s[i := s[j]][j := s[i]], i, j + 1)
    {
      if !LessThan(s[i], s[j]) {
        var t := s[i := s[j]][j := s[i]];
        assert multiset(t) == multiset(s);
        SwapKeepsLeast(s, i, j);
        forall k | i <= k < j + 1 ensures t[i].startOffset <= t[k].startOffset {
          assert k < j ==> s[i].startOffset <= s[k].startOffset;
        }
      }
    }

    /** Exchanging two elements behind the sorted part keeps that part least. */
    static lemma SwapKeepsLeast(s: seq<MemoryInterval>, i: int, j: int)
      requires 0 <= i <= j < |s| && LeastFirst(s, i)
      ensures LeastFirst(s[i := s[j]][j := s[i]], i)
    {
      var t := s[i := s[j]][j := s[i]];
      forall a, b | 0 <= a < b < |t| && a < i ensures t[a].startOffset <= t[b].startOffset {
        assert t[a] == s[a] && (t[b] == s[b] || t[b] == s[i] || t[b] == s[j]);
      }
    }

    /** The first n elements are sorted, and none of the others is less than any of them. */
    static ghost predicate LeastFirst(s: seq<MemoryInterval>, n: int) {
      forall a, b :: 0 <= a < b < |s| && a < n ==> s[a].startOffset <= s[b].startOffset
    }

    function GetLength(): nat
      reads this
    { length }

    function At(i: int): MemoryInterval
      requires Valid() && 0 <= i < length
      reads this, list
    { list[i] }
  }
}
