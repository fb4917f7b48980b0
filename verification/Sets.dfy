/** Finite sets of integers and how many elements they have. */
module Sets {

  /** The integers lo, lo+1, ..., hi-1. */
  ghost function Span(lo: int, hi: int): (s: set<int>)
    requires lo <= hi
    ensures forall x :: x in s <==> lo <= x < hi
    ensures |s| == hi - lo
    decreases hi - lo
  {
    if lo == hi then {} else Span(lo, hi - 1) + {hi - 1}
  }

  lemma SubsetSize<T>(a: set<T>, b: set<T>)
    requires a <= b
    ensures |a| <= |b|
    ensures |a| == |b| ==> a == b
  {
    if a != {} {
      var x :| x in a;
      SubsetSize(a - {x}, b - {x});
    }
  }

  ghost function Elements<T>(s: seq<T>): set<T> {
    set x | x in s
  }

  ghost predicate Distinct<T>(s: seq<T>) {
    forall j, k :: 0 <= j < k < |s| ==> s[j] != s[k]
  }

  lemma DistinctSize<T>(s: seq<T>)
    requires Distinct(s)
    ensures |Elements(s)| == |s|
  {
    if s != [] {
      DistinctSize(s[1..]);
      assert Elements(s) == Elements(s[1..]) + {s[0]};
    }
  }

  lemma DropLast<T>(s: seq<T>, t: seq<T>, x: T)
    requires Distinct(s) && s == t + [x]
    ensures Distinct(t) && x in s && x !in t
    ensures forall y <- t :: y in s
  {
    assert s[|t|] == x && s[..|t|] == t;
    assert forall j :: 0 <= j < |t| ==> s[j] == t[j];
  }
}
