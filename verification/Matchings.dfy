/** Matchings of a bipartite graph, and the vertex covers that bound their size. */
module Matchings {
  /** A set of (left, right) pairs: the edges of a bipartite graph, or some of them. */
  type Pairs = set<(int, int)>

  /** No left node and no right node occurs twice. */
  ghost predicate Disjoint(m: Pairs) {
    forall e, f :: e in m && f in m && e != f ==> e.0 != f.0 && e.1 != f.1
  }

  ghost predicate IsMatching(edges: Pairs, m: Pairs) { m <= edges && Disjoint(m) }

  ghost predicate IsMaximum(edges: Pairs, m: Pairs) {
    IsMatching(edges, m) && forall n :: IsMatching(edges, n) ==> |n| <= |m|
  }

  ghost predicate Covered(m: Pairs, lefts: set<int>, rights: set<int>) {
    forall e :: e in m ==> e.0 in lefts || e.1 in rights
  }

  /** A matching has no more pairs than a cover of it has nodes. */
  lemma {:induction false} CoverBound(m: Pairs, lefts: set<int>, rights: set<int>)
    requires Disjoint(m) && Covered(m, lefts, rights)
    ensures |m| <= |lefts| + |rights|
    decreases |m|
  {
    if m != {} {
      var e :| e in m;
      if e.0 in lefts {
        CoverBound(m - {e}, lefts - {e.0}, rights);
      } else {
        CoverBound(m - {e}, lefts, rights - {e.1});
      }
    }
  }

  /** A cover with as many nodes as the matching meets every pair in exactly one node. */
  lemma TightCover(m: Pairs, lefts: set<int>, rights: set<int>, e: (int, int))
    requires Disjoint(m) && Covered(m, lefts, rights) && |lefts| + |rights| == |m|
    requires e in m
    ensures !(e.0 in lefts && e.1 in rights)
  {
    if e.0 in lefts && e.1 in rights {
      CoverBound(m - {e}, lefts - {e.0}, rights - {e.1});
    }
  }

  function Lefts(m: Pairs): set<int> { set e <- m :: e.0 }

  function Rights(m: Pairs): set<int> { set e <- m :: e.1 }

  /** A matching has as many left nodes, and as many right nodes, as pairs. */
  lemma {:induction false} MatchingSides(m: Pairs)
    requires Disjoint(m)
    ensures |Lefts(m)| == |m| == |Rights(m)|
    decreases |m|
  {
    if m != {} {
      var e :| e in m;
      MatchingSides(m - {e});
      assert Lefts(m) == Lefts(m - {e}) + {e.0};
      assert Rights(m) == Rights(m - {e}) + {e.1};
    }
  }

  /** Koenig's exchange: when the partners of the matched right nodes in seen leave the cover and those right
      nodes enter it, the size of the cover stays the same. */
  lemma {:induction false} Exchange(m: Pairs, seen: Pairs, lefts: set<int>, rights: set<int>)
    requires Disjoint(m) && seen <= m
    requires forall e <- seen :: e.0 in lefts <==> e.1 !in rights
    ensures |lefts - Lefts(seen)| + |rights + Rights(seen)| == |lefts| + |rights|
    decreases |seen|
  {
    if seen == {} {
      assert lefts - Lefts(seen) == lefts && rights + Rights(seen) == rights;
    } else {
      var e :| e in seen;
      var rest := seen - {e};
      Exchange(m, rest, lefts, rights);
      LastPair(seen, e);
      Drop(lefts, Lefts(rest), e.0);
      Add(rights, Rights(rest), e.1);
    }
  }

  lemma LastPair(m: Pairs, e: (int, int))
    requires Disjoint(m) && e in m
    ensures Lefts(m) == Lefts(m - {e}) + {e.0} && e.0 !in Lefts(m - {e})
    ensures Rights(m) == Rights(m - {e}) + {e.1} && e.1 !in Rights(m - {e})
  {
  }

  lemma Drop(s: set<int>, t: set<int>, x: int)
    requires x !in t
    ensures |s - (t + {x})| == |s - t| - if x in s then 1 else 0
  {
    if x in s {
      assert s - (t + {x}) == (s - t) - {x} && x in s - t;
    } else {
      assert s - (t + {x}) == s - t;
    }
  }

  lemma Add(s: set<int>, t: set<int>, x: int)
    requires x !in t
    ensures |s + (t + {x})| == |s + t| + if x in s then 0 else 1
  {
    if x in s {
      assert s + (t + {x}) == s + t;
    } else {
      assert s + (t + {x}) == (s + t) + {x} && x !in s + t;
    }
  }
}
