/** The decision procedure of googlemock's UnorderedElementsAre, IsSupersetOf and IsSubsetOf. */
module UnorderedElementsAre {
  import opened Sets
  import opened Matchings
  import opened MatchMatrix
  import opened MaxBipartiteMatchState

  /** The match flags: Superset demands an element for every matcher, Subset a matcher for every element. */
  datatype Require = Superset | Subset | ExactMatch
  {
    predicate EveryMatcher() { this != Subset }

    predicate EveryElement() { this != Superset }
  }

  /** A matching that leaves out no node of the sides that the flags demand. */
  ghost predicate Saturates(flags: Require, elements: nat, matchers: nat, m: Pairs) {
    && (flags.EveryMatcher() ==> forall r :: 0 <= r < matchers ==> r in Rights(m))
    && (flags.EveryElement() ==> forall l :: 0 <= l < elements ==> l in Lefts(m))
  }

  ghost predicate Pairable(flags: Require, elements: nat, matchers: nat, edges: Pairs) {
    exists m :: IsMatching(edges, m) && Saturates(flags, elements, matchers, m)
  }

  ghost predicate Within(edges: Pairs, elements: nat, matchers: nat) {
    forall e <- edges :: 0 <= e.0 < elements && 0 <= e.1 < matchers
  }

  method FindMaxBipartiteMatching(g: Matrix) returns (pairs: seq<(int, int)>)
    requires g.Valid()
    ensures IsMaximum(g.Edges(), Elements(pairs)) && |pairs| == |Elements(pairs)|
  {
    var state := new MaxBipartiteMatchState(g);
    pairs := state.Compute();
  }

  /** A matching saturates the demanded sides iff it is as large as they are. */
  lemma SaturatesIffLarge(flags: Require, elements: nat, matchers: nat, edges: Pairs, m: Pairs)
    requires Within(edges, elements, matchers) && IsMatching(edges, m)
    ensures Saturates(flags, elements, matchers, m) <==>
            (flags.EveryMatcher() ==> |m| >= matchers) && (flags.EveryElement() ==> |m| >= elements)
  {
    MatchingFits(elements, matchers, edges, m);
    AllIffLarge(Lefts(m), elements);
    AllIffLarge(Rights(m), matchers);
  }

  lemma MatchingFits(elements: nat, matchers: nat, edges: Pairs, m: Pairs)
    requires Within(edges, elements, matchers) && IsMatching(edges, m)
    ensures Lefts(m) <= Span(0, elements) && Rights(m) <= Span(0, matchers)
    ensures |Lefts(m)| == |m| == |Rights(m)|
  {
    MatchingSides(m);
  }

  lemma AllIffLarge(s: set<int>, n: nat)
    requires s <= Span(0, n)
    ensures |s| <= n
    ensures (forall x :: 0 <= x < n ==> x in s) <==> |s| >= n
  {
    SubsetSize(s, Span(0, n));
    if forall x :: 0 <= x < n ==> x in s { assert s == Span(0, n); }
  }

  /** If any matching saturates the demanded sides, every maximum matching does. */
  lemma MaximumDecides(flags: Require, elements: nat, matchers: nat, edges: Pairs, m: Pairs)
    requires Within(edges, elements, matchers) && IsMaximum(edges, m)
    ensures Pairable(flags, elements, matchers, edges) <==> Saturates(flags, elements, matchers, m)
  {
    if Pairable(flags, elements, matchers, edges) {
      var n :| IsMatching(edges, n) && Saturates(flags, elements, matchers, n);
      SaturatesIffLarge(flags, elements, matchers, edges, n);
      SaturatesIffLarge(flags, elements, matchers, edges, m);
    }
  }

  /** What the flags ask for: IsSupersetOf lets elements be left over, IsSubsetOf lets matchers be left over, and
      UnorderedElementsAre neither. */
  lemma PairableCases(flags: Require, elements: nat, matchers: nat, edges: Pairs)
    ensures flags == Superset ==>
              (Pairable(flags, elements, matchers, edges) <==>
               exists m :: IsMatching(edges, m) && (forall r :: 0 <= r < matchers ==> r in Rights(m)))
    ensures flags == Subset ==>
              (Pairable(flags, elements, matchers, edges) <==>
               exists m :: IsMatching(edges, m) && (forall l :: 0 <= l < elements ==> l in Lefts(m)))
    ensures flags == ExactMatch ==>
              (Pairable(flags, elements, matchers, edges) <==>
               exists m :: IsMatching(edges, m) && (forall r :: 0 <= r < matchers ==> r in Rights(m))
                           && (forall l :: 0 <= l < elements ==> l in Lefts(m)))
  {
    if m :| IsMatching(edges, m) && Saturates(flags, elements, matchers, m) {
      assert Pairable(flags, elements, matchers, edges);
    }
  }

  /** Sizes of the largest matching decide whether a pairing exists. */
  method FindPairing(flags: Require, matrix: Matrix) returns (found: bool)
    requires matrix.Valid()
    ensures found <==> Pairable(flags, matrix.numElements, matrix.numMatchers, matrix.Edges())
    ensures flags == Superset ==> (found <==> exists m ::
              && IsMatching(matrix.Edges(), m)
              && (forall r :: 0 <= r < matrix.numMatchers ==> r in Rights(m)))
    ensures flags == Subset ==> (found <==> exists m ::
              && IsMatching(matrix.Edges(), m)
              && (forall l :: 0 <= l < matrix.numElements ==> l in Lefts(m)))
    ensures flags == ExactMatch ==> (found <==> exists m ::
              && IsMatching(matrix.Edges(), m)
              && (forall r :: 0 <= r < matrix.numMatchers ==> r in Rights(m))
              && (forall l :: 0 <= l < matrix.numElements ==> l in Lefts(m)))
  {
    var matches := FindMaxBipartiteMatching(matrix);
    var maxFlow := |matches|;
    MaximumDecides(flags, matrix.numElements, matrix.numMatchers, matrix.Edges(), Elements(matches));
    SaturatesIffLarge(flags, matrix.numElements, matrix.numMatchers, matrix.Edges(), Elements(matches));
    PairableCases(flags, matrix.numElements, matrix.numMatchers, matrix.Edges());
    if flags.EveryMatcher() && maxFlow < matrix.numMatchers {
      return false;
    }
    if flags.EveryElement() && maxFlow < matrix.numElements {
      return false;
    }
    return true;
  }

  /** No demanded node is without edges. */
  ghost predicate NoneIsolated(flags: Require, elements: nat, matchers: nat, edges: Pairs) {
    && (flags.EveryMatcher() ==> forall r :: 0 <= r < matchers ==> r in Rights(edges))
    && (flags.EveryElement() ==> forall l :: 0 <= l < elements ==> l in Lefts(edges))
  }

  method VerifyMatchMatrix(flags: Require, matrix: Matrix) returns (result: bool)
    requires matrix.Valid()
    ensures result <==> NoneIsolated(flags, matrix.numElements, matrix.numMatchers, matrix.Edges())
    ensures flags == Superset ==>
              (result <==> forall r :: 0 <= r < matrix.numMatchers ==> r in Rights(matrix.Edges()))
    ensures flags == Subset ==>
              (result <==> forall l :: 0 <= l < matrix.numElements ==> l in Lefts(matrix.Edges()))
    ensures flags == ExactMatch ==>
              (result <==> && (forall r :: 0 <= r < matrix.numMatchers ==> r in Rights(matrix.Edges()))
                           && (forall l :: 0 <= l < matrix.numElements ==> l in Lefts(matrix.Edges())))
  {
    var elementMatched := new bool[matrix.numElements](_ => false);
    var matcherMatched := new bool[matrix.numMatchers](_ => false);
    MarkMatched(matrix, elementMatched, matcherMatched);
    result := true;
    if flags.EveryMatcher() {
      for r := 0 to matrix.numMatchers
        invariant result <==> forall j :: 0 <= j < r ==> matcherMatched[j]
      {
        if !matcherMatched[r] {
          result := false;
        }
      }
    }
    ghost var matchersOk := result;
    if flags.EveryElement() {
      for l := 0 to matrix.numElements
        invariant result <==> matchersOk && forall j :: 0 <= j < l ==> elementMatched[j]
      {
        if !elementMatched[l] {
          result := false;
        }
      }
    }
  }

  /** The marking loops of VerifyMatchMatrix: a node is marked iff it has an edge. */
  method MarkMatched(matrix: Matrix, elementMatched: array<bool>, matcherMatched: array<bool>)
    requires matrix.Valid() && elementMatched != matcherMatched
    requires elementMatched.Length == matrix.numElements && matcherMatched.Length == matrix.numMatchers
    requires forall l :: 0 <= l < matrix.numElements ==> !elementMatched[l]
    requires forall r :: 0 <= r < matrix.numMatchers ==> !matcherMatched[r]
    modifies elementMatched, matcherMatched
    ensures forall l :: 0 <= l < matrix.numElements ==> (elementMatched[l] <==> l in Lefts(matrix.Edges()))
    ensures forall r :: 0 <= r < matrix.numMatchers ==> (matcherMatched[r] <==> r in Rights(matrix.Edges()))
  {
    ghost var edges := matrix.Edges();
    for l := 0 to matrix.numElements
      invariant forall i :: 0 <= i < matrix.numElements ==>
        (elementMatched[i] <==> exists e <- edges :: e.0 < l && e.0 == i)
      invariant forall j :: 0 <= j < matrix.numMatchers ==>
        (matcherMatched[j] <==> exists e <- edges :: e.0 < l && e.1 == j)
    {
      for r := 0 to matrix.numMatchers
        invariant forall i :: 0 <= i < matrix.numElements ==>
          (elementMatched[i] <==> exists e <- edges :: Before(e, l, r) && e.0 == i)
        invariant forall j :: 0 <= j < matrix.numMatchers ==>
          (matcherMatched[j] <==> exists e <- edges :: Before(e, l, r) && e.1 == j)
      {
        var matched := matrix.HasEdge(l, r);
        assert matched <==> (l, r) in edges;
        elementMatched[l] := elementMatched[l] || matched;
        matcherMatched[r] := matcherMatched[r] || matched;
        assert forall e <- edges :: Before(e, l, r + 1) <==> Before(e, l, r) || e == (l, r);
      }
      assert forall e <- edges :: Before(e, l, matrix.numMatchers) <==> e.0 < l + 1;
    }
  }

  /** e comes before position (l, r) in row-major order. */
  ghost predicate Before(e: (int, int), l: int, r: int) { e.0 < l || (e.0 == l && e.1 < r) }

  /** The filter is sound: a graph that it rejects has no saturating matching. */
  lemma FilterIsSound(flags: Require, elements: nat, matchers: nat, edges: Pairs)
    ensures Pairable(flags, elements, matchers, edges) ==> NoneIsolated(flags, elements, matchers, edges)
  {
    if Pairable(flags, elements, matchers, edges) {
      var m :| IsMatching(edges, m) && Saturates(flags, elements, matchers, m);
      assert Lefts(m) <= Lefts(edges) && Rights(m) <= Rights(edges);
    }
  }

  /** The whole decision: shortcuts, filter and search together accept iff a saturating matching exists. */
  method MatchAndExplain(flags: Require, matrix: Matrix) returns (result: bool)
    requires matrix.Valid()
    ensures result <==> Pairable(flags, matrix.numElements, matrix.numMatchers, matrix.Edges())
    ensures flags == Superset ==> (result <==> exists m ::
              && IsMatching(matrix.Edges(), m)
              && (forall r :: 0 <= r < matrix.numMatchers ==> r in Rights(m)))
    ensures flags == Subset ==> (result <==> exists m ::
              && IsMatching(matrix.Edges(), m)
              && (forall l :: 0 <= l < matrix.numElements ==> l in Lefts(m)))
    ensures flags == ExactMatch ==> (result <==> exists m ::
              && IsMatching(matrix.Edges(), m)
              && (forall r :: 0 <= r < matrix.numMatchers ==> r in Rights(m))
              && (forall l :: 0 <= l < matrix.numElements ==> l in Lefts(m)))
  {
    FilterIsSound(flags, matrix.numElements, matrix.numMatchers, matrix.Edges());
    PairableCases(flags, matrix.numElements, matrix.numMatchers, matrix.Edges());
    if matrix.numElements == 0 && matrix.numMatchers == 0 {
      assert IsMatching(matrix.Edges(), {}) && Saturates(flags, 0, 0, {});
      return true;
    }
    if flags == ExactMatch {
      if matrix.numElements != matrix.numMatchers {
        ExactNeedsEqualSizes(matrix.numElements, matrix.numMatchers, matrix.Edges());
        return false;
      }
    }
    result := VerifyMatchMatrix(flags, matrix);
    if result {
      result := FindPairing(flags, matrix);
    }
  }

  lemma ExactNeedsEqualSizes(elements: nat, matchers: nat, edges: Pairs)
    requires Within(edges, elements, matchers)
    ensures Pairable(ExactMatch, elements, matchers, edges) ==> elements == matchers
  {
    if Pairable(ExactMatch, elements, matchers, edges) {
      var m :| IsMatching(edges, m) && Saturates(ExactMatch, elements, matchers, m);
      MatchingFits(elements, matchers, edges, m);
      AllIffLarge(Lefts(m), elements);
      AllIffLarge(Rights(m), matchers);
    }
  }
}
