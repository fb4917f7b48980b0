/** The augmenting-path search with which googlemock finds a maximum bipartite matching. */
module MaxBipartiteMatchState {
  import opened Sets
  import opened Matchings
  import opened MatchMatrix

  /** Marks a node without flow (the source's size_t(-1)). */
  const UNUSED := -1

  // ---------------------------------------------------------------- flows, as values

  /** left and right name nodes of the other side, or none. */
  ghost predicate Ranged(left: seq<int>, right: seq<int>) {
    && (forall l :: 0 <= l < |left| ==> UNUSED <= left[l] < |right|)
    && (forall r :: 0 <= r < |right| ==> UNUSED <= right[r] < |left|)
  }

  /** left and right are mutually inverse, except that right node stale may name a node that has moved on. */
  ghost predicate InverseBut(left: seq<int>, right: seq<int>, stale: int)
    requires Ranged(left, right)
  {
    && (forall l :: 0 <= l < |left| && left[l] != UNUSED ==> right[left[l]] == l)
    && (forall r :: 0 <= r < |right| && right[r] != UNUSED && r != stale ==> left[right[r]] == r)
  }

  ghost predicate Inverse(left: seq<int>, right: seq<int>)
    requires Ranged(left, right)
  { InverseBut(left, right, UNUSED) }

  ghost predicate UsesEdges(edges: Pairs, left: seq<int>) {
    forall l :: 0 <= l < |left| && left[l] != UNUSED ==> (l, left[l]) in edges
  }

  /** The matching that left describes. */
  ghost function PairsOf(left: seq<int>): Pairs {
    set l | 0 <= l < |left| && left[l] != UNUSED :: (l, left[l])
  }

  /** The path that enters right nodes p[0], p[1], ..., leaving each matched one by its partner, is an augmenting
      path of the residual graph: it starts at left node l and ends at an unmatched right node. */
  ghost predicate AugmentingPath(edges: Pairs, right: seq<int>, l: int, p: seq<int>)
    decreases |p|
  {
    && p != []
    && (l, p[0]) in edges
    && 0 <= p[0] < |right|
    && if |p| == 1 then right[p[0]] == UNUSED
       else right[p[0]] != UNUSED && AugmentingPath(edges, right, right[p[0]], p[1..])
  }

  ghost function Unseen(seen: seq<bool>): set<int> { set r | 0 <= r < |seen| && !seen[r] }

  /** Every edge out of l ends at a seen node. */
  ghost predicate Explored(edges: Pairs, seen: seq<bool>, l: int) {
    forall r :: 0 <= r < |seen| && (l, r) in edges ==> seen[r]
  }

  /** The right nodes seen since before are matched, and their partners are explored. */
  ghost predicate DeadEnds(edges: Pairs, right: seq<int>, before: seq<bool>, seen: seq<bool>)
    requires |right| == |before| == |seen|
  {
    forall r :: 0 <= r < |seen| && seen[r] && !before[r] ==> right[r] != UNUSED && Explored(edges, seen, right[r])
  }

  ghost predicate Grown(before: seq<bool>, seen: seq<bool>) {
    |before| == |seen| && forall r :: 0 <= r < |seen| && before[r] ==> seen[r]
  }

  /** From an explored node, with all seen nodes dead ends, no augmenting path starts. */
  lemma {:induction false} NoPath(edges: Pairs, right: seq<int>, seen: seq<bool>, l: int, p: seq<int>)
    requires |right| == |seen| && Explored(edges, seen, l)
    requires forall r :: 0 <= r < |seen| && seen[r] ==> right[r] != UNUSED && Explored(edges, seen, right[r])
    ensures !AugmentingPath(edges, right, l, p)
    decreases |p|
  {
    if |p| > 1 && (l, p[0]) in edges && 0 <= p[0] < |right| {
      NoPath(edges, right, seen, right[p[0]], p[1..]);
    }
  }

  /** There is an augmenting path from l. */
  ghost predicate SomePath(edges: Pairs, right: seq<int>, l: int) {
    exists p :: AugmentingPath(edges, right, l, p)
  }

  lemma NoPathAtAll(edges: Pairs, right: seq<int>, none: seq<bool>, seen: seq<bool>, l: int)
    requires |right| == |none| == |seen| && forall r :: 0 <= r < |none| ==> !none[r]
    requires Explored(edges, seen, l) && DeadEnds(edges, right, none, seen)
    ensures !SomePath(edges, right, l)
  {
    forall p ensures !AugmentingPath(edges, right, l, p) { NoPath(edges, right, seen, l, p); }
  }

  /** There is an augmenting path from l that passes only nodes not yet seen, each once. */
  ghost predicate HasPath(edges: Pairs, right: seq<int>, l: int, seen: seq<bool>) {
    exists p :: AugmentingPath(edges, right, l, p) && Distinct(p) && forall r <- p :: r in Unseen(seen)
  }

  lemma PathThrough(edges: Pairs, right: seq<int>, l: int, r: int, before: seq<bool>, marked: seq<bool>)
    requires |before| == |marked| == |right| && 0 <= r < |right| && (l, r) in edges
    requires !before[r] && marked[r] && Grown(before, marked)
    requires right[r] != UNUSED && HasPath(edges, right, right[r], marked)
    ensures HasPath(edges, right, l, before)
  {
    var q :| AugmentingPath(edges, right, right[r], q) && Distinct(q) && forall s <- q :: s in Unseen(marked);
    var p := [r] + q;
    assert p[1..] == q;
    assert r in Unseen(before) && r !in Unseen(marked) && Unseen(marked) <= Unseen(before);
    assert forall s <- p :: s == r || s in q;
    assert Distinct(p);
    assert AugmentingPath(edges, right, l, p);
  }

  /** What an augmentation from l changes: l is matched to a node seen on the way, no other left node gains or
      loses its match, only nodes seen on the way change partner, and no right node loses its match. */
  ghost predicate Augmented(left: seq<int>, right: seq<int>, before: seq<bool>,
                            left': seq<int>, right': seq<int>, seen: seq<bool>, l: int)
    requires |left| == |left'| && |right| == |right'| == |before| == |seen| && 0 <= l < |left|
  {
    && 0 <= left'[l] < |right| && seen[left'[l]] && !before[left'[l]]
    && (forall i :: 0 <= i < |left| && i != l ==> (left'[i] == UNUSED <==> left[i] == UNUSED))
    && (forall r :: 0 <= r < |right| && right'[r] != right[r] ==> seen[r] && !before[r])
    && (forall r :: 0 <= r < |right| && right[r] != UNUSED ==> right'[r] != UNUSED)
  }

  /** Marking r and failing to get further from its partner makes r a dead end as well. */
  lemma DeadEndsStep(edges: Pairs, right: seq<int>, before: seq<bool>, unmarked: seq<bool>, r: int, seen: seq<bool>)
    requires |right| == |before| == |unmarked| == |seen| && 0 <= r < |right|
    requires Grown(before, unmarked) && Grown(unmarked[r := true], seen)
    requires DeadEnds(edges, right, before, unmarked) && DeadEnds(edges, right, unmarked[r := true], seen)
    requires right[r] != UNUSED && Explored(edges, seen, right[r])
    ensures DeadEnds(edges, right, before, seen)
  {
    forall s | 0 <= s < |seen| && seen[s] && !before[s]
      ensures right[s] != UNUSED && Explored(edges, seen, right[s])
    {
      if unmarked[s] { assert Explored(edges, unmarked, right[s]); }
    }
  }

  /** Matching l to an unmatched node r. */
  lemma PushFree(edges: Pairs, left: seq<int>, right: seq<int>, before: seq<bool>, seen: seq<bool>, l: int, r: int)
    requires Ranged(left, right) && Inverse(left, right) && UsesEdges(edges, left)
    requires |before| == |seen| == |right| && 0 <= l < |left| && 0 <= r < |right|
    requires (l, r) in edges && right[r] == UNUSED && seen[r] && !before[r]
    ensures Ranged(left[l := r], right[r := l]) && UsesEdges(edges, left[l := r])
    ensures InverseBut(left[l := r], right[r := l], left[l])
    ensures Augmented(left, right, before, left[l := r], right[r := l], seen, l)
  {
  }

  /** Matching l to a node r whose partner has just been rematched. */
  lemma PushMoved(edges: Pairs, left: seq<int>, right: seq<int>, before: seq<bool>, marked: seq<bool>,
                  left1: seq<int>, right1: seq<int>, seen: seq<bool>, l: int, r: int)
    requires Ranged(left, right) && Inverse(left, right)
    requires |before| == |marked| == |seen| == |right| && 0 <= l < |left| && 0 <= r < |right|
    requires (l, r) in edges && right[r] != UNUSED && marked[r] && !before[r]
    requires Grown(before, marked) && Grown(marked, seen)
    requires left[l] != UNUSED ==> before[left[l]]
    requires |left1| == |left| && |right1| == |right| && Ranged(left1, right1) && UsesEdges(edges, left1)
    requires InverseBut(left1, right1, r)
    requires Augmented(left, right, marked, left1, right1, seen, right[r])
    ensures Ranged(left1[l := r], right1[r := l]) && UsesEdges(edges, left1[l := r])
    ensures InverseBut(left1[l := r], right1[r := l], left[l])
    ensures Augmented(left, right, before, left1[l := r], right1[r := l], seen, l)
  {
    var left2, right2 := left1[l := r], right1[r := l];
    assert left[right[r]] == r && l != right[r];
    assert right1[r] == right[r];
    forall i | 0 <= i < |left2| && left2[i] != UNUSED ensures right2[left2[i]] == i {
      if i != l { assert right1[left1[i]] == i; }
    }
    forall s | 0 <= s < |right2| && right2[s] != UNUSED && s != left[l] ensures left2[right2[s]] == s {
      if s != r { assert left1[right1[s]] == s; }
    }
  }

  /** The state after a successful search from l: flow was pushed along an augmenting path, and only the right
      node that l was matched to before is left stale. */
  ghost predicate Pushed(edges: Pairs, left: seq<int>, right: seq<int>, before: seq<bool>,
                         left': seq<int>, right': seq<int>, seen: seq<bool>, l: int)
    requires |left| == |left'| && |right| == |right'| == |before| == |seen| && 0 <= l < |left|
  {
    && Ranged(left', right') && InverseBut(left', right', left[l]) && UsesEdges(edges, left')
    && Augmented(left, right, before, left', right', seen, l)
    && HasPath(edges, right, l, before)
  }

  lemma Push(edges: Pairs, left: seq<int>, right: seq<int>, before: seq<bool>, marked: seq<bool>,
             left1: seq<int>, right1: seq<int>, seen: seq<bool>, l: int, r: int)
    requires Ranged(left, right) && Inverse(left, right) && UsesEdges(edges, left)
    requires |before| == |marked| == |seen| == |right| && 0 <= l < |left| && 0 <= r < |right|
    requires Grown(before, marked) && Grown(marked, seen)
    requires (l, r) in edges && !before[r] && marked[r]
    requires left[l] != UNUSED ==> before[left[l]]
    requires |left1| == |left| && |right1| == |right|
    requires if right[r] == UNUSED then left1 == left && right1 == right
             else Pushed(edges, left, right, marked, left1, right1, seen, right[r])
    ensures Pushed(edges, left, right, before, left1[l := r], right1[r := l], seen, l)
  {
    if right[r] == UNUSED {
      PushFree(edges, left, right, before, seen, l, r);
      assert AugmentingPath(edges, right, l, [r]) && Distinct([r]);
    } else {
      PushMoved(edges, left, right, before, marked, left1, right1, seen, l, r);
      PathThrough(edges, right, l, r, before, marked);
    }
  }

  class MaxBipartiteMatchState {
    const graph: Matrix
    var left: seq<int>
    var right: seq<int>

    ghost predicate Valid()
      reads this, graph
    {
      && graph.Valid()
      && |left| == graph.numElements && |right| == graph.numMatchers
      && Ranged(left, right) && Inverse(left, right) && UsesEdges(graph.Edges(), left)
    }

    constructor (graph: Matrix)
      requires graph.Valid()
      ensures this.graph == graph && Valid()
      ensures forall l :: 0 <= l < |left| ==> left[l] == UNUSED
    {
      this.graph := graph;
      left := seq(graph.numElements, _ => UNUSED);
      right := seq(graph.numMatchers, _ => UNUSED);
    }

    /** Depth-first search from left node l for an unmatched right node, through right nodes not yet seen. On
        success the flow along the path is pushed; the right node that l was matched to is left stale, for the
        caller to rematch. */
    method TryAugment(l: int, seen: array<bool>) returns (found: bool)
      requires Valid() && 0 <= l < |left| && seen.Length == |right|
      requires left[l] != UNUSED ==> seen[left[l]]
      modifies this, seen
      ensures |left| == |old(left)| && |right| == |old(right)| && Grown(old(seen[..]), seen[..])
      ensures found ==> Pushed(graph.Edges(), old(left), old(right), old(seen[..]), left, right, seen[..], l)
      ensures !found ==> left == old(left) && right == old(right)
      ensures !found ==> Explored(graph.Edges(), seen[..], l) && DeadEnds(graph.Edges(), right, old(seen[..]), seen[..])
      decreases Unseen(seen[..]), 1
    {
      ghost var before, edges, left0, right0 := seen[..], graph.Edges(), left, right;
      for r := 0 to graph.numMatchers
        invariant left == left0 && right == right0 && Grown(before, seen[..])
        invariant DeadEnds(edges, right, before, seen[..])
        invariant forall j :: 0 <= j < r && (l, j) in edges ==> seen[j]
      {
        if seen[r] || !graph.HasEdge(l, r) {
          continue;
        }
        found := TryRight(l, r, seen, before);
        if found {
          return;
        }
      }
      return false;
    }

    /** The loop body of TryAugment for an edge to a right node r that has not been seen. */
    method TryRight(l: int, r: int, seen: array<bool>, ghost before: seq<bool>) returns (found: bool)
      requires Valid() && 0 <= l < |left| && 0 <= r < |right| == seen.Length == |before|
      requires graph.HasEdge(l, r) && !seen[r]
      requires Grown(before, seen[..]) && DeadEnds(graph.Edges(), right, before, seen[..])
      requires left[l] != UNUSED ==> before[left[l]]
      modifies this, seen
      ensures |left| == |old(left)| && |right| == |old(right)| && Grown(old(seen[..]), seen[..]) && seen[r]
      ensures found ==> Pushed(graph.Edges(), old(left), old(right), before, left, right, seen[..], l)
      ensures !found ==> left == old(left) && right == old(right)
      ensures !found ==> DeadEnds(graph.Edges(), right, before, seen[..])
      decreases Unseen(seen[..]), 0
    {
      ghost var edges, left0, right0, unmarked := graph.Edges(), left, right, seen[..];
      assert (l, r) in edges;
      seen[r] := true;
      ghost var marked := seen[..];
      assert marked == unmarked[r := true];
      assert r in Unseen(unmarked) && r !in Unseen(marked) && Unseen(marked) <= Unseen(unmarked);
      found := right[r] == UNUSED;
      if !found {
        found := TryAugment(right[r], seen);
      }
      if found {
        Push(edges, left0, right0, before, marked, left, right, seen[..], l, r);
        left := left[l := r];
        right := right[r := l];
      } else {
        DeadEndsStep(edges, right, before, unmarked, r, seen[..]);
      }
    }

    /** The search from a left node without flow, with nothing seen, succeeds iff there is an augmenting path from
        that node. Either way the flow stays valid, and only that left node can become used. */
    method TryAugmentAfresh(l: int) returns (found: bool, ghost seen: seq<bool>)
      requires Valid() && 0 <= l < |left| && left[l] == UNUSED
      modifies this
      ensures Valid()
      ensures found <==> SomePath(graph.Edges(), old(right), l)
      ensures found <==> left[l] != UNUSED
      ensures forall i :: 0 <= i < |left| && i != l ==> (left[i] == UNUSED <==> old(left[i]) == UNUSED)
      ensures forall r :: 0 <= r < |right| && old(right[r]) != UNUSED ==> right[r] != UNUSED
      ensures |seen| == |right|
      ensures !found ==> left == old(left) && right == old(right)
      ensures !found ==> Explored(graph.Edges(), seen, l)
      ensures !found ==> DeadEnds(graph.Edges(), right, seq(|right|, _ => false), seen)
    {
      var marks := new bool[|right|](_ => false);
      ghost var none, right0 := marks[..], right;
      assert none == seq(|right|, _ => false);
      found := TryAugment(l, marks);
      seen := marks[..];
      if !found {
        NoPathAtAll(graph.Edges(), right0, none, seen, l);
      }
    }

    method Compute() returns (result: seq<(int, int)>)
      requires Valid() && forall l :: 0 <= l < |left| ==> left[l] == UNUSED
      modifies this
      ensures Valid()
      ensures IsMaximum(graph.Edges(), Elements(result)) && |result| == |Elements(result)|
      ensures forall i, j :: 0 <= i < j < |result| ==> result[i].0 < result[j].0
    {
      ghost var lefts: set<int>, rights: set<int> := {}, {};
      ghost var edges := graph.Edges();
      assert PairsOf(left) == {};
      for l := 0 to graph.numElements
        invariant Valid()
        invariant forall i :: l <= i < |left| ==> left[i] == UNUSED
        invariant CoversUpTo(edges, l, lefts, rights)
        invariant |lefts| + |rights| == |PairsOf(left)|
      {
        assert left[l] == UNUSED;
        ghost var left0, right0 := left, right;
        var found, seen := TryAugmentAfresh(l);
        lefts, rights := NextCover(edges, left0, right0, left, right, seen, l, lefts, rights);
      }
      PairsMatch(edges, left, right);
      result := CollectPairs();
      CoverIsOptimal(edges, PairsOf(left), graph.numElements, lefts, rights);
    }

    /** The second loop of Compute: the pairs of the matching, by left node. */
    method CollectPairs() returns (result: seq<(int, int)>)
      ensures Elements(result) == PairsOf(left) && |result| == |Elements(result)|
      ensures forall i, j :: 0 <= i < j < |result| ==> result[i].0 < result[j].0
    {
      result := [];
      for l := 0 to |left|
        invariant forall e :: e in result <==> e in PairsOf(left) && e.0 < l
        invariant forall i, j :: 0 <= i < j < |result| ==> result[i].0 < result[j].0
      {
        var r := left[l];
        if r == UNUSED {
          continue;
        }
        assert (l, r) in PairsOf(left);
        result := result + [(l, r)];
      }
      assert Elements(result) == PairsOf(left);
      DistinctSize(result);
    }
  }

  /** Every edge out of a left node below n meets the cover, and the cover uses no other left node. */
  ghost predicate CoversUpTo(edges: Pairs, n: int, lefts: set<int>, rights: set<int>) {
    && (forall l <- lefts :: l < n)
    && (forall e <- edges :: e.0 < n ==> e.0 in lefts || e.1 in rights)
  }

  lemma CoverIsOptimal(edges: Pairs, m: Pairs, n: int, lefts: set<int>, rights: set<int>)
    requires IsMatching(edges, m) && CoversUpTo(edges, n, lefts, rights) && |lefts| + |rights| == |m|
    requires forall e <- edges :: e.0 < n
    ensures IsMaximum(edges, m)
  {
    forall m' | IsMatching(edges, m') ensures |m'| <= |m| {
      CoverBound(m', lefts, rights);
    }
  }

  /** The cover after the search from l: l joins it when the search succeeds. */
  lemma NextCover(edges: Pairs, left: seq<int>, right: seq<int>, left1: seq<int>, right1: seq<int>,
                  seen: seq<bool>, l: int, lefts: set<int>, rights: set<int>)
    returns (lefts': set<int>, rights': set<int>)
    requires Ranged(left, right) && Inverse(left, right) && UsesEdges(edges, left)
    requires Ranged(left1, right1) && Inverse(left1, right1) && UsesEdges(edges, left1)
    requires |left1| == |left| && |right1| == |right| == |seen| && 0 <= l < |left|
    requires forall i :: l <= i < |left| ==> left[i] == UNUSED
    requires forall e <- edges :: 0 <= e.1 < |right|
    requires forall i :: 0 <= i < |left| && i != l ==> (left1[i] == UNUSED <==> left[i] == UNUSED)
    requires left1[l] == UNUSED ==> left1 == left && right1 == right && Explored(edges, seen, l)
                                    && DeadEnds(edges, right, seq(|right|, _ => false), seen)
    requires CoversUpTo(edges, l, lefts, rights) && |lefts| + |rights| == |PairsOf(left)|
    ensures CoversUpTo(edges, l + 1, lefts', rights') && |lefts'| + |rights'| == |PairsOf(left1)|
  {
    if left1[l] == UNUSED {
      lefts', rights' := CoverStep(edges, left, right, seen, l, lefts, rights);
    } else {
      PairsGrow(edges, left, right, left1, right1, l);
      lefts', rights' := lefts + {l}, rights;
    }
  }

  lemma PairsMatch(edges: Pairs, left: seq<int>, right: seq<int>)
    requires Ranged(left, right) && Inverse(left, right) && UsesEdges(edges, left)
    ensures IsMatching(edges, PairsOf(left))
  {
  }

  /** An augmentation adds one pair to the matching. */
  lemma PairsGrow(edges: Pairs, left: seq<int>, right: seq<int>, left': seq<int>, right': seq<int>, l: int)
    requires Ranged(left, right) && Inverse(left, right) && UsesEdges(edges, left)
    requires Ranged(left', right') && Inverse(left', right') && UsesEdges(edges, left')
    requires |left'| == |left| && 0 <= l < |left| && left[l] == UNUSED && left'[l] != UNUSED
    requires forall i :: 0 <= i < |left| && i != l ==> (left'[i] == UNUSED <==> left[i] == UNUSED)
    ensures |PairsOf(left')| == |PairsOf(left)| + 1
  {
    PairsMatch(edges, left, right);
    PairsMatch(edges, left', right');
    MatchingSides(PairsOf(left));
    MatchingSides(PairsOf(left'));
    LeftsOfPairs(left);
    LeftsOfPairs(left');
    assert Lefts(PairsOf(left')) == Lefts(PairsOf(left)) + {l};
  }

  lemma LeftsOfPairs(left: seq<int>)
    ensures Lefts(PairsOf(left)) == set l | 0 <= l < |left| && left[l] != UNUSED
  {
    forall l | 0 <= l < |left| && left[l] != UNUSED ensures l in Lefts(PairsOf(left)) {
      assert (l, left[l]) in PairsOf(left);
    }
  }

  /** When the search from l fails, exchanging the partners of the seen right nodes for those right nodes gives a
      cover of the same size that also meets the edges of l. */
  lemma CoverStep(edges: Pairs, left: seq<int>, right: seq<int>, seen: seq<bool>, l: int, lefts: set<int>,
                  rights: set<int>)
    returns (lefts': set<int>, rights': set<int>)
    requires Ranged(left, right) && Inverse(left, right) && UsesEdges(edges, left)
    requires 0 <= l < |left| && |seen| == |right|
    requires forall i :: l <= i < |left| ==> left[i] == UNUSED
    requires forall e <- edges :: 0 <= e.1 < |right|
    requires Explored(edges, seen, l) && DeadEnds(edges, right, seq(|right|, _ => false), seen)
    requires CoversUpTo(edges, l, lefts, rights) && |lefts| + |rights| == |PairsOf(left)|
    ensures CoversUpTo(edges, l + 1, lefts', rights') && |lefts'| + |rights'| == |PairsOf(left)|
  {
    var m := PairsOf(left);
    PairsMatch(edges, left, right);
    var exchanged := set r | 0 <= r < |right| && seen[r] :: (right[r], r);
    forall e <- exchanged ensures e in m && (e.0 in lefts <==> e.1 !in rights) {
      assert left[right[e.1]] == e.1;
      TightCover(m, lefts, rights, e);
    }
    Exchange(m, exchanged, lefts, rights);
    lefts', rights' := lefts - Lefts(exchanged), rights + Rights(exchanged);
    forall e <- edges | e.0 < l + 1 ensures e.0 in lefts' || e.1 in rights' {
      if e.0 == l || e.0 in Lefts(exchanged) {
        assert seen[e.1];
        assert (right[e.1], e.1) in exchanged;
      }
    }
  }
}
