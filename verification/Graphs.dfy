/** Finite directed graphs and what can be reached in them. */
module Graphs {
  import opened Sets

  type Graph<T> = map<T, set<T>>

  /** Every successor of a node is a node. */
  ghost predicate Closed<T>(g: Graph<T>) { forall e <- g :: g[e] <= g.Keys }

  /** The nodes reached from e by 1 to n+1 edges. */
  ghost function Level<T>(g: Graph<T>, e: T, n: nat): set<T>
    requires e in g
  {
    if n == 0 then g[e]
    else Level(g, e, n - 1) + set x, y | x in Level(g, e, n - 1) && x in g && y in g[x] :: y
  }

  /** x is a transitive successor of e. */
  ghost predicate Reaches<T>(g: Graph<T>, e: T, x: T)
    requires e in g
  { exists n: nat :: x in Level(g, e, n) }

  lemma ReachesStep<T>(g: Graph<T>, e: T, x: T, y: T)
    requires Closed(g) && e in g && x in g && (x == e || Reaches(g, e, x)) && y in g[x]
    ensures Reaches(g, e, y)
  {
    if x == e {
      assert y in Level(g, e, 0);
    } else {
      var n: nat :| x in Level(g, e, n);
      assert y in Level(g, e, n + 1);
    }
  }

  /** A set that contains the successors of e and is closed under successors contains all that e reaches. */
  lemma {:induction false} LevelInside<T>(g: Graph<T>, e: T, n: nat, s: set<T>)
    requires e in g && g[e] <= s && forall x <- s :: x in g && g[x] <= s
    ensures Level(g, e, n) <= s
  {
    if n > 0 { LevelInside(g, e, n - 1, s); }
  }

  lemma ReachesInside<T>(g: Graph<T>, e: T, x: T, s: set<T>)
    requires e in g && g[e] <= s && forall y <- s :: y in g && g[y] <= s
    requires Reaches(g, e, x)
    ensures x in s
  {
    var n: nat :| x in Level(g, e, n);
    LevelInside(g, e, n, s);
  }

  /** In a graph with more edges, a node with an edge to e reaches e and all that e reached before. */
  lemma {:induction false} LevelShifts<T>(g: Graph<T>, g': Graph<T>, e: T, d: T, n: nat)
    requires e in g && d in g' && g.Keys == g'.Keys && (forall x <- g :: g[x] <= g'[x]) && e in g'[d]
    ensures Level(g, e, n) <= Level(g', d, n + 1)
  {
    if n > 0 {
      LevelShifts(g, g', e, d, n - 1);
    } else {
      assert e in Level(g', d, 0);
    }
  }

  lemma ReachesTrans<T>(g: Graph<T>, a: T, b: T, c: T)
    requires Closed(g) && a in g && b in g && Reaches(g, a, b) && Reaches(g, b, c)
    ensures Reaches(g, a, c)
  {
    var s := Reachable(g, a);
    forall y <- g[b] ensures y in s { ReachesStep(g, a, b, y); }
    forall x <- s, y <- g[x] ensures y in s { ReachesStep(g, a, x, y); }
    ReachesInside(g, b, c, s);
  }

  /** What is reached in a graph with fewer edges is reached. */
  lemma FewerEdges<T>(g: Graph<T>, h: Graph<T>, e: T, x: T)
    requires e in g && g.Keys == h.Keys && Closed(g) && (forall y <- g :: h[y] <= g[y])
    requires Reaches(h, e, x)
    ensures x in g && Reaches(g, e, x)
  {
    var s := Reachable(g, e);
    forall y <- h[e] ensures y in s { ReachesStep(g, e, e, y); }
    forall y <- s, z <- h[y] ensures z in s { ReachesStep(g, e, y, z); }
    ReachesInside(h, e, x, s);
  }

  /** At position i, p follows an edge. */
  ghost predicate FollowsEdge<T>(g: Graph<T>, p: seq<T>, i: int)
    requires 0 <= i < |p| - 1
  { p[i] in g && p[i+1] in g[p[i]] }

  /** p is a path of at least one edge. */
  ghost predicate IsPath<T>(g: Graph<T>, p: seq<T>) {
    |p| >= 2 && forall i {:trigger FollowsEdge(g, p, i)} :: 0 <= i < |p| - 1 ==> FollowsEdge(g, p, i)
  }

  lemma {:induction false} LevelHasPath<T>(g: Graph<T>, e: T, n: nat, x: T) returns (p: seq<T>)
    requires e in g && x in Level(g, e, n)
    ensures IsPath(g, p) && p[0] == e && p[|p|-1] == x
  {
    if n == 0 {
      p := [e, x];
    } else if x in Level(g, e, n - 1) {
      p := LevelHasPath(g, e, n - 1, x);
    } else {
      var y :| y in Level(g, e, n - 1) && y in g && x in g[y];
      var q := LevelHasPath(g, e, n - 1, y);
      p := q + [x];
      forall i | 0 <= i < |p| - 1 ensures FollowsEdge(g, p, i) {
        if i < |q| - 1 { assert FollowsEdge(g, q, i); }
      }
    }
  }

  lemma {:induction false} PathReaches<T>(g: Graph<T>, p: seq<T>, i: nat)
    requires Closed(g) && IsPath(g, p) && 0 < i < |p|
    ensures p[0] in g && Reaches(g, p[0], p[i])
    decreases i
  {
    assert FollowsEdge(g, p, 0) && FollowsEdge(g, p, i - 1);
    if i > 1 { PathReaches(g, p, i - 1); }
    ReachesStep(g, p[0], p[i-1], p[i]);
  }

  /** What is reached is what paths lead to. */
  lemma ReachesIffPath<T>(g: Graph<T>, e: T, x: T)
    requires Closed(g) && e in g
    ensures Reaches(g, e, x) <==> exists p :: IsPath(g, p) && p[0] == e && p[|p|-1] == x
  {
    if Reaches(g, e, x) {
      var n: nat :| x in Level(g, e, n);
      var p := LevelHasPath(g, e, n, x);
    }
    if p :| IsPath(g, p) && p[0] == e && p[|p|-1] == x { PathReaches(g, p, |p| - 1); }
  }

  // ---------------------------------------------------------------- cycles

  /** No node reaches itself. */
  ghost predicate Acyclic<T>(g: Graph<T>) { Closed(g) && forall e <- g :: !Reaches(g, e, e) }

  /** Neither e nor any node that e reaches reaches itself. */
  ghost predicate LoopFree<T>(g: Graph<T>, e: T) {
    Closed(g) && e in g && forall x <- g :: x == e || Reaches(g, e, x) ==> !Reaches(g, x, x)
  }

  ghost function Reachable<T>(g: Graph<T>, e: T): set<T>
    requires e in g
  { set x <- g.Keys | Reaches(g, e, x) }

  /** Each node is ranked by how many nodes it reaches. */
  ghost function Ranks<T>(g: Graph<T>): map<T, nat> { map e | e in g.Keys :: |Reachable(g, e)| }

  /** An edge to a node that does not reach itself leads to lower rank. */
  lemma RankDrops<T>(g: Graph<T>, e: T, d: T)
    requires Closed(g) && e in g && d in g[e] && !Reaches(g, d, d)
    ensures Ranks(g)[d] < Ranks(g)[e]
  {
    ReachesStep(g, e, e, d);
    forall x <- Reachable(g, d) ensures x in Reachable(g, e) { ReachesTrans(g, e, d, x); }
    SubsetSize(Reachable(g, d), Reachable(g, e));
    assert d in Reachable(g, e) && d !in Reachable(g, d);
  }

  ghost function WithEdge<T>(g: Graph<T>, e: T, d: T): Graph<T>
    requires e in g
  { g[e := g[e] + {d}] }

  /** A graph without cycles has none with a new edge from e to another node d iff d does not reach e. */
  lemma AcyclicWithEdgeIff<T>(g: Graph<T>, e: T, d: T)
    requires Closed(g) && e in g && d in g && e != d
    ensures Acyclic(WithEdge(g, e, d)) <==> Acyclic(g) && !Reaches(g, d, e)
  {
    var g' := WithEdge(g, e, d);
    if Reaches(g, d, e) {
      var n: nat :| e in Level(g, d, n);
      LevelShifts(g, g', d, e, n);
    } else if Acyclic(g) {
      forall x <- g' ensures !Reaches(g', x, x) {
        if Reaches(g', x, x) { ReachesWithEdge(g, e, d, x, x); }
        if (x == e || Reaches(g, x, e)) && (x == d || Reaches(g, d, x)) { BothWays(g, e, d, x); }
      }
    } else {
      var x :| x in g && Reaches(g, x, x);
      FewerEdges(g', g, x, x);
    }
  }

  lemma BothWays<T>(g: Graph<T>, e: T, d: T, x: T)
    requires Closed(g) && e in g && d in g && x in g && e != d
    requires (x == e || Reaches(g, x, e)) && (x == d || Reaches(g, d, x))
    ensures Reaches(g, d, e)
  {
    if x != e && x != d { ReachesTrans(g, d, x, e); }
  }

  /** What is reached with the new edge was reached before, or lies behind the edge. */
  lemma ReachesWithEdge<T>(g: Graph<T>, e: T, d: T, x: T, y: T)
    requires Closed(g) && e in g && d in g && x in g && Reaches(WithEdge(g, e, d), x, y)
    ensures Reaches(g, x, y) || ((x == e || Reaches(g, x, e)) && (y == d || Reaches(g, d, y)))
  {
    var g', toEdge := WithEdge(g, e, d), x == e || Reaches(g, x, e);
    var s := set z <- g.Keys | Reaches(g, x, z) || (toEdge && (z == d || Reaches(g, d, z)));
    forall z <- g'[x] ensures z in s {
      if z in g[x] { ReachesStep(g, x, x, z); }
    }
    forall w <- s, z <- g'[w] ensures z in s {
      if z in g[w] {
        if Reaches(g, x, w) { ReachesStep(g, x, w, z); } else { ReachesStep(g, d, w, z); }
      }
    }
    ReachesInside(g', x, y, s);
  }

  // ---------------------------------------------------------------- a measure for worklists of acyclic graphs

  function Pow(b: nat, n: nat): nat { if n == 0 then 1 else b * Pow(b, n - 1) }

  lemma {:induction false} PowMonotone(b: nat, m: nat, n: nat)
    requires b >= 1 && m <= n
    ensures 1 <= Pow(b, m) <= Pow(b, n)
    decreases n
  {
    if n > 0 {
      if m == n {
        PowMonotone(b, m - 1, n - 1);
        assert b * Pow(b, n - 1) >= 1;
      } else {
        PowMonotone(b, m, n - 1);
        assert b * Pow(b, n - 1) >= Pow(b, n - 1);
      }
    }
  }

  /** Each entry of a worklist weighs b to the power of its rank. */
  ghost function Weight<T>(rank: map<T, nat>, b: nat, work: seq<T>): nat
    requires forall e <- work :: e in rank
  {
    if work == [] then 0 else Weight(rank, b, work[..|work|-1]) + Pow(b, rank[work[|work|-1]])
  }

  lemma WeightPush<T>(rank: map<T, nat>, b: nat, work: seq<T>, e: T)
    requires e in rank && forall x <- work :: x in rank
    ensures (forall x <- work + [e] :: x in rank)
            && Weight(rank, b, work + [e]) == Weight(rank, b, work) + Pow(b, rank[e])
  {
    assert (work + [e])[..|work|] == work;
  }

  /** An upper bound for the weight of n entries of rank below r. */
  function Below(b: nat, r: nat, n: nat): nat { if r == 0 then 0 else n * Pow(b, r - 1) }

  lemma BelowStep(b: nat, r: nat, n: nat, rank: nat)
    requires b >= 1 && rank < r
    ensures Below(b, r, n) + Pow(b, rank) <= Below(b, r, n + 1)
  {
    PowMonotone(b, rank, r - 1);
    assert (n + 1) * Pow(b, r - 1) == n * Pow(b, r - 1) + Pow(b, r - 1);
  }

  /** Fewer than b entries of rank below r weigh less than one of rank r. */
  lemma BelowIsLess(b: nat, r: nat, n: nat)
    requires n < b
    ensures Below(b, r, n) < Pow(b, r)
  {
    if r > 0 {
      PowMonotone(b, 0, r - 1);
      assert (n + 1) * Pow(b, r - 1) == n * Pow(b, r - 1) + Pow(b, r - 1);
      assert (n + 1) * Pow(b, r - 1) <= b * Pow(b, r - 1) by { TimesMonotone(n + 1, b, Pow(b, r - 1)); }
    }
  }

  lemma TimesMonotone(x: nat, y: nat, z: nat)
    requires x <= y
    ensures x * z <= y * z
  {
    assert y * z == x * z + (y - x) * z;
  }

  /** after is before with at most |added| elements of added pushed. */
  ghost predicate Pushes<T>(before: seq<T>, after: seq<T>, added: set<T>) {
    && before <= after && |after| - |before| <= |added|
    && forall i :: |before| <= i < |after| ==> after[i] in added
  }

  lemma PushesOne<T>(before: seq<T>, after: seq<T>, added: set<T>, e: T)
    requires Pushes(before, after, added) && e !in added
    ensures Pushes(before, after, added + {e}) && Pushes(before, after + [e], added + {e})
  {
    assert |added + {e}| == |added| + 1;
  }

  /** Replacing an entry by entries of lower rank, fewer than b, makes a worklist lighter. */
  lemma PushesDrop<T>(rank: map<T, nat>, b: nat, before: seq<T>, after: seq<T>, added: set<T>, e: T)
    requires (forall x <- before :: x in rank) && e in rank && (forall x <- added :: x in rank && rank[x] < rank[e])
    requires Pushes(before, after, added) && |added| < b
    ensures forall x <- after :: x in rank
    ensures Weight(rank, b, after) < Weight(rank, b, before) + Pow(b, rank[e])
  {
    WeightBelow(rank, b, before, after, added, rank[e]);
    BelowIsLess(b, rank[e], |after| - |before|);
  }

  lemma {:induction false} WeightBelow<T>(rank: map<T, nat>, b: nat, before: seq<T>, after: seq<T>, added: set<T>,
                                          r: nat)
    requires b >= 1 && (forall x <- before :: x in rank) && (forall x <- added :: x in rank && rank[x] < r)
    requires Pushes(before, after, added)
    ensures forall x <- after :: x in rank
    ensures Weight(rank, b, after) <= Weight(rank, b, before) + Below(b, r, |after| - |before|)
    decreases |after|
  {
    if |after| == |before| {
      assert after == before;
    } else {
      var rest, e := after[..|after|-1], after[|after|-1];
      assert after == rest + [e];
      WeightBelow(rank, b, before, rest, added, r);
      WeightPush(rank, b, rest, e);
      BelowStep(b, r, |rest| - |before|, rank[e]);
    }
  }

  /** What remains to be done for the nodes on a worklist. */
  ghost function Load<T>(g: Graph<T>, work: seq<T>): nat
    requires forall e <- work :: e in g
  {
    Weight(Ranks(g), |g.Keys| + 1, work)
  }

  /** Replacing a node on the worklist by its successors leaves less to be done, if none of them reaches itself. */
  lemma LoadDrops<T>(g: Graph<T>, work: seq<T>, rest: seq<T>, e: T, pushed: seq<T>)
    requires Closed(g) && (forall x <- work :: x in g) && work == rest + [e]
    requires e in g ==> Pushes(rest, pushed, g[e]) && forall d <- g[e] :: !Reaches(g, d, d)
    ensures forall x <- pushed :: x in g
    ensures Load(g, pushed) < Load(g, work)
  {
    var rank, b := Ranks(g), |g.Keys| + 1;
    assert e in work && forall x <- rest :: x in work;
    SubsetSize(g[e], g.Keys);
    forall d <- g[e] ensures rank[d] < rank[e] { RankDrops(g, e, d); }
    WeightPush(rank, b, rest, e);
    PushesDrop(rank, b, rest, pushed, g[e], e);
    forall x <- pushed ensures x in g { assert x in rank; }
  }

  lemma MoveOne<T>(todo: set<T>, done: set<T>, e: T)
    requires e in todo && todo !! done
    ensures (todo - {e}) + (done + {e}) == todo + done && (todo - {e}) !! (done + {e})
  {
  }
}
