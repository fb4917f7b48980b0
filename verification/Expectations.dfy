/** googlemock's expectations, the prerequisites between them, and the sequences that create prerequisites. */
module Expectations {
  import opened Sets
  import opened Graphs

  /** How often an expectation may be called: the call counts that satisfy it, and those that saturate it. */
  datatype Cardinality = Cardinality(isSatisfied: nat -> bool, isSaturated: nat -> bool)
  {
    /** A call of a saturated expectation leaves it unsatisfied. */
    ghost predicate Bounded() { forall n: nat :: isSaturated(n) ==> !isSatisfied(n + 1) }
  }

  /** Between min and max calls; the counts min and above are clamped as the source does. */
  function Between(min: nat, max: nat): (c: Cardinality)
    ensures c.Bounded()
    ensures forall n: nat :: c.isSaturated(n) || !c.isSatisfied(n) || c.isSatisfied(n + 1)
  {
    var top := if max >= min then max else min;
    Cardinality((n: nat) => min <= n <= top, (n: nat) => n >= top)
  }

  /** Fewer than min calls do not satisfy, min to max do, max saturate, and more satisfy no longer; with max below min,
      exactly min calls satisfy and saturate. */
  lemma BetweenCounts(min: nat, max: nat, n: nat)
    ensures var c := Between(min, max);
      && (n < min ==> !c.isSatisfied(n) && !c.isSaturated(n))
      && (min <= n <= max ==> c.isSatisfied(n) && (c.isSaturated(n) <==> n == max))
      && (n > min && n > max ==> !c.isSatisfied(n) && c.isSaturated(n))
      && (max < min && n == min ==> c.isSatisfied(n) && c.isSaturated(n))
  {
  }

  class Expectation {
    const cardinality: Cardinality
    const retiresOnSaturation: bool
    var callCount: nat
    var retired: bool
    var immediatePrerequisites: set<Expectation>

    constructor (cardinality: Cardinality, retiresOnSaturation: bool)
      ensures this.cardinality == cardinality && this.retiresOnSaturation == retiresOnSaturation
      ensures callCount == 0 && !retired && immediatePrerequisites == {}
    {
      this.cardinality, this.retiresOnSaturation := cardinality, retiresOnSaturation;
      callCount, retired, immediatePrerequisites := 0, false, {};
    }

    predicate IsSatisfied()
      reads this
    { cardinality.isSatisfied(callCount) }

    predicate IsSaturated()
      reads this
    { cardinality.isSaturated(callCount) }

    method Retire()
      modifies this`retired
      ensures retired
    {
      retired := true;
    }

    /** True iff every transitive prerequisite is satisfied. There is no set of visited nodes: termination rests on
        the absence of cycles among the satisfied expectations that the walk passes. */
    method AllPrerequisitesAreSatisfied(ghost all: set<Expectation>) returns (r: bool)
      requires this in all && Within(all) && LoopFree<Expectation>(SatisfiedEdges(all), this)
      ensures r <==> AllReachedAreSatisfied(Prerequisites(all), all, this)
      ensures r <==> forall x <- all :: Reaches<Expectation>(Prerequisites(all), this, x) ==>
                                          x.cardinality.isSatisfied(x.callCount)
    {
      var expectations := [this];
      ghost var visited: set<Expectation> := {};
      WalkStarts(all, this);
      while expectations != []
        invariant Walk(all, this, expectations, visited)
        decreases WalkLoad(all, expectations)
      {
        var ok;
        ok, expectations, visited := VisitLast(expectations, all, this, visited);
        if !ok {
          return false;
        }
      }
      VisitedAll(all, this, visited);
      return true;
    }

    /** The loop body of AllPrerequisitesAreSatisfied: takes the last expectation off the worklist and looks at its
        prerequisites. */
    static method VisitLast(expectations: seq<Expectation>, ghost all: set<Expectation>, ghost root: Expectation,
                            ghost visited: set<Expectation>)
      returns (ok: bool, pushed: seq<Expectation>, ghost visited': set<Expectation>)
      requires expectations != [] && Walk(all, root, expectations, visited)
      ensures !ok ==> root in all && !AllReachedAreSatisfied(Prerequisites(all), all, root)
      ensures ok ==> Walk(all, root, pushed, visited') && WalkLoad(all, pushed) < WalkLoad(all, expectations)
    {
      var exp := expectations[|expectations|-1];
      var rest := expectations[..|expectations|-1];
      assert expectations == rest + [exp];
      ok, pushed := PushPrerequisites(exp, rest, all, Prerequisites(all), root);
      visited' := visited + {exp};
      if ok {
        SatisfiedStep(all, SatisfiedEdges(all), root, expectations, rest, exp, pushed);
        VisitedStep(Prerequisites(all), visited, expectations, exp, pushed);
      }
    }

    /** The inner loop of AllPrerequisitesAreSatisfied: pushes the prerequisites of exp, unless one is unsatisfied. */
    static method PushPrerequisites(exp: Expectation, expectations: seq<Expectation>,
                                    ghost all: set<Expectation>, ghost g: Graph<Expectation>, ghost root: Expectation)
      returns (ok: bool, pushed: seq<Expectation>)
      requires root in all && Within(all) && g == Prerequisites(all)
      requires OnTheWay(g, root, expectations + [exp])
      ensures ok <==> forall p <- exp.immediatePrerequisites :: p.IsSatisfied()
      ensures !ok ==> !AllReachedAreSatisfied(g, all, root)
      ensures ok ==> forall e :: e in pushed <==> e in expectations || e in exp.immediatePrerequisites
      ensures ok ==> OnTheWay(g, root, pushed)
      ensures ok ==> Pushes(expectations, pushed, exp.immediatePrerequisites)
    {
      ChildrenReached(all, g, root, expectations, exp);
      pushed := expectations;
      var todo := exp.immediatePrerequisites;
      ghost var done: set<Expectation> := {};
      while todo != {}
        invariant todo + done == exp.immediatePrerequisites && todo !! done
        invariant forall e :: e in pushed <==> e in expectations || e in done
        invariant forall p <- done :: p.IsSatisfied()
        invariant Pushes(expectations, pushed, done)
        decreases todo
      {
        var next :| next in todo;
        MoveOne(todo, done, next);
        todo := todo - {next};
        if !next.IsSatisfied() {
          assert next in all && Reaches(g, root, next);
          return false, pushed;
        }
        pushed := pushed + [next];
        done := done + {next};
      }
      return true, pushed;
    }

    /** Satisfied without ever having been called. */
    predicate IsOpen()
      reads this
    { IsSatisfied() && callCount == 0 }

    /** Adds the unsatisfied prerequisites that are found by passing only through prerequisites that are satisfied
        without ever having been called. */
    method FindUnsatisfiedPrerequisites(unsatisfied: set<Expectation>, ghost all: set<Expectation>)
      returns (result: set<Expectation>)
      requires this in all && Within(all) && LoopFree<Expectation>(OpenEdges(all), this)
      ensures result == unsatisfied + set x <- all | Reaches(OpenGraph(all, this), this, x) && !x.IsSatisfied()
    {
      result := unsatisfied;
      var expectations := [this];
      ghost var h: Graph<Expectation>, k: Graph<Expectation> := OpenGraph(all, this), OpenEdges(all);
      ghost var visited: set<Expectation> := {};
      while expectations != []
        invariant Search(all, h, k, this, expectations, visited, unsatisfied, result)
        decreases Load(k, expectations)
      {
        expectations, result, visited := SearchLast(expectations, result, all, h, k, this, visited, unsatisfied);
      }
      ExploredAll(all, h, k, this, visited, unsatisfied, result);
    }

    /** The loop body of FindUnsatisfiedPrerequisites: takes the last expectation off the worklist and looks at its
        prerequisites. */
    static method SearchLast(expectations: seq<Expectation>, found: set<Expectation>, ghost all: set<Expectation>,
                             ghost h: Graph<Expectation>, ghost k: Graph<Expectation>, ghost root: Expectation,
                             ghost visited: set<Expectation>, ghost unsatisfied: set<Expectation>)
      returns (pushed: seq<Expectation>, result: set<Expectation>, ghost visited': set<Expectation>)
      requires root in all && Within(all) && h == OpenGraph(all, root) && k == OpenEdges(all)
      requires expectations != [] && Search(all, h, k, root, expectations, visited, unsatisfied, found)
      ensures Search(all, h, k, root, pushed, visited', unsatisfied, result)
      ensures Load(k, pushed) < Load(k, expectations)
    {
      var exp := expectations[|expectations|-1];
      var rest := expectations[..|expectations|-1];
      assert expectations == rest + [exp];
      pushed, result := SortPrerequisites(exp, rest, found, all, h, root);
      visited' := visited + {exp};
      OpenStepDrops(all, k, root, expectations, rest, exp, pushed);
      ExploredStep(h, visited, expectations, found, exp, pushed, result);
    }

    /** The inner loop of FindUnsatisfiedPrerequisites: pushes the open prerequisites of exp and collects the
        unsatisfied ones. */
    static method SortPrerequisites(exp: Expectation, expectations: seq<Expectation>, unsatisfied: set<Expectation>,
                                    ghost all: set<Expectation>, ghost h: Graph<Expectation>, ghost root: Expectation)
      returns (pushed: seq<Expectation>, result: set<Expectation>)
      requires root in all && Within(all) && h == OpenGraph(all, root)
      requires OnTheWay(h, root, expectations + [exp])
      requires exp == root || exp.IsOpen()
      ensures Pushes(expectations, pushed, OpenOnes(exp.immediatePrerequisites))
      ensures forall e :: e in pushed <==> e in expectations || (e in exp.immediatePrerequisites && e.IsOpen())
      ensures result == unsatisfied + UnsatisfiedOnes(exp.immediatePrerequisites)
      ensures forall p <- exp.immediatePrerequisites :: p in all && Reaches(h, root, p)
      ensures OnTheWay(h, root, pushed)
    {
      OpenChildrenReached(all, h, root, expectations, exp);
      pushed, result := expectations, unsatisfied;
      var todo := exp.immediatePrerequisites;
      ghost var done: set<Expectation> := {};
      while todo != {}
        invariant todo + done == exp.immediatePrerequisites && todo !! done
        invariant SortedOut(expectations, unsatisfied, done, pushed, result)
        decreases todo
      {
        var next :| next in todo;
        MoveOne(todo, done, next);
        todo := todo - {next};
        SortOne(expectations, unsatisfied, done, pushed, result, next);
        if next.IsSatisfied() {
          if next.callCount == 0 {
            pushed := pushed + [next];
          }
        } else {
          result := result + {next};
        }
        done := done + {next};
      }
      assert done == exp.immediatePrerequisites;
      SortedAll(h, root, expectations, unsatisfied, exp, pushed, result);
    }

    /** Retires every transitive prerequisite. An expectation that is retired already is left alone, because its
        prerequisites are retired as well. */
    method RetireAllPreRequisites(ghost all: set<Expectation>)
      requires this in all && Within(all) && RetiredIsClosed(all)
      modifies all`retired
      ensures RetiredIsClosed(all)
      ensures forall x <- all :: x.retired <==> old(x.retired) || Reaches(Prerequisites(all), this, x)
    {
      ghost var g: Graph<Expectation> := Prerequisites(all);
      ghost var before := set x <- all | x.retired;
      if retired {
        RetiredAll(all, g, this, before);
        return;
      }
      var expectations := [this];
      while expectations != []
        invariant Retiring(all, g, this, before, expectations, {})
        decreases Unretired(all), |expectations|
      {
        expectations := RetireLast(expectations, all, g, this, before);
      }
      RetiredAll(all, g, this, before);
    }

    /** The loop body of RetireAllPreRequisites: takes the last expectation off the worklist and retires its
        prerequisites. */
    static method RetireLast(expectations: seq<Expectation>, ghost all: set<Expectation>, ghost g: Graph<Expectation>,
                             ghost root: Expectation, ghost before: set<Expectation>)
      returns (pushed: seq<Expectation>)
      requires Within(all) && g == Prerequisites(all)
      requires expectations != [] && Retiring(all, g, root, before, expectations, {})
      modifies all`retired
      ensures Retiring(all, g, root, before, pushed, {})
      ensures Unretired(all) <= old(Unretired(all))
      ensures Unretired(all) == old(Unretired(all)) ==> |pushed| < |expectations|
    {
      var exp := expectations[|expectations|-1];
      var rest := expectations[..|expectations|-1];
      assert expectations == rest + [exp];
      TakeLast(all, g, root, before, expectations, rest, exp);
      pushed := RetireChildren(exp, rest, all, g, root, before);
    }

    /** The inner loop of RetireAllPreRequisites: retires and pushes the prerequisites of exp that are not retired. */
    static method RetireChildren(exp: Expectation, expectations: seq<Expectation>, ghost all: set<Expectation>,
                                 ghost g: Graph<Expectation>, ghost root: Expectation, ghost before: set<Expectation>)
      returns (pushed: seq<Expectation>)
      requires Closed(g) && Retiring(all, g, root, before, expectations, {exp}) && g[exp] == exp.immediatePrerequisites
      modifies all`retired
      ensures Retiring(all, g, root, before, pushed, {})
      ensures Unretired(all) <= old(Unretired(all))
      ensures Unretired(all) == old(Unretired(all)) ==> |pushed| == |expectations|
    {
      assert exp in {exp};
      forall p <- exp.immediatePrerequisites ensures p in all && Reaches(g, root, p) { ReachesStep(g, root, exp, p); }
      pushed := expectations;
      var todo := exp.immediatePrerequisites;
      ghost var unretired := Unretired(all);
      while todo != {}
        invariant todo <= exp.immediatePrerequisites
        invariant Retiring(all, g, root, before, pushed, {exp})
        invariant forall p <- exp.immediatePrerequisites - todo :: p.retired
        invariant Unretired(all) <= unretired
        invariant Unretired(all) == unretired ==> |pushed| == |expectations|
        decreases todo
      {
        var next :| next in todo;
        todo := todo - {next};
        if !next.retired {
          assert next in Unretired(all) && next in unretired;
          next.Retire();
          assert next !in Unretired(all);
          pushed := pushed + [next];
        }
      }
    }
  }

  class Sequence {
    var lastExpectation: Expectation?

    constructor ()
      ensures lastExpectation == null
    {
      lastExpectation := null;
    }

    /** Makes the last expectation of the sequence a prerequisite of the new one, which thereby waits for all that
        came before it. A cycle arises iff the last expectation already waits for the new one. Retirement stays closed
        under prerequisites unless a retired expectation is made to wait for one that is not. */
    method AddExpectation(expectation: Expectation, ghost all: set<Expectation>)
      requires expectation in all && Within(all) && (lastExpectation != null ==> lastExpectation in all)
      modifies this, expectation`immediatePrerequisites
      ensures lastExpectation == expectation
      ensures var last := old(lastExpectation);
        expectation.immediatePrerequisites == old(expectation.immediatePrerequisites)
          + if last != null && last != expectation then {last} else {}
      ensures Within(all)
      ensures NoCycle(all) <==>
        && old(NoCycle(all))
        && (old(lastExpectation) == null || old(lastExpectation) == expectation
            || !Reaches<Expectation>(old(Prerequisites(all)), old(lastExpectation), expectation))
      ensures old(RetiredIsClosed(all)) ==>
        (RetiredIsClosed(all) <==>
         old(lastExpectation) == null || old(lastExpectation) == expectation
         || !expectation.retired || old(lastExpectation).retired)
      ensures old(Settled(all)) ==>
        (Settled(all) <==>
         old(lastExpectation) == null || old(lastExpectation) == expectation
         || old(StaysSettled(all, expectation, lastExpectation)))
      ensures var last := old(lastExpectation);
        last != null && last != expectation ==>
          (var e: Expectation := last;
           forall x <- all :: x == e || Reaches<Expectation>(old(Prerequisites(all)), e, x) ==>
                              Reaches<Expectation>(Prerequisites(all), expectation, x))
    {
      if lastExpectation != expectation {
        if lastExpectation != null {
          AddPrerequisite(expectation, lastExpectation, all);
        }
        lastExpectation := expectation;
      }
    }

    /** The assignment by which AddExpectation makes d a prerequisite of e. */
    static method AddPrerequisite(e: Expectation, d: Expectation, ghost all: set<Expectation>)
      requires e in all && d in all && e != d && Within(all)
      modifies e`immediatePrerequisites
      ensures e.immediatePrerequisites == old(e.immediatePrerequisites) + {d} && Within(all)
      ensures NoCycle(all) <==> old(NoCycle(all)) && !Reaches<Expectation>(old(Prerequisites(all)), d, e)
      ensures old(RetiredIsClosed(all)) ==> (RetiredIsClosed(all) <==> !e.retired || d.retired)
      ensures old(Settled(all)) ==> (Settled(all) <==> old(StaysSettled(all, e, d)))
      ensures forall x <- all :: x == d || Reaches<Expectation>(old(Prerequisites(all)), d, x) ==>
                                 Reaches<Expectation>(Prerequisites(all), e, x)
    {
      ghost var g, called := Prerequisites(all), CalledOnes(all);
      ghost var satisfied, retired := SatisfiedOnes(all), RetiredOnes(all);
      SettledIff(all);
      e.immediatePrerequisites := e.immediatePrerequisites + {d};
      assert Prerequisites(all) == WithEdge<Expectation>(g, e, d);
      assert called == CalledOnes(all) && satisfied == SatisfiedOnes(all) && retired == RetiredOnes(all);
      WaitsForAll(g, Prerequisites(all), all, d, e);
      AcyclicWithEdgeIff<Expectation>(g, e, d);
      SettledIff(all);
      if old(Settled(all)) { SettledWithEdgeIff<Expectation>(g, e, d, called, satisfied, retired); }
    }
  }

  lemma WaitsForAll(g: Graph<Expectation>, g': Graph<Expectation>, all: set<Expectation>, e: Expectation,
                    d: Expectation)
    requires g.Keys == g'.Keys == all && e in all && d in all
    requires (forall x: Expectation <- g :: g[x] <= g'[x]) && e in g'[d]
    ensures forall x <- all :: x == e || Reaches(g, e, x) ==> Reaches(g', d, x)
  {
    forall x <- all | x == e || Reaches(g, e, x) ensures Reaches(g', d, x) {
      if x == e {
        assert x in Level(g', d, 0);
      } else {
        var n: nat :| x in Level(g, e, n);
        LevelShifts(g, g', e, d, n);
      }
    }
  }

  /** What a call does to the expectation that it matches. A call of a saturated expectation is only counted.
      Otherwise the prerequisites are retired, and an expectation that retires on saturation follows them. So it
      keeps retirement closed under prerequisites, on which the short cut of RetireAllPreRequisites relies. The last
      clause holds whatever e is; Call says what follows for the expectations that a call can match. */
  method HandleCall(e: Expectation, ghost all: set<Expectation>) returns (handled: bool)
    requires e in all && Within(all) && RetiredIsClosed(all)
    modifies all`retired, e`callCount
    ensures handled <==> !old(e.cardinality.isSaturated(e.callCount))
    ensures RetiredIsClosed(all) && e.callCount == old(e.callCount) + 1
    ensures forall x <- all :: x.retired <==>
              old(x.retired)
              || (handled && (Reaches(Prerequisites(all), e, x)
                              || (x == e && e.retiresOnSaturation && e.cardinality.isSaturated(e.callCount))))
    ensures old(CalledAreDone(all) && AllReachedAreSatisfied(Prerequisites(all), all, e)) ==>
              (CalledAreDone(all) <==> e.IsSatisfied() || NoneCalledWaitsFor(all, e))
  {
    if e.IsSaturated() {
      e.callCount := e.callCount + 1;
      return false;
    }
    e.callCount := e.callCount + 1;
    e.RetireAllPreRequisites(all);
    if e.retiresOnSaturation && e.IsSaturated() {
      forall p <- e.immediatePrerequisites ensures p.retired { ReachesStep(Prerequisites(all), e, e, p); }
      e.Retire();
    }
    return true;
  }

  /** No expectation that has been called and is satisfied has e among its transitive prerequisites. */
  ghost predicate NoneCalledWaitsFor(all: set<Expectation>, e: Expectation)
    reads all
  {
    forall x <- all :: x.IsSatisfied() && x.callCount > 0 ==> !Reaches(Prerequisites(all), x, e)
  }

  // ---------------------------------------------------------------- calls

  /** The conditions under which an expectation may handle a call. */
  ghost predicate ShouldHandle(all: set<Expectation>, matches: Expectation -> bool, e: Expectation)
    reads all
  {
    e in all && !e.retired && AllReachedAreSatisfied(Prerequisites(all), all, e) && matches(e)
  }

  /** Looks, from the latest expectation to the first, for one that may handle a call. */
  method FindMatchingExpectation(expectations: seq<Expectation>, matches: Expectation -> bool,
                                 ghost all: set<Expectation>)
    returns (found: bool, i: nat)
    requires Within(all)
    requires forall e <- expectations :: e in all && LoopFree<Expectation>(SatisfiedEdges(all), e)
    ensures found ==> i < |expectations| && ShouldHandle(all, matches, expectations[i])
    ensures forall j :: (if found then i + 1 else 0) <= j < |expectations| ==>
              !ShouldHandle(all, matches, expectations[j])
  {
    i := |expectations|;
    while i > 0
      invariant i <= |expectations|
      invariant forall j :: i <= j < |expectations| ==> !ShouldHandle(all, matches, expectations[j])
    {
      i := i - 1;
      var e := expectations[i];
      if !e.retired {
        var satisfied := e.AllPrerequisitesAreSatisfied(all);
        if satisfied && matches(e) {
          return true, i;
        }
      }
    }
    return false, 0;
  }

  /** The transitive prerequisites of called and satisfied expectations are retired. */
  ghost predicate CalledRetired(all: set<Expectation>)
    reads all
  {
    forall x <- all, y <- all ::
      x.IsSatisfied() && x.callCount > 0 && Reaches(Prerequisites(all), x, y) ==> y.retired
  }

  /** What holds in every run that puts expectations into sequences before it calls them: with an expectation, its
      prerequisites are retired; those of a called and satisfied expectation are satisfied and retired. */
  ghost predicate Settled(all: set<Expectation>)
    reads all
  {
    Within(all) && RetiredIsClosed(all) && CalledAreDone(all) && CalledRetired(all)
  }

  ghost function CalledOnes(all: set<Expectation>): set<Expectation>
    reads all
  { set x <- all | x.IsSatisfied() && x.callCount > 0 }

  ghost function SatisfiedOnes(all: set<Expectation>): set<Expectation>
    reads all
  { set x <- all | x.IsSatisfied() }

  ghost function RetiredOnes(all: set<Expectation>): set<Expectation>
    reads all
  { set x <- all | x.retired }

  /** The same for any graph, with the sets of nodes that are called and satisfied, satisfied, and retired. */
  ghost predicate SettledIn<T>(g: Graph<T>, called: set<T>, satisfied: set<T>, retired: set<T>) {
    && (forall e <- g.Keys, p <- g[e] :: e in retired ==> p in retired)
    && (forall x <- called, y <- g.Keys :: x in g && Reaches(g, x, y) ==> y in satisfied && y in retired)
  }

  /** When a new edge from e to d keeps everything settled. */
  ghost predicate EdgeStaysSettled<T>(g: Graph<T>, e: T, d: T, called: set<T>, satisfied: set<T>, retired: set<T>)
    requires d in g
  {
    && (e in retired ==> d in retired)
    && ((exists x <- called :: x in g && (x == e || Reaches(g, x, e))) ==>
          forall y <- g.Keys :: y == d || Reaches(g, d, y) ==> y in satisfied && y in retired)
  }

  /** The same for a new prerequisite d of e. */
  ghost predicate StaysSettled(all: set<Expectation>, e: Expectation, d: Expectation)
    requires d in all
    reads all
  {
    EdgeStaysSettled<Expectation>(Prerequisites(all), e, d, CalledOnes(all), SatisfiedOnes(all), RetiredOnes(all))
  }

  lemma SettledIff(all: set<Expectation>)
    requires Within(all)
    ensures Settled(all) <==>
            SettledIn<Expectation>(Prerequisites(all), CalledOnes(all), SatisfiedOnes(all), RetiredOnes(all))
  {
    var g: Graph<Expectation> := Prerequisites(all);
    var called, satisfied, retired := CalledOnes(all), SatisfiedOnes(all), RetiredOnes(all);
    if SettledIn(g, called, satisfied, retired) {
      forall e <- all, p <- e.immediatePrerequisites | e.retired ensures p.retired {
        assert e in g.Keys && p in g[e] && e in retired;
        assert p in retired;
      }
      forall x <- all, y <- all | x.IsSatisfied() && x.callCount > 0 && Reaches(g, x, y)
        ensures y.IsSatisfied() && y.retired
      {
        assert x in called && y in satisfied && y in retired;
      }
    }
    if Settled(all) {
      forall x <- called, y <- g.Keys | x in g && Reaches(g, x, y) ensures y in satisfied && y in retired {}
    }
  }

  lemma SettledWithEdgeIff<T>(g: Graph<T>, e: T, d: T, called: set<T>, satisfied: set<T>, retired: set<T>)
    requires Closed(g) && e in g && d in g && e != d && SettledIn(g, called, satisfied, retired)
    ensures SettledIn(WithEdge(g, e, d), called, satisfied, retired) <==>
            EdgeStaysSettled(g, e, d, called, satisfied, retired)
  {
    var g' := WithEdge(g, e, d);
    if EdgeStaysSettled(g, e, d, called, satisfied, retired) {
      forall x <- called, y <- g'.Keys | x in g' && Reaches(g', x, y) ensures y in satisfied && y in retired {
        ReachesWithEdge(g, e, d, x, y);
      }
    }
    if SettledIn(g', called, satisfied, retired) {
      assert d in g'[e];
      forall x <- called, y <- g.Keys | x in g && (x == e || Reaches(g, x, e)) && (y == d || Reaches(g, d, y))
        ensures y in satisfied && y in retired
      {
        ThroughEdge(g, e, d, x, y);
      }
    }
  }

  lemma ThroughEdge<T>(g: Graph<T>, e: T, d: T, x: T, y: T)
    requires Closed(g) && e in g && d in g && x in g && (x == e || Reaches(g, x, e)) && (y == d || Reaches(g, d, y))
    ensures Reaches(WithEdge(g, e, d), x, y)
  {
    var g' := WithEdge(g, e, d);
    if x != e { FewerEdges(g', g, x, e); }
    ReachesStep(g', x, e, d);
    if y != d {
      FewerEdges(g', g, d, y);
      ReachesTrans(g', x, d, y);
    }
  }

  lemma UncalledIsSettled(all: set<Expectation>)
    requires Within(all) && forall e <- all :: e.callCount == 0 && !e.retired
    ensures Settled(all)
  {
  }

  /** A new expectation keeps everything settled. */
  lemma NewcomerStaysSettled(all: set<Expectation>, e: Expectation)
    requires Settled(all) && e.callCount == 0 && !e.retired && e.immediatePrerequisites == {}
    ensures Settled(all + {e})
  {
    var g: Graph<Expectation>, g': Graph<Expectation> := Prerequisites(all), Prerequisites(all + {e});
    forall x <- all + {e}, y <- all + {e} | x.callCount > 0 && Reaches(g', x, y)
      ensures x in all && y in all && Reaches(g, x, y)
    {
      var s := Reachable(g, x);
      forall z: Expectation | z in g'[x] ensures z in s { ReachesStep(g, x, x, z); }
      forall w <- s, z: Expectation | z in g'[w] ensures z in s { ReachesStep(g, x, w, z); }
      ReachesInside(g', x, y, s);
    }
  }

  /** So does a new prerequisite of an expectation that is neither retired nor called. */
  lemma UncalledStaysSettled(all: set<Expectation>, e: Expectation, d: Expectation)
    requires Settled(all) && e in all && d in all && !e.retired && e.callCount == 0
    ensures StaysSettled(all, e, d)
  {
  }

  /** A call: the latest expectation that may handle it does. Whatever expectations there are, a call keeps them
      settled: what it matches is not retired, so no called and satisfied expectation waits for it. */
  method Call(expectations: seq<Expectation>, matches: Expectation -> bool, ghost all: set<Expectation>)
    returns (found: bool, i: nat, handled: bool)
    requires Settled(all) && forall e <- all :: e.cardinality.Bounded()
    requires forall e <- expectations :: e in all && LoopFree<Expectation>(SatisfiedEdges(all), e)
    modifies all`retired, all`callCount
    ensures Settled(all)
    ensures found ==> i < |expectations| && old(ShouldHandle(all, matches, expectations[i]))
    ensures forall j :: (if found then i + 1 else 0) <= j < |expectations| ==>
              !old(ShouldHandle(all, matches, expectations[j]))
    ensures found ==>
      var e := expectations[i];
      && !old(e.retired) && matches(e)
      && forall x <- all :: Reaches<Expectation>(Prerequisites(all), e, x) ==>
                              old(x.cardinality.isSatisfied(x.callCount))
    ensures forall j :: (if found then i + 1 else 0) <= j < |expectations| && matches(expectations[j])
                        && !old(expectations[j].retired) ==>
              exists x <- all :: Reaches<Expectation>(Prerequisites(all), expectations[j], x)
                                 && !old(x.cardinality.isSatisfied(x.callCount))
    ensures handled <==> found && !old(expectations[i].cardinality.isSaturated(expectations[i].callCount))
    ensures forall x <- all :: x.callCount == old(x.callCount) + if found && x == expectations[i] then 1 else 0
    ensures forall x <- all :: x.retired <==>
              old(x.retired)
              || (handled && (Reaches(Prerequisites(all), expectations[i], x)
                              || (x == expectations[i] && x.retiresOnSaturation
                                  && x.cardinality.isSaturated(x.callCount))))
  {
    handled := false;
    found, i := FindMatchingExpectation(expectations, matches, all);
    if found {
      handled := HandleCall(expectations[i], all);
    }
  }

  // ---------------------------------------------------------------- sequences that break promises

  /** Two expectations that are put into two sequences in opposite orders wait for each other. */
  method CrossedSequences(cardinality: Cardinality) returns (a: Expectation, b: Expectation)
    ensures fresh(a) && fresh(b) && Within({a, b}) && !NoCycle({a, b})
  {
    a := new Expectation(cardinality, false);
    b := new Expectation(cardinality, false);
    var s := new Sequence();
    var t := new Sequence();
    ghost var all: set<Expectation> := {a, b};
    s.AddExpectation(a, all);
    s.AddExpectation(b, all);
    t.AddExpectation(b, all);
    ghost var g: Graph<Expectation> := Prerequisites(all);
    ReachesStep(g, b, b, a);
    t.AddExpectation(a, all);
  }

  /** An expectation b that waits for a is called, which retires a. If a is put into another sequence only then, it
      waits for c, which is not retired. */
  method LateSequence() returns (a: Expectation, b: Expectation, c: Expectation)
    ensures fresh(a) && fresh(b) && fresh(c)
    ensures a.retired && !c.retired && c in a.immediatePrerequisites && !RetiredIsClosed({a, b, c})
  {
    a, b, c := TwoInSequence();
    CallSecond(a, b, c);
    var t := new Sequence();
    ghost var all: set<Expectation> := {a, b, c};
    t.AddExpectation(c, all);
    t.AddExpectation(a, all);
  }

  const INT_MAX: nat := 0x7fff_ffff

  /** Three expectations that any number of calls satisfies, the first two of them in a sequence. */
  method TwoInSequence() returns (a: Expectation, b: Expectation, c: Expectation)
    ensures fresh(a) && fresh(b) && fresh(c) && OnlyWaits(a, b, c)
  {
    var anyNumber := Between(0, INT_MAX);
    a := new Expectation(anyNumber, false);
    b := new Expectation(anyNumber, false);
    c := new Expectation(anyNumber, false);
    var s := new Sequence();
    ghost var all: set<Expectation> := {a, b, c};
    s.AddExpectation(a, all);
    s.AddExpectation(b, all);
  }

  /** Three different expectations, not called yet, of which b waits for a. */
  ghost predicate OnlyWaits(a: Expectation, b: Expectation, c: Expectation)
    reads a, b, c
  {
    && a != b && b != c && a != c
    && a.immediatePrerequisites == {} && b.immediatePrerequisites == {a} && c.immediatePrerequisites == {}
    && forall e <- {a, b, c} :: e.callCount == 0 && !e.retired && e.cardinality == Between(0, INT_MAX)
  }

  /** b reaches a, and there is nothing else to reach. */
  lemma OnlyReached(a: Expectation, b: Expectation, c: Expectation, x: Expectation, y: Expectation)
    requires OnlyWaits(a, b, c) && x in {a, b, c} && y in {a, b, c}
    ensures Reaches<Expectation>(Prerequisites({a, b, c}), x, y) <==> x == b && y == a
  {
    var g: Graph<Expectation> := Prerequisites({a, b, c});
    if x == b {
      ReachesStep(g, b, b, a);
      if Reaches(g, x, y) { ReachesInside(g, x, y, {a}); }
    } else if Reaches(g, x, y) {
      ReachesInside(g, x, y, {});
    }
  }

  /** The call that b handles. */
  method CallSecond(a: Expectation, b: Expectation, c: Expectation)
    requires OnlyWaits(a, b, c)
    modifies {a, b, c}`retired, {a, b, c}`callCount
    ensures a.retired && !c.retired
  {
    ghost var all: set<Expectation> := {a, b, c};
    UncalledIsSettled(all);
    forall x <- all, y <- all
      ensures Reaches<Expectation>(Prerequisites(all), x, y) <==> x == b && y == a
    {
      OnlyReached(a, b, c, x, y);
    }
    forall e <- all ensures LoopFree<Expectation>(SatisfiedEdges(all), e) { NoCycleSuffices(all, e); }
    var expectations, matches := [a, b, c], (e: Expectation) => e == b;
    assert ShouldHandle(all, matches, expectations[1]);
    var found, i, handled := Call(expectations, matches, all);
  }

  /** Every transitive prerequisite of e is satisfied. */
  ghost predicate AllReachedAreSatisfied(g: Graph<Expectation>, all: set<Expectation>, e: Expectation)
    requires e in g
    reads all
  {
    forall x <- all :: Reaches(g, e, x) ==> x.IsSatisfied()
  }

  /** Everything on the worklist is the root or one of its transitive prerequisites. */
  ghost predicate OnTheWay(g: Graph<Expectation>, root: Expectation, work: seq<Expectation>)
    requires root in g
  {
    forall e <- work :: e in g && (e == root || Reaches(g, root, e))
  }

  /** The prerequisites of visited expectations are satisfied, and visited or on the worklist. */
  ghost predicate Visited(g: Graph<Expectation>, visited: set<Expectation>, work: seq<Expectation>)
    reads g.Keys
  {
    && visited <= g.Keys
    && forall v: Expectation, p: Expectation | v in visited && p in g[v] ::
         p in g && p.IsSatisfied() && (p in visited || p in work)
  }

  /** The walk over the prerequisites of root, the worklist being what it still has to visit. */
  ghost predicate Walk(all: set<Expectation>, root: Expectation, work: seq<Expectation>, visited: set<Expectation>)
    reads all
  {
    && root in all && Within(all)
    && OnTheWay(Prerequisites(all), root, work) && (root in visited || root in work)
    && Visited(Prerequisites(all), visited, work)
    && LoopFree<Expectation>(SatisfiedEdges(all), root) && OnTheWay(SatisfiedEdges(all), root, work)
  }

  ghost function WalkLoad(all: set<Expectation>, work: seq<Expectation>): nat
    reads all
  {
    if forall e <- work :: e in all then Load<Expectation>(SatisfiedEdges(all), work) else 0
  }

  lemma WalkStarts(all: set<Expectation>, root: Expectation)
    requires root in all && Within(all) && LoopFree<Expectation>(SatisfiedEdges(all), root)
    ensures Walk(all, root, [root], {})
  {
  }

  lemma VisitedStep(g: Graph<Expectation>, visited: set<Expectation>, work: seq<Expectation>, exp: Expectation,
                    pushed: seq<Expectation>)
    requires Visited(g, visited, work) && exp in g && g[exp] <= g.Keys
    requires forall p: Expectation <- g[exp] :: p.IsSatisfied() && p in pushed
    requires forall e <- work :: e == exp || e in pushed
    ensures Visited(g, visited + {exp}, pushed)
  {
  }

  /** The edges that AllPrerequisitesAreSatisfied follows: those to satisfied prerequisites. */
  ghost function SatisfiedEdges(all: set<Expectation>): Graph<Expectation>
    reads all
  {
    map e | e in all :: set p <- e.immediatePrerequisites | p in all && p.IsSatisfied()
  }

  /** The edges that FindUnsatisfiedPrerequisites follows: those to open prerequisites. */
  ghost function OpenEdges(all: set<Expectation>): Graph<Expectation>
    reads all
  {
    map e | e in all :: set p <- e.immediatePrerequisites | p in all && p.IsOpen()
  }

  /** Without cycles, both walks end from everywhere. */
  lemma NoCycleSuffices(all: set<Expectation>, root: Expectation)
    requires NoCycle(all) && root in all
    ensures LoopFree<Expectation>(SatisfiedEdges(all), root) && LoopFree<Expectation>(OpenEdges(all), root)
  {
    forall x <- all ensures !Reaches<Expectation>(SatisfiedEdges(all), x, x) {
      if Reaches<Expectation>(SatisfiedEdges(all), x, x) {
        FewerEdges<Expectation>(Prerequisites(all), SatisfiedEdges(all), x, x);
      }
    }
    forall x <- all ensures !Reaches<Expectation>(OpenEdges(all), x, x) {
      if Reaches<Expectation>(OpenEdges(all), x, x) {
        FewerEdges<Expectation>(Prerequisites(all), OpenEdges(all), x, x);
      }
    }
  }

  /** A step along edges k that lead to the nodes pushed: they are on the way, and less remains to be done. */
  lemma StepDrops(k: Graph<Expectation>, root: Expectation, work: seq<Expectation>, rest: seq<Expectation>,
                  exp: Expectation, pushed: seq<Expectation>)
    requires LoopFree(k, root) && OnTheWay(k, root, work) && work == rest + [exp]
    requires exp in k ==> Pushes(rest, pushed, k[exp])
    ensures OnTheWay(k, root, pushed) && Load(k, pushed) < Load(k, work)
  {
    assert exp in work && forall e <- rest :: e in work;
    forall p: Expectation | p in k[exp] ensures p in k && Reaches(k, root, p) { ReachesStep(k, root, exp, p); }
    LoadDrops(k, work, rest, exp, pushed);
    forall e <- pushed ensures e in rest || e in k[exp] {
      var i :| 0 <= i < |pushed| && pushed[i] == e;
      assert i < |rest| ==> rest[i] == e;
    }
  }

  lemma SatisfiedStep(all: set<Expectation>, k: Graph<Expectation>, root: Expectation, work: seq<Expectation>,
                      rest: seq<Expectation>, exp: Expectation, pushed: seq<Expectation>)
    requires Within(all) && k == SatisfiedEdges(all) && LoopFree(k, root)
    requires OnTheWay(k, root, work) && work == rest + [exp]
    requires Pushes(rest, pushed, exp.immediatePrerequisites)
    requires exp in all ==> forall p <- exp.immediatePrerequisites :: p.IsSatisfied()
    ensures OnTheWay(k, root, pushed) && Load(k, pushed) < Load(k, work)
  {
    assert exp in all ==> k[exp] == exp.immediatePrerequisites;
    StepDrops(k, root, work, rest, exp, pushed);
  }

  lemma OpenStepDrops(all: set<Expectation>, k: Graph<Expectation>, root: Expectation, work: seq<Expectation>,
                      rest: seq<Expectation>, exp: Expectation, pushed: seq<Expectation>)
    requires Within(all) && k == OpenEdges(all) && LoopFree(k, root)
    requires OnTheWay(k, root, work) && work == rest + [exp]
    requires Pushes(rest, pushed, OpenOnes(exp.immediatePrerequisites))
    ensures OnTheWay(k, root, pushed) && Load(k, pushed) < Load(k, work)
  {
    assert exp in all ==> k[exp] == OpenOnes(exp.immediatePrerequisites);
    StepDrops(k, root, work, rest, exp, pushed);
  }

  /** With nothing left on the worklist, everything that can be reached is satisfied. */
  lemma VisitedAll(all: set<Expectation>, root: Expectation, visited: set<Expectation>)
    requires Walk(all, root, [], visited)
    ensures AllReachedAreSatisfied(Prerequisites(all), all, root)
  {
    var g: Graph<Expectation> := Prerequisites(all);
    var s := set y <- all | y.IsSatisfied() && y in visited;
    forall x <- all | Reaches(g, root, x) ensures x.IsSatisfied() { ReachesInside(g, root, x, s); }
  }

  /** The open ones among done have been pushed, the unsatisfied ones collected. */
  ghost predicate SortedOut(work: seq<Expectation>, unsatisfied: set<Expectation>, done: set<Expectation>,
                            pushed: seq<Expectation>, result: set<Expectation>)
    reads done
  {
    && Pushes(work, pushed, OpenOnes(done))
    && Elements(pushed) == Elements(work) + OpenOnes(done)
    && result == unsatisfied + UnsatisfiedOnes(done)
  }

  ghost function OpenOnes(s: set<Expectation>): set<Expectation>
    reads s
  { set e <- s | e.IsOpen() }

  ghost function UnsatisfiedOnes(s: set<Expectation>): set<Expectation>
    reads s
  { set e <- s | !e.IsSatisfied() }

  /** With all prerequisites of exp sorted out, its open ones are on the worklist and its unsatisfied ones found. */
  lemma SortedAll(h: Graph<Expectation>, root: Expectation, work: seq<Expectation>, unsatisfied: set<Expectation>,
                  exp: Expectation, pushed: seq<Expectation>, result: set<Expectation>)
    requires SortedOut(work, unsatisfied, exp.immediatePrerequisites, pushed, result)
    requires root in h && OnTheWay(h, root, work)
    requires forall p <- exp.immediatePrerequisites :: p in h && Reaches(h, root, p)
    ensures forall e :: e in pushed <==> e in work || (e in exp.immediatePrerequisites && e.IsOpen())
    ensures OnTheWay(h, root, pushed)
  {
    assert forall e :: e in pushed <==> e in Elements(pushed);
    assert forall e :: e in work <==> e in Elements(work);
  }

  /** The prerequisites of an expectation on the way are on the way, if its edges are in the graph. */
  lemma ChildrenReached(all: set<Expectation>, g: Graph<Expectation>, root: Expectation, work: seq<Expectation>,
                        exp: Expectation)
    requires g.Keys == all && root in all && Closed(g)
    requires OnTheWay(g, root, work + [exp])
    requires exp in all ==> g[exp] == exp.immediatePrerequisites
    ensures exp in all && OnTheWay(g, root, work)
    ensures forall p <- exp.immediatePrerequisites :: p in all && Reaches(g, root, p)
  {
    assert exp in work + [exp] && forall e <- work :: e in work + [exp];
    forall p <- exp.immediatePrerequisites ensures p in all && Reaches(g, root, p) { ReachesStep(g, root, exp, p); }
  }

  lemma OpenChildrenReached(all: set<Expectation>, h: Graph<Expectation>, root: Expectation, work: seq<Expectation>,
                            exp: Expectation)
    requires root in all && Within(all) && h == OpenGraph(all, root)
    requires OnTheWay(h, root, work + [exp]) && (exp == root || exp.IsOpen())
    ensures exp in all && OnTheWay(h, root, work)
    ensures forall p <- exp.immediatePrerequisites :: p in all && Reaches(h, root, p)
  {
    ChildrenReached(all, h, root, work, exp);
  }

  lemma SortOne(work: seq<Expectation>, unsatisfied: set<Expectation>, done: set<Expectation>,
                pushed: seq<Expectation>, result: set<Expectation>, e: Expectation)
    requires SortedOut(work, unsatisfied, done, pushed, result) && e !in done
    ensures SortedOut(work, unsatisfied, done + {e}, if e.IsOpen() then pushed + [e] else pushed,
                      if e.IsSatisfied() then result else result + {e})
  {
    PushesOne(work, pushed, OpenOnes(done), e);
    var open, bad := OpenOnes(done), UnsatisfiedOnes(done);
    var open', bad' := OpenOnes(done + {e}), UnsatisfiedOnes(done + {e});
    if e.IsSatisfied() {
      assert bad' == bad;
      if e.IsOpen() {
        assert open' == open + {e};
        assert Elements(pushed + [e]) == Elements(pushed) + {e};
      } else {
        assert open' == open;
      }
    } else {
      assert bad' == bad + {e} && open' == open;
    }
  }

  /** The prerequisites that the search for unsatisfied ones follows: those of the root, and those of expectations
      that are satisfied without ever having been called. */
  ghost function OpenGraph(all: set<Expectation>, root: Expectation): Graph<Expectation>
    reads all
  {
    map e | e in all :: if e == root || e.IsOpen() then e.immediatePrerequisites else {}
  }

  /** A path along prerequisites that passes, behind the root, only through expectations that are satisfied although
      they have never been called. */
  ghost predicate OpenPath(all: set<Expectation>, root: Expectation, p: seq<Expectation>)
    reads all, p
  {
    && |p| >= 2 && p[0] == root && (forall i :: 0 <= i < |p| ==> p[i] in all)
    && forall i {:trigger Passes(root, p, i)} :: 0 <= i < |p| - 1 ==> Passes(root, p, i)
  }

  ghost predicate Passes(root: Expectation, p: seq<Expectation>, i: int)
    requires 0 <= i < |p| - 1
    reads p
  {
    && p[i+1] in p[i].immediatePrerequisites
    && (p[i] == root || (p[i].callCount == 0 && p[i].cardinality.isSatisfied(0)))
  }

  /** The search goes exactly where such paths lead. */
  lemma OpenGraphIffPath(all: set<Expectation>, root: Expectation, x: Expectation)
    requires root in all && Within(all)
    ensures Reaches<Expectation>(OpenGraph(all, root), root, x) <==>
            exists p: seq<Expectation> :: OpenPath(all, root, p) && p[|p|-1] == x
  {
    var h: Graph<Expectation> := OpenGraph(all, root);
    ReachesIffPath<Expectation>(h, root, x);
    if p: seq<Expectation> :| IsPath(h, p) && p[0] == root && p[|p|-1] == x { PathIsOpen(all, root, p); }
    if p: seq<Expectation> :| OpenPath(all, root, p) && p[|p|-1] == x {
      forall i | 0 <= i < |p| - 1 ensures FollowsEdge(h, p, i) { assert Passes(root, p, i); }
      assert IsPath(h, p);
    }
  }

  lemma PathIsOpen(all: set<Expectation>, root: Expectation, p: seq<Expectation>)
    requires root in all && Within(all) && IsPath<Expectation>(OpenGraph(all, root), p) && p[0] == root
    ensures OpenPath(all, root, p)
  {
    var h: Graph<Expectation> := OpenGraph(all, root);
    forall i | 0 <= i < |p| ensures p[i] in all { assert i > 0 ==> FollowsEdge(h, p, i - 1); }
    forall i | 0 <= i < |p| - 1 ensures Passes(root, p, i) { assert FollowsEdge(h, p, i); }
  }

  /** The successors of visited expectations are visited or on the worklist if open, and found if unsatisfied. */
  ghost predicate Explored(h: Graph<Expectation>, visited: set<Expectation>, work: seq<Expectation>,
                           found: set<Expectation>)
    reads h.Keys
  {
    && visited <= h.Keys
    && forall v: Expectation, p: Expectation | v in visited && p in h[v] ::
         && p in h
         && (p.IsOpen() ==> p in visited || p in work)
         && (!p.IsSatisfied() ==> p in found)
  }

  /** The search from root for what is unsatisfied, the worklist being what it still has to look at. */
  ghost predicate Search(all: set<Expectation>, h: Graph<Expectation>, k: Graph<Expectation>, root: Expectation,
                         work: seq<Expectation>, visited: set<Expectation>, unsatisfied: set<Expectation>,
                         found: set<Expectation>)
    reads h.Keys, all, visited, work
  {
    && root in h && OnTheWay(h, root, work) && (root in visited || root in work)
    && LoopFree(k, root) && OnTheWay(k, root, work)
    && (forall e <- work :: e == root || e.IsOpen()) && (forall v <- visited :: v == root || v.IsOpen())
    && Explored(h, visited, work, found)
    && unsatisfied <= found
    && forall x <- found - unsatisfied :: x in all && Reaches(h, root, x) && !x.IsSatisfied()
  }

  lemma ExploredStep(h: Graph<Expectation>, visited: set<Expectation>, work: seq<Expectation>, found: set<Expectation>,
                     exp: Expectation, pushed: seq<Expectation>, found': set<Expectation>)
    requires Explored(h, visited, work, found) && exp in h && h[exp] <= h.Keys
    requires forall p: Expectation <- h[exp] :: (p.IsOpen() ==> p in pushed) && (!p.IsSatisfied() ==> p in found')
    requires (forall e <- work :: e == exp || e in pushed) && found <= found'
    ensures Explored(h, visited + {exp}, pushed, found')
  {
  }

  /** With nothing left on the worklist, exactly the unsatisfied expectations that can be reached have been added. */
  lemma ExploredAll(all: set<Expectation>, h: Graph<Expectation>, k: Graph<Expectation>, root: Expectation,
                    visited: set<Expectation>, unsatisfied: set<Expectation>, found: set<Expectation>)
    requires root in all && h == OpenGraph(all, root) && Search(all, h, k, root, [], visited, unsatisfied, found)
    ensures found == unsatisfied + set x <- all | Reaches(h, root, x) && !x.IsSatisfied()
  {
    var s := set y <- all | (y.IsOpen() ==> y in visited) && (!y.IsSatisfied() ==> y in found);
    forall y: Expectation | y in h[root] ensures y in s { assert root in visited && y in h; }
    forall x <- s, y: Expectation | y in h[x] ensures y in s { assert x in visited; }
    forall x <- all | Reaches(h, root, x) && !x.IsSatisfied() ensures x in found { ReachesInside(h, root, x, s); }
  }

  /** Every called and satisfied prerequisite has satisfied prerequisites itself. */
  ghost predicate CalledAreDone(all: set<Expectation>)
    requires Within(all)
    reads all
  {
    forall e <- all, x <- all ::
      e.IsSatisfied() && e.callCount > 0 && Reaches(Prerequisites(all), e, x) ==> x.IsSatisfied()
  }

  /** As long as called expectations had their prerequisites satisfied and keep them so, the search finds something to
      report exactly when some transitive prerequisite is unsatisfied. */
  lemma SearchExplainsFailure(all: set<Expectation>, root: Expectation)
    requires root in all && Within(all) && CalledAreDone(all)
    ensures (exists x <- all :: Reaches(OpenGraph(all, root), root, x) && !x.IsSatisfied()) <==>
            (exists x <- all :: Reaches(Prerequisites(all), root, x) && !x.IsSatisfied())
  {
    var g: Graph<Expectation>, h: Graph<Expectation> := Prerequisites(all), OpenGraph(all, root);
    forall x <- all | Reaches(h, root, x) ensures Reaches(g, root, x) { FewerEdges<Expectation>(g, h, root, x); }
    if forall x <- all :: Reaches(h, root, x) ==> x.IsSatisfied() {
      forall x <- all | Reaches(g, root, x) ensures x.IsSatisfied() {
        var n: nat :| x in Level(g, root, n);
        AllNearOrFar(all, root, n, x);
      }
    }
  }

  /** All that the search can reach is satisfied. */
  ghost predicate NothingFound(all: set<Expectation>, root: Expectation)
    requires root in all
    reads all
  {
    forall y <- all :: Reaches(OpenGraph(all, root), root, y) ==> y.IsSatisfied()
  }

  /** x is reached by the search, or from a called and satisfied expectation. */
  ghost predicate NearOrFar(all: set<Expectation>, root: Expectation, x: Expectation)
    requires root in all
    reads all
  {
    || Reaches(OpenGraph(all, root), root, x)
    || exists e <- all :: e.IsSatisfied() && e.callCount > 0 && Reaches(Prerequisites(all), e, x)
  }

  /** If the search finds nothing, whatever the root reaches is near or far, and satisfied. */
  lemma {:induction false} AllNearOrFar(all: set<Expectation>, root: Expectation, n: nat, x: Expectation)
    requires root in all && Within(all) && CalledAreDone(all) && NothingFound(all, root)
    requires x in Level<Expectation>(Prerequisites(all), root, n)
    ensures x in all && x.IsSatisfied() && NearOrFar(all, root, x)
  {
    var g: Graph<Expectation> := Prerequisites(all);
    if n == 0 {
      OpenStep(all, root, root, x);
    } else if x in Level(g, root, n - 1) {
      AllNearOrFar(all, root, n - 1, x);
    } else {
      var y :| y in Level(g, root, n - 1) && y in g && x in g[y];
      AllNearOrFar(all, root, n - 1, y);
      NextNearOrFar(all, root, y, x);
    }
  }

  lemma NextNearOrFar(all: set<Expectation>, root: Expectation, y: Expectation, x: Expectation)
    requires root in all && Within(all) && CalledAreDone(all) && NothingFound(all, root)
    requires y in all && x in y.immediatePrerequisites && y.IsSatisfied() && NearOrFar(all, root, y)
    ensures x in all && x.IsSatisfied() && NearOrFar(all, root, x)
  {
    if Reaches(OpenGraph(all, root), root, y) && y.callCount == 0 {
      OpenStep(all, root, y, x);
    } else {
      var e := y;
      if !Reaches(OpenGraph(all, root), root, y) {
        e :| e in all && e.IsSatisfied() && e.callCount > 0 && Reaches(Prerequisites(all), e, y);
      }
      ReachesStep(Prerequisites(all), e, y, x);
    }
  }

  lemma OpenStep(all: set<Expectation>, root: Expectation, x: Expectation, y: Expectation)
    requires root in all && Within(all) && x in all && y in x.immediatePrerequisites
    requires x == root || (x.IsOpen() && Reaches(OpenGraph(all, root), root, x))
    ensures y in all && Reaches(OpenGraph(all, root), root, y)
  {
    ReachesStep(OpenGraph(all, root), root, x, y);
  }

  /** The prerequisite graph of a set of expectations. */
  ghost function Prerequisites(all: set<Expectation>): Graph<Expectation>
    reads all`immediatePrerequisites
  {
    map e | e in all :: e.immediatePrerequisites
  }

  ghost predicate Within(all: set<Expectation>)
    reads all`immediatePrerequisites
  {
    forall e <- all :: e.immediatePrerequisites <= all
  }

  /** No expectation is its own transitive prerequisite. */
  ghost predicate NoCycle(all: set<Expectation>)
    reads all`immediatePrerequisites
  {
    Within(all) && Acyclic<Expectation>(Prerequisites(all))
  }

  ghost function Unretired(all: set<Expectation>): set<Expectation>
    reads all`retired
  { set x <- all | !x.retired }

  /** The state of RetireAllPreRequisites: some of what root reaches has been retired, and the prerequisites of
      everything that is retired, or root, and neither pending nor on the worklist are retired as well. */
  ghost predicate Retiring(all: set<Expectation>, g: Graph<Expectation>, root: Expectation, before: set<Expectation>,
                           work: seq<Expectation>, pending: set<Expectation>)
    reads all`retired
  {
    && g.Keys == all && root in all
    && OnTheWay(g, root, work) && (forall e <- pending :: e in all && (e == root || Reaches(g, root, e)))
    && (forall x <- before :: x in all && x.retired)
    && (forall x <- all :: x.retired ==> x in before || Reaches(g, root, x))
    && (forall x <- all | (x.retired || x == root) && x !in work && x !in pending ::
          forall p: Expectation <- g[x] :: p in all && p.retired)
  }

  /** With nothing left on the worklist, exactly what was retired before and what root reaches is retired. */
  lemma RetiredAll(all: set<Expectation>, g: Graph<Expectation>, root: Expectation, before: set<Expectation>)
    requires Within(all) && g == Prerequisites(all) && Retiring(all, g, root, before, [], {})
    ensures RetiredIsClosed(all)
    ensures forall x <- all :: x.retired <==> x in before || Reaches(g, root, x)
  {
    var s := set e <- all | e.retired;
    forall x <- all | Reaches(g, root, x) ensures x.retired { ReachesInside(g, root, x, s); }
  }

  lemma TakeLast(all: set<Expectation>, g: Graph<Expectation>, root: Expectation, before: set<Expectation>,
                 work: seq<Expectation>, rest: seq<Expectation>, exp: Expectation)
    requires Retiring(all, g, root, before, work, {}) && work == rest + [exp]
    ensures Retiring(all, g, root, before, rest, {exp})
  {
    assert exp in work && forall e <- rest :: e in work;
  }

  /** With an expectation, all its prerequisites are retired. */
  ghost predicate RetiredIsClosed(all: set<Expectation>)
    reads all`immediatePrerequisites, all`retired
  {
    forall e <- all, p <- e.immediatePrerequisites :: e.retired && p in all ==> p.retired
  }
}
