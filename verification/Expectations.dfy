/**
 Expectations on mock functions: which of them may handle a call, which a call retires, and how
 sequences order them.
 */
module Expectations {
  import opened Common
  import opened PrerequisiteGraph

  datatype Bounds = Between(min: nat, max: nat)

  type Cardinality = b: Bounds | b.min <= b.max witness Between(1, 1)

  class Expectation {
    const cardinality: Cardinality
    const retiresOnSaturation: bool
    var immediatePrerequisites: set<Expectation>
    var callCount: nat
    var retired: bool

    constructor (cardinality: Cardinality, retiresOnSaturation: bool)
      ensures this.cardinality == cardinality && this.retiresOnSaturation == retiresOnSaturation
      ensures immediatePrerequisites == {} && callCount == 0 && !retired
    {
      this.cardinality := cardinality;
      this.retiresOnSaturation := retiresOnSaturation;
      immediatePrerequisites, callCount, retired := {}, 0, false;
    }

    predicate IsSatisfied()
      reads `callCount
    {
      cardinality.min <= callCount <= cardinality.max
    }

    predicate IsSaturated()
      reads `callCount
    {
      callCount >= cardinality.max
    }

    method Retire(ghost all: set<Expectation>)
      requires this in all
      modifies `retired
      ensures Retired(all) == old(Retired(all)) + {this}
      ensures !old(retired) ==> ActiveCount(all) < old(ActiveCount(all))
    {
      ghost var active := all - Retired(all);
      ghost var was := retired;
      retired := true;
      if !was {
        assert this in active && this !in all - Retired(all);
        SubsetSize(all - Retired(all), active);
      }
    }

    // The graph stays acyclic exactly when the new prerequisite does not wait for this expectation.  The
    // order is kept, also between calls, if this expectation was neither called nor retired.
    method AddPrerequisite(ghost all: set<Expectation>, p: Expectation)
      requires this in all && p in all && Total(Graph(all))
      modifies `immediatePrerequisites
      ensures immediatePrerequisites == old(immediatePrerequisites) + {p}
      ensures Total(Graph(all)) && Follows(old(Graph(all)), Graph(all), this, p)
      ensures old(InOrder(all)) && Acyclic(Graph(all)) && !retired && this !in Committed(all) ==> InOrder(all)
    {
      hide Transitive, Acyclic, Orderly;
      ghost var g := Graph(all);
      WithEdgeIsAcyclicIff(g, this, p);
      immediatePrerequisites := immediatePrerequisites + {p};
      assert Graph(all) == WithEdge(g, this, p);
      if Orderly(g, Retired(all), Satisfied(all), Committed(all)) {
        EdgeKeepsOrder(g, Retired(all), Satisfied(all), Committed(all), this, p);
      }
    }

    // Retires exactly the transitive prerequisites that are not yet retired.
    method RetireAllPreRequisites(ghost all: set<Expectation>)
      requires this in all && Total(Graph(all)) && ClosedUnder(Graph(all), Retired(all))
      modifies all`retired
      ensures Retired(all) == old(Retired(all)) + Transitive(Graph(all), this)
      ensures ClosedUnder(Graph(all), Retired(all))
    {
      hide Exploring, Transitive, ClosedUnder, Total, ActiveCount;
      ghost var g := Graph(all);
      ghost var before := Retired(all);
      if retired {
        // An expectation never retires before its prerequisites.
        ClosedSetHasTransitive(g, this, before);
        return;
      }
      var worklist := [this];
      assert Members(worklist) == {this};
      WalkStarts(g, this, before);
      ghost var at := this;
      while worklist != []
        invariant Graph(all) == g
        invariant Exploring(g, this, before, Retired(all), Members(worklist), at, {})
        decreases ActiveCount(all), |worklist|
      {
        ghost var active, waiting := ActiveCount(all), worklist;
        var exp := worklist[|worklist| - 1];
        worklist := worklist[..|worklist| - 1];
        var rest := exp.immediatePrerequisites;
        WalkPops(g, this, before, Retired(all), Members(waiting), at, exp, Members(worklist));
        at := exp;
        while rest != {}
          invariant Graph(all) == g
          invariant Exploring(g, this, before, Retired(all), Members(worklist), exp, rest)
          invariant ActiveCount(all) < active || (ActiveCount(all) == active && |worklist| < |waiting|)
          decreases rest
        {
          var next :| next in rest;
          WalkFinds(g, this, before, Retired(all), Members(worklist), exp, rest, next);
          rest := rest - {next};
          if !next.retired {
            next.Retire(all);
            MembersOfPush(worklist, next);
            worklist := worklist + [next];
          } else {
            assert Retired(all) == Retired(all) + {next};
          }
        }
      }
      assert Members(worklist) == {};
      WalkEnds(g, this, before, Retired(all), at);
    }

    // Whether every transitive prerequisite is satisfied; no visited set is needed on an acyclic graph.
    method AllPrerequisitesAreSatisfied(ghost all: set<Expectation>) returns (result: bool)
      requires this in all && Total(Graph(all)) && Acyclic(Graph(all))
      ensures result <==> Transitive(Graph(all), this) <= Satisfied(all)
      ensures result <==> forall p <- Transitive(Graph(all), this) :: p.cardinality.min <= p.callCount <= p.cardinality.max
    {
      hide Exploring, Affordable, Work, Transitive, Reach, ClosedUnder, Total, Acyclic, Through;
      ghost var g := Graph(all);
      ghost var found, at := {}, this;
      var worklist := [this];
      assert Members(worklist) == {this};
      WalkStarts(g, this, {});
      while worklist != []
        invariant forall e <- worklist :: e in g
        invariant Exploring(g, this, {}, found, Members(worklist), at, {})
        invariant found <= Satisfied(all)
        decreases Work(g, worklist)
      {
        ghost var waiting := worklist;
        var exp := worklist[|worklist| - 1];
        worklist := worklist[..|worklist| - 1];
        var rest := exp.immediatePrerequisites;
        PopIsAffordable(g, waiting);
        WalkPops(g, this, {}, found, Members(waiting), at, exp, Members(worklist));
        at := exp;
        while rest != {}
          invariant Exploring(g, this, {}, found, Members(worklist), exp, rest)
          invariant Affordable(g, worklist, exp, rest, Work(g, waiting))
          invariant found <= Satisfied(all)
          decreases rest
        {
          var next :| next in rest;
          WalkFinds(g, this, {}, found, Members(worklist), exp, rest, next);
          PushIsAffordable(g, worklist, exp, rest, next, Work(g, waiting));
          if !next.IsSatisfied() {
            return false;
          }
          MembersOfPush(worklist, next);
          rest := rest - {next};
          found := found + {next};
          worklist := worklist + [next];
        }
        AffordableLeavesLess(g, worklist, exp, Work(g, waiting));
      }
      assert Members(worklist) == {};
      WalkEnds(g, this, {}, found, at);
      return true;
    }

    // Adds the unsatisfied prerequisites that are reached through satisfied expectations not yet called.
    method FindUnsatisfiedPrerequisites(ghost all: set<Expectation>,
            result: set<Expectation>) returns (result': set<Expectation>)
      requires this in all && Total(Graph(all)) && Acyclic(Graph(all))
      ensures result' == result + Unmet(all, this)
    {
      hide Exploring, Affordable, Work, Transitive, Reach, ClosedUnder, Total, Acyclic, Satisfied, Called, Through;
      ghost var g := Graph(all);
      ghost var through := Satisfied(all) - Called(all);
      ghost var h := Through(g, this, through);
      ThroughReachesLess(g, this, through);
      ghost var found, at := {}, this;
      result' := result;
      var worklist := [this];
      assert Members(worklist) == {this};
      WalkStarts(h, this, {});
      while worklist != []
        invariant forall e <- worklist :: e in g && (e == this || e in through)
        invariant Exploring(h, this, {}, found, Members(worklist), at, {})
        invariant result' == result + (found - Satisfied(all))
        decreases Work(g, worklist)
      {
        ghost var waiting := worklist;
        var exp := worklist[|worklist| - 1];
        worklist := worklist[..|worklist| - 1];
        var rest := exp.immediatePrerequisites;
        PopIsAffordable(g, waiting);
        ThroughAt(g, this, through, exp);
        WalkPops(h, this, {}, found, Members(waiting), at, exp, Members(worklist));
        at := exp;
        while rest != {}
          invariant forall e <- worklist :: e in g && (e == this || e in through)
          invariant Exploring(h, this, {}, found, Members(worklist), exp, rest)
          invariant Affordable(g, worklist, exp, rest, Work(g, waiting))
          invariant result' == result + (found - Satisfied(all))
          decreases rest
        {
          var next :| next in rest;
          WalkFindsOne(g, this, through, found, worklist, exp, rest, next, Work(g, waiting));
          rest := rest - {next};
          found := found + {next};
          IsAmongSatisfied(all, next);
          IsAmongCalled(all, next);
          if next.IsSatisfied() {
            // Some prerequisites of an expectation that was not called may not be satisfied yet.
            if next.callCount == 0 {
              worklist := worklist + [next];
            }
          } else {
            result' := result' + {next};
          }
        }
        AffordableLeavesLess(g, worklist, exp, Work(g, waiting));
      }
      assert Members(worklist) == {};
      WalkEnds(h, this, {}, found, at);
    }

    // Whether this expectation is the one to handle a call whose arguments it matches or not.
    method ShouldHandleArguments(ghost all: set<Expectation>, matches: bool) returns (result: bool)
      requires this in all && Total(Graph(all)) && Acyclic(Graph(all))
      ensures result <==> CanHandle(all, this) && matches
      ensures result <==>
              && !retired && matches
              && forall p <- Transitive(Graph(all), this) :: p.cardinality.min <= p.callCount <= p.cardinality.max
    {
      if retired {
        return false;
      }
      result := AllPrerequisitesAreSatisfied(all);
      return result && matches;
    }

    // Handles a call: counts it and, unless it is one too many, retires what came before.
    method GetActionForArguments(ghost all: set<Expectation>) returns (excessive: bool)
      requires this in all && InOrder(all) && CanHandle(all, this)
      modifies all`retired, this`callCount
      ensures InOrder(all) && Graph(all) == old(Graph(all))
      ensures callCount == old(callCount) + 1
      ensures excessive <==> old(callCount) >= cardinality.max
      ensures excessive ==> Retired(all) == old(Retired(all))
      ensures !excessive ==>
                Retired(all) == old(Retired(all)) + Transitive(Graph(all), this) +
                                (if retiresOnSaturation && callCount >= cardinality.max then {this} else {})
    {
      hide Orderly, Transitive, ClosedUnder, Total, Acyclic, ActiveCount, Satisfied, Committed, Retired;
      ghost var retiredBefore, satisfied, committed := Retired(all), Satisfied(all), Committed(all);
      OrderMeans(Graph(all), retiredBefore, satisfied, committed);
      IsAmongRetired(all, this);
      if IsSaturated() {
        IncrementCallCount(all);
        ExcessKeepsOrder(Graph(all), retiredBefore, satisfied, committed, this, Satisfied(all), Committed(all));
        return true;
      }
      IncrementCallCount(all);
      RetireAllPreRequisites(all);
      IsAmongSatisfied(all, this);
      if retiresOnSaturation && IsSaturated() {
        Retire(all);
      }
      CallKeepsOrder(Graph(all), retiredBefore, satisfied, committed, this,
                     Retired(all), Satisfied(all), Committed(all));
      return false;
    }

    method IncrementCallCount(ghost all: set<Expectation>)
      requires this in all
      modifies `callCount
      ensures callCount == old(callCount) + 1
      ensures Satisfied(all) + {this} == old(Satisfied(all)) + {this}
      ensures Committed(all) == if !old(IsSaturated()) then old(Committed(all)) + {this} else old(Committed(all))
      ensures Graph(all) == old(Graph(all)) && Retired(all) == old(Retired(all))
    {
      callCount := callCount + 1;
    }
  }

  ghost function Members<T>(s: seq<T>): set<T> { set e | e in s }

  lemma MembersOfPush<T>(s: seq<T>, e: T)
    ensures Members(s + [e]) == Members(s) + {e}
  {
    assert (s + [e])[|s|] == e;
    assert forall x <- s :: x in s + [e];
  }

  lemma ThroughAt<T>(g: map<T, set<T>>, x: T, through: set<T>, y: T)
    requires Total(g) && y in g && (y == x || y in through)
    ensures Through(g, x, through)[y] == g[y]
  {
  }

  // A prerequisite found on a walk that goes no further than `through`.
  lemma WalkFindsOne<T>(g: map<T, set<T>>, x: T, through: set<T>, found: set<T>, worklist: seq<T>, at: T, rest: set<T>,
                        next: T, budget: nat)
    requires Total(g) && Acyclic(g) && x in g && at in g && next in rest
    requires Exploring(Through(g, x, through), x, {}, found, Members(worklist), at, rest)
    requires Affordable(g, worklist, at, rest, budget)
    ensures var h, left := Through(g, x, through), rest - {next};
            && next in g
            && Affordable(g, worklist, at, left, budget) && Affordable(g, worklist + [next], at, left, budget)
            && (next in through ==> Exploring(h, x, {}, found + {next}, Members(worklist + [next]), at, left))
            && (next !in through ==> Exploring(h, x, {}, found + {next}, Members(worklist), at, left))
  {
    hide Affordable, Transitive, Acyclic, Members;
    var h := Through(g, x, through);
    assert rest <= h[at] <= g[at];
    ThroughReachesLess(g, x, through);
    WalkFinds(h, x, {}, found, Members(worklist), at, rest, next);
    PushIsAffordable(g, worklist, at, rest, next, budget);
    SkipIsAffordable(g, worklist, at, rest, next, budget);
    MembersOfPush(worklist, next);
  }

  // --------------------------------------------------------------------------
  // The state of all expectations
  // --------------------------------------------------------------------------

  ghost function Graph(all: set<Expectation>): (g: map<Expectation, set<Expectation>>)
    reads all`immediatePrerequisites
    ensures g.Keys == all
  {
    map e | e in all :: e.immediatePrerequisites
  }

  ghost function Retired(all: set<Expectation>): set<Expectation>
    reads all`retired
  {
    set e | e in all && e.retired
  }

  ghost function ActiveCount(all: set<Expectation>): nat
    reads all`retired
  {
    |all - Retired(all)|
  }

  ghost function Satisfied(all: set<Expectation>): set<Expectation>
    reads all`callCount
  {
    set e | e in all && e.IsSatisfied()
  }

  lemma IsAmongRetired(all: set<Expectation>, e: Expectation)
    requires e in all
    ensures e in Retired(all) <==> e.retired
  {
  }

  lemma IsAmongSatisfied(all: set<Expectation>, e: Expectation)
    requires e in all
    ensures e in Satisfied(all) <==> e.IsSatisfied()
    ensures e in Satisfied(all) <==> e.cardinality.min <= e.callCount <= e.cardinality.max
  {
  }

  ghost function Called(all: set<Expectation>): set<Expectation>
    reads all`callCount
  {
    set e | e in all && e.callCount > 0
  }

  lemma IsAmongCalled(all: set<Expectation>, e: Expectation)
    requires e in all
    ensures e in Called(all) <==> e.callCount > 0
  {
  }

  ghost predicate CanHandle(all: set<Expectation>, e: Expectation)
    requires e in all && Total(Graph(all))
    reads all
  {
    !e.retired && Transitive(Graph(all), e) <= Satisfied(all)
  }

  ghost function Unmet(all: set<Expectation>, e: Expectation): set<Expectation>
    requires e in all && Total(Graph(all))
    reads all
  {
    Transitive(Through(Graph(all), e, Satisfied(all) - Called(all)), e) - Satisfied(all)
  }

  // Expectations that were called as expected at least once.
  ghost function Committed(all: set<Expectation>): set<Expectation>
    reads all`callCount
  {
    set e | e in all && e.callCount > 0 && e.cardinality.max > 0
  }

  // What every call keeps.
  ghost predicate InOrder(all: set<Expectation>)
    reads all
  {
    Orderly(Graph(all), Retired(all), Satisfied(all), Committed(all))
  }

  ghost predicate Orderly<T>(g: map<T, set<T>>, retired: set<T>, satisfied: set<T>, committed: set<T>) {
    && Total(g) && Acyclic(g)
    && ClosedUnder(g, retired)
    && retired <= satisfied
    && forall e <- g | e in committed :: g[e] <= retired
  }

  lemma OrderMeans<T>(g: map<T, set<T>>, retired: set<T>, satisfied: set<T>, committed: set<T>)
    requires Orderly(g, retired, satisfied, committed)
    ensures Total(g) && Acyclic(g) && ClosedUnder(g, retired)
  {}

  lemma CommittedAreBacked<T>(g: map<T, set<T>>, retired: set<T>, satisfied: set<T>, committed: set<T>, e: T)
    requires Orderly(g, retired, satisfied, committed) && e in g && e in committed
    ensures Transitive(g, e) <= retired <= satisfied
  {
    TransitiveIsLeast(g, e, retired);
  }

  lemma CallKeepsOrder<T>(g: map<T, set<T>>, retired: set<T>, satisfied: set<T>, committed: set<T>, e: T,
                          retired': set<T>, satisfied': set<T>, committed': set<T>)
    requires Orderly(g, retired, satisfied, committed) && e in g && e !in retired
    requires Transitive(g, e) <= satisfied
    requires retired + Transitive(g, e) <= retired' <= retired + Transitive(g, e) + {e}
    requires e in retired' ==> e in satisfied'
    requires satisfied' + {e} == satisfied + {e} && committed' == committed + {e}
    ensures Orderly(g, retired', satisfied', committed')
  {}

  lemma ExcessKeepsOrder<T>(g: map<T, set<T>>, retired: set<T>, satisfied: set<T>, committed: set<T>, e: T,
                            satisfied': set<T>, committed': set<T>)
    requires Orderly(g, retired, satisfied, committed) && e in g && e !in retired
    requires satisfied' + {e} == satisfied + {e} && committed' == committed
    ensures Orderly(g, retired, satisfied', committed')
  {}

  // g' is g with one more edge, and acyclic exactly when g is and the edge leads nowhere near its start.
  ghost predicate Follows<T>(g: map<T, set<T>>, g': map<T, set<T>>, from: T, to: T)
    requires Total(g) && Total(g')
  {
    && from in g && to in g && g' == WithEdge(g, from, to)
    && (Acyclic(g') <==> Acyclic(g) && from != to && from !in Transitive(g, to))
  }

  // One more prerequisite of an expectation that was not called yet does not disturb the order.
  lemma EdgeKeepsOrder<T>(g: map<T, set<T>>, retired: set<T>, satisfied: set<T>, committed: set<T>, from: T, to: T)
    requires Orderly(g, retired, satisfied, committed) && from in g && to in g
    ensures Total(WithEdge(g, from, to))
    ensures from !in retired && from !in committed && Acyclic(WithEdge(g, from, to)) ==>
              Orderly(WithEdge(g, from, to), retired, satisfied, committed)
  {
    hide Acyclic;
  }

  // Before any call, an acyclic arrangement is in order.
  lemma StartsInOrder(all: set<Expectation>)
    requires Total(Graph(all)) && Acyclic(Graph(all))
    requires forall e <- all :: e.callCount == 0 && !e.retired
    ensures InOrder(all)
  {}

  // Once e was called as expected, everything it waits for is satisfied and can take no more calls.
  lemma CallsComeAfterPrerequisites(all: set<Expectation>, e: Expectation, p: Expectation)
    requires InOrder(all) && e in all && e.callCount > 0 && e.cardinality.max > 0 && p in Transitive(Graph(all), e)
    ensures p.cardinality.min <= p.callCount <= p.cardinality.max && p.retired && !CanHandle(all, p)
  {
    CommittedAreBacked(Graph(all), Retired(all), Satisfied(all), Committed(all), e);
  }

  // The list of unmet prerequisites is empty exactly when there is none.
  lemma UnmetIsEmptyIff(all: set<Expectation>, e: Expectation)
    requires InOrder(all) && e in all
    ensures Unmet(all, e) == {} <==> Transitive(Graph(all), e) <= Satisfied(all)
    ensures Unmet(all, e) <= Transitive(Graph(all), e) - Satisfied(all)
    ensures forall p <- Unmet(all, e) :: !(p.cardinality.min <= p.callCount <= p.cardinality.max)
  {
    hide Transitive, Orderly, Total, Acyclic, Through;
    var g := Graph(all);
    OrderMeans(g, Retired(all), Satisfied(all), Committed(all));
    forall y <- g | y in Satisfied(all) && y in Called(all)
      ensures Transitive(g, y) <= Satisfied(all)
    {
      CommittedAreBacked(g, Retired(all), Satisfied(all), Committed(all), y);
    }
    ThroughUncalledSuffices(g, e, Satisfied(all), Called(all));
    ThroughReachesLess(g, e, Satisfied(all) - Called(all));
    var near := Transitive(Through(g, e, Satisfied(all) - Called(all)), e);
    assert near <= near - Satisfied(all) + Satisfied(all);
  }

  // --------------------------------------------------------------------------
  // Mock functions
  // --------------------------------------------------------------------------

  class FunctionMocker {
    var untypedExpectations: seq<Expectation>

    // The newest expectation that can handle a call that the expectations in `matching` match.
    method FindMatchingExpectation(ghost all: set<Expectation>, matching: set<Expectation>) returns (exp: Expectation?)
      requires Total(Graph(all)) && Acyclic(Graph(all)) && forall e <- untypedExpectations :: e in all
      ensures exp == null ==> forall e <- untypedExpectations :: e in matching ==> !CanHandle(all, e)
      ensures exp != null ==> exists i | 0 <= i < |untypedExpectations| ::
                              exp == untypedExpectations[i] && IsNewest(all, untypedExpectations, matching, i)
    {
      hide CanHandle, Total, Acyclic, Graph;
      var it := |untypedExpectations|;
      while it > 0
        invariant 0 <= it <= |untypedExpectations|
        invariant forall j | it <= j < |untypedExpectations| :: untypedExpectations[j] in matching ==>
            !CanHandle(all, untypedExpectations[j])
      {
        it := it - 1;
        var e := untypedExpectations[it];
        var handles := e.ShouldHandleArguments(all, e in matching);
        if handles {
          assert IsNewest(all, untypedExpectations, matching, it);
          return e;
        }
      }
      return null;
    }

    // Takes one call of the mock function.
    method UntypedFindMatchingExpectation(ghost all: set<Expectation>, matching: set<Expectation>)
      returns (exp: Expectation?, isExcessive: bool)
      requires InOrder(all) && forall e <- untypedExpectations :: e in all
      modifies all`retired, all`callCount
      ensures InOrder(all) && Graph(all) == old(Graph(all))
      ensures exp == null ==> Retired(all) == old(Retired(all)) && !isExcessive
      ensures exp == null ==> forall e <- untypedExpectations :: e in matching ==> !old(CanHandle(all, e))
      ensures exp != null ==>
                exists i | 0 <= i < |untypedExpectations| ::
                  exp == untypedExpectations[i] && old(IsNewest(all, untypedExpectations, matching, i))
      ensures exp != null ==> exp.callCount == old(exp.callCount) + 1 && (isExcessive <==> old(exp.callCount) >= exp.cardinality.max)
      ensures forall e <- all | e != exp :: e.callCount == old(e.callCount)
    {
      hide CanHandle, Orderly, Graph, Total, Acyclic;
      OrderMeans(Graph(all), Retired(all), Satisfied(all), Committed(all));
      exp := FindMatchingExpectation(all, matching);
      if exp == null {
        return null, false;
      }
      ghost var i :| 0 <= i < |untypedExpectations| && exp == untypedExpectations[i] &&
          IsNewest(all, untypedExpectations, matching, i);
      isExcessive := exp.IsSaturated();
      var _ := exp.GetActionForArguments(all);
    }
  }

  ghost predicate IsNewest(all: set<Expectation>, expectations: seq<Expectation>, matching: set<Expectation>, i: nat)
    requires Total(Graph(all)) && i < |expectations| && forall e <- expectations :: e in all
    reads all
  {
    && expectations[i] in matching && CanHandle(all, expectations[i])
    && forall j | i < j < |expectations| :: expectations[j] in matching ==> !CanHandle(all, expectations[j])
  }

  // --------------------------------------------------------------------------
  // Sequences
  // --------------------------------------------------------------------------

  class Sequence {
    var lastExpectation: Expectation?
    ghost var members: seq<Expectation>

    ghost predicate Valid(all: set<Expectation>)
      reads this, all
    {
      && lastExpectation == (if members == [] then null else members[|members| - 1])
      && (forall e <- members :: e in all)
      && forall i | 0 < i < |members| :: members[i - 1] in members[i].immediatePrerequisites
    }

    constructor (ghost all: set<Expectation>)
      ensures Valid(all) && members == []
    {
      lastExpectation, members := null, [];
    }

    method AddExpectation(ghost all: set<Expectation>, expectation: Expectation)
      requires Valid(all) && expectation in all && Total(Graph(all))
      modifies this, expectation`immediatePrerequisites
      ensures Valid(all) && Total(Graph(all))
      ensures lastExpectation == expectation
      ensures members == if old(lastExpectation) == expectation then old(members) else old(members) + [expectation]
      ensures old(lastExpectation) == expectation || old(lastExpectation) == null ==> Graph(all) == old(Graph(all))
      ensures old(lastExpectation) != expectation && old(lastExpectation) != null ==>
                Follows<Expectation>(old(Graph(all)), Graph(all), expectation, old(lastExpectation))
      ensures old(InOrder(all)) && Acyclic(Graph(all)) && !expectation.retired && expectation !in Committed(all) ==>
                InOrder(all)
    {
      hide Transitive, Acyclic, Orderly, Follows;
      if lastExpectation != expectation {
        if lastExpectation != null {
          expectation.AddPrerequisite(all, lastExpectation);
        }
        lastExpectation := expectation;
        members := members + [expectation];
      }
    }

    // Each member waits for every earlier one.
    lemma {:induction false} MembersAreOrdered(all: set<Expectation>, i: nat, j: nat)
      requires Valid(all) && Total(Graph(all)) && i < j < |members|
      ensures members[i] in Transitive(Graph(all), members[j])
      decreases j
    {
      assert members[j - 1] in Graph(all)[members[j]];
      if i < j - 1 {
        MembersAreOrdered(all, i, j - 1);
        TransitiveNests(Graph(all), members[j], members[j - 1]);
      }
    }

    // When a member was called as expected, the earlier ones are done.
    lemma EarlierMembersAreDone(all: set<Expectation>, i: nat, j: nat)
      requires InOrder(all) && Valid(all) && i < j < |members|
      requires members[j].callCount > 0 && members[j].cardinality.max > 0
      ensures members[i].cardinality.min <= members[i].callCount <= members[i].cardinality.max && members[i].retired
    {
      MembersAreOrdered(all, i, j);
      CallsComeAfterPrerequisites(all, members[j], members[i]);
    }
  }
}
