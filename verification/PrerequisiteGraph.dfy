/**
 Directed graphs of prerequisites: transitive prerequisites, acyclicity, and why a walk that keeps
 no record of the nodes it has visited ends on an acyclic graph.
 */
module PrerequisiteGraph {
  import opened Common

  ghost predicate Total<T>(g: map<T, set<T>>) {
    forall x <- g :: g[x] <= g.Keys
  }

  ghost predicate ClosedUnder<T>(g: map<T, set<T>>, s: set<T>) {
    forall x <- g | x in s :: g[x] <= s
  }

  ghost function Step<T>(g: map<T, set<T>>, s: set<T>): set<T> {
    set x, y | x in s && x in g && y in g[x] :: y
  }

  // The least closed set around s.
  ghost function Reach<T>(g: map<T, set<T>>, s: set<T>): (r: set<T>)
    requires Total(g) && s <= g.Keys
    ensures s <= r <= g.Keys && ClosedUnder(g, r)
    decreases |g.Keys - s|
  {
    if Step(g, s) <= s then
      assert forall x <- g | x in s :: forall y <- g[x] :: y in Step(g, s);
      s
    else
      assert s < s + Step(g, s) <= g.Keys;
      FewerLeft(g.Keys, s, s + Step(g, s));
      Reach(g, s + Step(g, s))
  }

  lemma FewerLeft<T>(all: set<T>, s: set<T>, t: set<T>)
    requires s < t <= all
    ensures |all - t| < |all - s|
  {
    SubsetSize(all - t, all - s);
  }

  lemma {:induction false} ReachIsLeast<T>(g: map<T, set<T>>, s: set<T>, c: set<T>)
    requires Total(g) && s <= g.Keys
    requires s <= c && ClosedUnder(g, c)
    ensures Reach(g, s) <= c
    decreases |g.Keys - s|
  {
    if !(Step(g, s) <= s) {
      FewerLeft(g.Keys, s, s + Step(g, s));
      ReachIsLeast(g, s + Step(g, s), c);
    }
  }

  // Everything that x waits for, directly or not.
  ghost function Transitive<T>(g: map<T, set<T>>, x: T): (r: set<T>)
    requires Total(g) && x in g
    ensures g[x] <= r <= g.Keys && ClosedUnder(g, r)
  {
    Reach(g, g[x])
  }

  // Transitive is the least closed set that holds the immediate prerequisites.
  lemma TransitiveIsLeast<T>(g: map<T, set<T>>, x: T, c: set<T>)
    requires Total(g) && x in g
    requires g[x] <= c && ClosedUnder(g, c)
    ensures Transitive(g, x) <= c
  {
    ReachIsLeast(g, g[x], c);
  }

  lemma ClosedSetHasTransitive<T>(g: map<T, set<T>>, x: T, c: set<T>)
    requires Total(g) && x in g && x in c && ClosedUnder(g, c)
    ensures Transitive(g, x) <= c
  {
    TransitiveIsLeast(g, x, c);
  }

  lemma TransitiveNests<T>(g: map<T, set<T>>, x: T, y: T)
    requires Total(g) && x in g && y in Transitive(g, x)
    ensures Transitive(g, y) <= Transitive(g, x)
  {
    TransitiveIsLeast(g, y, Transitive(g, x));
  }

  ghost predicate Acyclic<T>(g: map<T, set<T>>)
    requires Total(g)
  {
    forall x <- g :: x !in Transitive(g, x)
  }

  lemma PrerequisiteHasFewer<T>(g: map<T, set<T>>, x: T, y: T)
    requires Total(g) && Acyclic(g) && x in g && y in g[x]
    ensures |Transitive(g, y)| < |Transitive(g, x)|
  {
    TransitiveNests(g, x, y);
    SubsetSize(Transitive(g, y), Transitive(g, x));
  }

  // --------------------------------------------------------------------------
  // A new edge
  // --------------------------------------------------------------------------

  ghost function WithEdge<T>(g: map<T, set<T>>, from: T, to: T): map<T, set<T>>
    requires from in g
  {
    g[from := g[from] + {to}]
  }

  // What x waits for once `from` also waits for `to`.
  lemma WithEdgeReaches<T>(g: map<T, set<T>>, from: T, to: T, x: T)
    requires Total(g) && from in g && to in g && x in g
    ensures Total(WithEdge(g, from, to))
    ensures Transitive(WithEdge(g, from, to), x) ==
            Transitive(g, x) + (if x == from || from in Transitive(g, x) then {to} + Transitive(g, to) else {})
  {
    var h := WithEdge(g, from, to);
    var more := if x == from || from in Transitive(g, x) then {to} + Transitive(g, to) else {};
    assert ClosedUnder(g, Transitive(h, x));
    TransitiveIsLeast(g, x, Transitive(h, x));
    if x == from || from in Transitive(g, x) {
      assert to in h[from] && h[from] <= Transitive(h, x);
      TransitiveIsLeast(g, to, Transitive(h, x));
    }
    assert ClosedUnder(h, Transitive(g, x) + more);
    TransitiveIsLeast(h, x, Transitive(g, x) + more);
  }

  // An edge keeps a graph acyclic exactly when it does not lead back to its start.
  lemma WithEdgeIsAcyclicIff<T>(g: map<T, set<T>>, from: T, to: T)
    requires Total(g) && from in g && to in g
    ensures Total(WithEdge(g, from, to))
    ensures Acyclic(WithEdge(g, from, to)) <==> Acyclic(g) && from != to && from !in Transitive(g, to)
  {
    var h := WithEdge(g, from, to);
    forall x <- g
      ensures Transitive(h, x) ==
              Transitive(g, x) + (if x == from || from in Transitive(g, x) then {to} + Transitive(g, to) else {})
    {
      WithEdgeReaches(g, from, to, x);
    }
    WithEdgeReaches(g, from, to, from);
    if Acyclic(g) && from != to && from !in Transitive(g, to) {
      forall x <- h
        ensures x !in Transitive(h, x)
      {
        if from in Transitive(g, x) && x in Transitive(g, to) {
          TransitiveNests(g, to, x);
        }
      }
    }
  }

  // --------------------------------------------------------------------------
  // Walks along prerequisites
  // --------------------------------------------------------------------------

  // A walk from x that began with `before` has `found` more; the nodes `pending` and, of the
  // prerequisites of `at`, the ones in `rest` are still to be looked at.
  ghost predicate Exploring<T>(g: map<T, set<T>>, x: T, before: set<T>, found: set<T>, pending: set<T>, at: T, rest: set<T>)
    requires Total(g) && x in g
  {
    && before <= found <= before + Transitive(g, x) && found <= g.Keys
    && pending <= {x} + Transitive(g, x)
    && (at == x || at in Transitive(g, x)) && rest <= g[at]
    && forall y <- g | y == x || y in found :: y in pending || g[y] <= found || (y == at && g[y] - rest <= found)
  }

  lemma WalkStarts<T>(g: map<T, set<T>>, x: T, before: set<T>)
    requires Total(g) && x in g && before <= g.Keys && ClosedUnder(g, before)
    ensures Exploring(g, x, before, before, {x}, x, {})
  {}

  lemma WalkPops<T>(g: map<T, set<T>>, x: T, before: set<T>, found: set<T>, pending: set<T>, at: T, next: T,
          pending': set<T>)
    requires Total(g) && x in g && Exploring(g, x, before, found, pending, at, {})
    requires next in pending && pending - {next} <= pending' <= pending
    ensures next in g && Exploring(g, x, before, found, pending', next, g[next])
  {}

  // `next` is found; it has to be looked at unless it was found before or waits for nothing.
  lemma WalkFinds<T>(g: map<T, set<T>>, x: T, before: set<T>, found: set<T>, pending: set<T>, at: T, rest: set<T>, next: T)
    requires Total(g) && x in g && Exploring(g, x, before, found, pending, at, rest) && next in rest
    ensures next in g && next in Transitive(g, x)
    ensures Exploring(g, x, before, found + {next}, pending + {next}, at, rest - {next})
    ensures next in found || g[next] == {} ==> Exploring(g, x, before, found + {next}, pending, at, rest - {next})
  {}

  lemma WalkEnds<T>(g: map<T, set<T>>, x: T, before: set<T>, found: set<T>, at: T)
    requires Total(g) && x in g && Exploring(g, x, before, found, {}, at, {})
    ensures found == before + Transitive(g, x) && ClosedUnder(g, found)
  {
    TransitiveIsLeast(g, x, found);
  }

  // The graph as seen by a walk from x that goes no further than the nodes in `through`.
  ghost function Through<T>(g: map<T, set<T>>, x: T, through: set<T>): (h: map<T, set<T>>)
    requires Total(g)
    ensures h.Keys == g.Keys && Total(h)
  {
    map y | y in g :: if y == x || y in through then g[y] else {}
  }

  lemma ThroughReachesLess<T>(g: map<T, set<T>>, x: T, through: set<T>)
    requires Total(g) && x in g
    ensures Transitive(Through(g, x, through), x) <= Transitive(g, x)
    ensures Acyclic(g) ==> x !in Transitive(Through(g, x, through), x)
  {
    TransitiveIsLeast(Through(g, x, through), x, Transitive(g, x));
  }

  // Stopping at a called node hides nothing if everything a called, satisfied node waits for is satisfied.
  lemma ThroughUncalledSuffices<T>(g: map<T, set<T>>, x: T, satisfied: set<T>, called: set<T>)
    requires Total(g) && x in g
    requires forall y <- g | y in satisfied && y in called :: Transitive(g, y) <= satisfied
    ensures Transitive(Through(g, x, satisfied - called), x) <= satisfied <==> Transitive(g, x) <= satisfied
  {
    var h := Through(g, x, satisfied - called);
    ThroughReachesLess(g, x, satisfied - called);
    var near := Transitive(h, x);
    if near <= satisfied {
      var far := set y, z | y in near && y in called && y in g && z in Transitive(g, y) :: z;
      assert ClosedUnder(g, near + far) by {
        forall y <- g | y in near + far
          ensures g[y] <= near + far
        {
          if y in near && y !in called {
            assert h[y] == g[y];
          } else if y in near {
            assert forall z <- g[y] :: z in Transitive(g, y) && z in far;
          } else {
            var w :| w in near && w in called && w in g && y in Transitive(g, w);
            assert forall z <- g[y] :: z in Transitive(g, w) && z in far;
          }
        }
      }
      assert h[x] == g[x];
      TransitiveIsLeast(g, x, near + far);
    }
  }

  // --------------------------------------------------------------------------
  // Walks that keep no record of where they have been
  // --------------------------------------------------------------------------

  ghost function Power(base: nat, exponent: nat): nat {
    if exponent == 0 then 1 else base * Power(base, exponent - 1)
  }

  // More than all of its prerequisites together.
  ghost function Burden<T>(g: map<T, set<T>>, x: T): nat
    requires Total(g) && x in g
  {
    Power(|g| + 1, |Transitive(g, x)|)
  }

  // A bound on the burden of each prerequisite of x.
  ghost function Share<T>(g: map<T, set<T>>, x: T): nat
    requires Total(g) && x in g
  {
    if g[x] == {} then 0 else Power(|g| + 1, |Transitive(g, x)| - 1)
  }

  ghost function Work<T>(g: map<T, set<T>>, worklist: seq<T>): nat
    requires Total(g) && forall x <- worklist :: x in g
  {
    if worklist == [] then 0
    else Work(g, worklist[..|worklist| - 1]) + Burden(g, worklist[|worklist| - 1])
  }

  lemma {:induction false} PowerGrows(base: nat, m: nat, n: nat)
    requires base >= 1 && m <= n
    ensures 1 <= Power(base, m) <= Power(base, n)
    decreases n
  {
    if m < n {
      PowerGrows(base, m, n - 1);
      AtLeastOnce(base, Power(base, n - 1));
    } else if n > 0 {
      PowerGrows(base, n - 1, n - 1);
      AtLeastOnce(base, Power(base, n - 1));
    }
  }

  lemma AtLeastOnce(a: nat, b: nat)
    requires a >= 1
    ensures a * b >= b
  {
    assert (a - 1) * b >= 0;
  }

  // Taking x from a worklist, and then adding prerequisites of x, has this much room left.
  ghost predicate Affordable<T>(g: map<T, set<T>>, worklist: seq<T>, x: T, left: set<T>, budget: nat)
    requires Total(g) && x in g
  {
    && (forall y <- worklist :: y in g)
    && Work(g, worklist) + |left| * Share(g, x) < budget
  }

  lemma {:induction false} SharesFit(k: nat, n: nat, rank: nat)
    requires k <= n && rank >= 1
    ensures k * Power(n + 1, rank - 1) < Power(n + 1, rank)
  {
    var share := Power(n + 1, rank - 1);
    PowerGrows(n + 1, 0, rank - 1);
    MulMonotone(k, n, share);
    assert (n + 1) * share == n * share + share;
  }

  lemma SharesWithinBurden<T>(g: map<T, set<T>>, x: T)
    requires Total(g) && x in g
    ensures |g[x]| * Share(g, x) < Burden(g, x)
  {
    hide Transitive, Power;
    if g[x] == {} {
      PowerGrows(|g| + 1, 0, |Transitive(g, x)|);
    } else {
      SubsetSize(g[x], g.Keys);
      SubsetSize({}, Transitive(g, x));
      SharesFit(|g[x]|, |g|, |Transitive(g, x)|);
    }
  }

  lemma BurdenWithinShare<T>(g: map<T, set<T>>, x: T, y: T)
    requires Total(g) && Acyclic(g) && x in g && y in g[x]
    ensures Burden(g, y) <= Share(g, x)
  {
    hide Transitive, Power;
    PrerequisiteHasFewer(g, x, y);
    PowerGrows(|g| + 1, |Transitive(g, y)|, |Transitive(g, x)| - 1);
  }

  lemma PopIsAffordable<T>(g: map<T, set<T>>, worklist: seq<T>)
    requires Total(g) && worklist != [] && forall y <- worklist :: y in g
    ensures var x := worklist[|worklist| - 1];
            Affordable(g, worklist[..|worklist| - 1], x, g[x], Work(g, worklist))
  {
    hide Share, Burden;
    SharesWithinBurden(g, worklist[|worklist| - 1]);
  }

  lemma SkipIsAffordable<T>(g: map<T, set<T>>, worklist: seq<T>, x: T, left: set<T>, y: T, budget: nat)
    requires Total(g) && x in g && Affordable(g, worklist, x, left, budget) && y in left
    ensures Affordable(g, worklist, x, left - {y}, budget)
  {
    hide Share, Burden, Work;
    assert |left - {y}| == |left| - 1;
    MulMonotone(|left| - 1, |left|, Share(g, x));
  }

  lemma AffordableLeavesLess<T>(g: map<T, set<T>>, worklist: seq<T>, x: T, budget: nat)
    requires Total(g) && x in g && Affordable(g, worklist, x, {}, budget)
    ensures (forall y <- worklist :: y in g) && Work(g, worklist) < budget
  {}

  lemma PushIsAffordable<T>(g: map<T, set<T>>, worklist: seq<T>, x: T, left: set<T>, y: T, budget: nat)
    requires Total(g) && Acyclic(g) && x in g && Affordable(g, worklist, x, left, budget)
    requires y in left && left <= g[x]
    ensures Affordable(g, worklist + [y], x, left - {y}, budget)
  {
    hide Share, Burden;
    BurdenWithinShare(g, x, y);
    assert |left - {y}| == |left| - 1;
    assert (|left| - 1) * Share(g, x) == |left| * Share(g, x) - Share(g, x);
    assert (worklist + [y])[..|worklist|] == worklist;
  }
}
