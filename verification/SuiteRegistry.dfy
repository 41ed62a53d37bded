/**
 The registry of test suites: registration with death tests first, shuffling and unshuffling.
 */
module SuiteRegistry {
  import opened Shuffle
  import opened TestFilter

  function Identity(n: nat): (v: seq<nat>)
    ensures |v| == n && forall i | 0 <= i < n :: v[i] == i
  {
    seq(n, i => i)
  }

  // A permutation of 0, ..., |v| - 1.
  ghost predicate IsOrder(v: seq<nat>) {
    multiset(v) == multiset(Identity(|v|))
  }

  lemma IdentityGrows(n: nat)
    ensures Identity(n) + [n] == Identity(n + 1)
  {}

  lemma OrderGrows(v: seq<nat>)
    requires IsOrder(v)
    ensures IsOrder(v + [|v|])
  {
    IdentityGrows(|v|);
  }

  lemma IdentityIsOrder(n: nat, last: int)
    ensures IsOrder(Identity(n)) && LowFirst(Identity(n), last)
  {
  }

  lemma OrderIsInRange(v: seq<nat>)
    requires IsOrder(v)
    ensures forall i | 0 <= i < |v| :: v[i] < |v|
  {
    forall i | 0 <= i < |v|
      ensures v[i] < |v|
    {
      assert v[i] in multiset(v);
    }
  }

  // A permutation holds every index, and only once.
  lemma OrderIsOneToOne(v: seq<nat>, k: nat)
    requires IsOrder(v) && k < |v|
    ensures k in v && multiset(v)[k] == 1
  {
    IdentityHoldsOnce(|v|, k);
    assert k in multiset(v);
  }

  lemma {:induction false} IdentityHoldsOnce(n: nat, k: nat)
    ensures multiset(Identity(n))[k] == if k < n then 1 else 0
  {
    if n > 0 {
      IdentityGrows(n - 1);
      IdentityHoldsOnce(n - 1, k);
    }
  }

  lemma RearrangedWhole<T>(r: seq<T>, v: seq<T>)
    requires Rearranges(r, v, 0, |v|)
    ensures |r| == |v| && multiset(r) == multiset(v)
  {
    assert r[0..0 + |v|] == r && v[0..0 + |v|] == v;
  }

  lemma RearrangedPart<T>(r: seq<T>, v: seq<T>, begin: nat, width: nat)
    requires Rearranges(r, v, begin, width)
    ensures multiset(r) == multiset(v)
  {
    assert r[..begin] == v[..begin] && r[begin + width..] == v[begin + width..];
    assert r == r[..begin] + r[begin..begin + width] + r[begin + width..];
    assert v == v[..begin] + v[begin..begin + width] + v[begin + width..];
  }

  // The indices up to `last` are at the positions up to `last`.
  ghost predicate LowFirst(v: seq<nat>, last: int) {
    forall i | 0 <= i < |v| :: v[i] <= last <==> i <= last
  }

  lemma RearrangedLowFirst(r: seq<nat>, v: seq<nat>, begin: nat, width: nat, last: int)
    requires Rearranges(r, v, begin, width) && (begin + width == last + 1 || begin == last + 1)
    requires LowFirst(v, last)
    ensures LowFirst(r, last)
  {
    forall i | 0 <= i < |r|
      ensures r[i] <= last <==> i <= last
    {
      if begin <= i < begin + width {
        assert r[begin..begin + width][i - begin] in multiset(v[begin..begin + width]);
        var j :| begin <= j < begin + width && v[j] == r[i];
      }
    }
  }

  // --------------------------------------------------------------------------
  // One suite
  // --------------------------------------------------------------------------

  class TestSuite {
    const name: string
    var testIndices: seq<nat>

    ghost predicate Valid()
      reads this
    {
      IsOrder(testIndices)
    }

    constructor (name: string)
      ensures this.name == name && testIndices == [] && Valid()
    {
      this.name := name;
      testIndices := [];
    }

    method AddTestInfo()
      requires Valid()
      modifies this
      ensures Valid() && testIndices == old(testIndices) + [|old(testIndices)|]
    {
      OrderGrows(testIndices);
      testIndices := testIndices + [|testIndices|];
    }

    method ShuffleTests(random: Random)
      requires Valid() && |testIndices| <= MAX_RANGE
      modifies this, random
      ensures Valid()
      ensures testIndices ==
              FisherYates(old(testIndices), 0, |old(testIndices)|, Choices(old(random.state), |old(testIndices)|))
      ensures random.state == StateAfter(old(random.state), |old(testIndices)|)
    {
      ghost var was := testIndices;
      testIndices := ShuffleRange(random, 0, |testIndices|, testIndices);
      RearrangedWhole(testIndices, was);
    }

    method UnshuffleTests()
      modifies this
      ensures Valid() && testIndices == Identity(|old(testIndices)|)
    {
      for i := 0 to |testIndices|
        invariant |testIndices| == |old(testIndices)|
        invariant forall j | 0 <= j < i :: testIndices[j] == j
      {
        testIndices := testIndices[i := i];
      }
      assert testIndices == Identity(|testIndices|);
    }
  }

  // --------------------------------------------------------------------------
  // All suites
  // --------------------------------------------------------------------------

  // The names that are, or are not, those of death test suites, in their order.
  ghost function Only(names: seq<string>, death: bool): seq<string> {
    if names == [] then []
    else
      var n := |names| - 1;
      Only(names[..n], death) + (if IsDeathTestSuite(names[n]) == death then [names[n]] else [])
  }

  lemma OnlyGrows(names: seq<string>, name: string, death: bool)
    ensures Only(names + [name], death) == Only(names, death) + (if IsDeathTestSuite(name) == death then [name] else [])
  {
    assert (names + [name])[..|names|] == names;
  }

  lemma {:induction false} OnlyKeeps(names: seq<string>, death: bool)
    ensures forall name :: name in Only(names, death) <==> name in names && IsDeathTestSuite(name) == death
  {
    hide IsDeathTestSuite;
    if names != [] {
      var n := |names| - 1;
      OnlyKeeps(names[..n], death);
      assert names == names[..n] + [names[n]];
    }
  }

  function Names(suites: seq<TestSuite>): (names: seq<string>)
    ensures |names| == |suites| && forall i | 0 <= i < |suites| :: names[i] == suites[i].name
  {
    seq(|suites|, i requires 0 <= i < |suites| => suites[i].name)
  }

  // Death test suites come first; within each kind suites are in the order of registration.
  ghost predicate Sorted(suites: seq<TestSuite>, registered: seq<string>, last: int) {
    && Names(suites) == Only(registered, true) + Only(registered, false)
    && last == |Only(registered, true)| - 1
  }

  // Names are unique, and the map takes each to its suite.
  ghost predicate Indexed(suites: seq<TestSuite>, byName: map<string, TestSuite>, registered: seq<string>) {
    && (forall i, j | 0 <= i < j < |suites| :: suites[i].name != suites[j].name)
    && (forall s <- suites :: s.name in byName && byName[s.name] == s)
    && (forall name <- byName :: name in registered)
    && (forall name <- registered :: name in byName && byName[name] in suites && byName[name].name == name)
  }

  function Insert<T>(v: seq<T>, k: nat, x: T): (r: seq<T>)
    requires k <= |v|
    ensures |r| == |v| + 1 && r[k] == x
    ensures (forall y <- r :: y == x || y in v) && (forall y <- v :: y in r) && x in r
  {
    var r := v[..k] + [x] + v[k..];
    assert r[k] == x && forall i | 0 <= i < |v| :: v[i] == r[if i < k then i else i + 1];
    r
  }

  lemma AppendIsInsert<T>(v: seq<T>, x: T)
    ensures Insert(v, |v|, x) == v + [x]
  {
    assert v[..|v|] == v && v[|v|..] == [];
  }

  lemma IndexMeans(suites: seq<TestSuite>, byName: map<string, TestSuite>, registered: seq<string>, name: string)
    requires Indexed(suites, byName, registered)
    ensures name in byName <==> name in registered
    ensures name in byName ==> byName[name] in suites && byName[name].name == name
    ensures forall s <- suites :: s.name in registered && s.name in byName && byName[s.name] == s
  {}

  // A new suite goes behind the last of its kind.
  lemma InsertKeepsSorted(suites: seq<TestSuite>, registered: seq<string>, last: int, suite: TestSuite)
    requires Sorted(suites, registered, last)
    ensures -1 <= last < |suites|
    ensures IsDeathTestSuite(suite.name) ==> Sorted(Insert(suites, last + 1, suite), registered + [suite.name], last + 1)
    ensures !IsDeathTestSuite(suite.name) ==> Sorted(Insert(suites, |suites|, suite), registered + [suite.name], last)
  {
    hide IsDeathTestSuite, Only;
    var death, other := Only(registered, true), Only(registered, false);
    assert |suites| == |Names(suites)| == |death| + |other|;
    OnlyGrows(registered, suite.name, true);
    OnlyGrows(registered, suite.name, false);
    if IsDeathTestSuite(suite.name) {
      assert Names(Insert(suites, last + 1, suite)) == death + [suite.name] + other;
    } else {
      assert Names(Insert(suites, |suites|, suite)) == death + (other + [suite.name]);
    }
  }

  lemma InsertKeepsIndexed(suites: seq<TestSuite>, byName: map<string, TestSuite>, registered: seq<string>, k: nat,
          suite: TestSuite)
    requires Indexed(suites, byName, registered) && k <= |suites| && suite.name !in byName
    ensures Indexed(Insert(suites, k, suite), byName[suite.name := suite], registered + [suite.name])
  {
    hide Insert;
    var r := Insert(suites, k, suite);
    forall i, j | 0 <= i < j < |r|
      ensures r[i].name != r[j].name
    {
      InsertedAt(suites, k, suite, i);
      InsertedAt(suites, k, suite, j);
    }
  }

  lemma InsertedAt<T>(v: seq<T>, k: nat, x: T, i: nat)
    requires k <= |v| && i <= |v|
    ensures Insert(v, k, x)[i] == if i < k then v[i] else if i == k then x else v[i - 1]
  {
  }

  // Registering a death test suite keeps death tests first exactly when its index stands where it belongs.
  lemma LowFirstGrows(v: seq<nat>, last: int)
    requires IsOrder(v) && LowFirst(v, last) && -1 <= last < |v|
    ensures LowFirst(v + [|v|], last)
    ensures LowFirst(v + [|v|], last + 1) <==> (v + [|v|])[last + 1] == last + 1
  {
    var w := v + [|v|];
    OrderGrows(v);
    if w[last + 1] == last + 1 {
      forall i | last + 1 < i < |w|
        ensures w[i] != last + 1
      {
        OrderHasNoRepeats(w, last + 1, i);
      }
    }
  }

  lemma OrderHasNoRepeats(v: seq<nat>, i: nat, j: nat)
    requires IsOrder(v) && i < j < |v|
    ensures v[i] != v[j]
  {
    if v[i] == v[j] {
      TwiceCounts(v, i, j);
    }
    OrderIsInRange(v);
    OrderIsOneToOne(v, v[i]);
  }

  lemma TwiceCounts<T>(v: seq<T>, i: nat, j: nat)
    requires i < j < |v| && v[i] == v[j]
    ensures multiset(v)[v[i]] >= 2
  {
    assert v == v[..i] + [v[i]] + v[i + 1..j] + [v[j]] + v[j + 1..];
  }

  lemma SuitesAreDistinct(suites: seq<TestSuite>, byName: map<string, TestSuite>, registered: seq<string>)
    requires Indexed(suites, byName, registered)
    ensures forall i, j | 0 <= i < j < |suites| :: suites[i] != suites[j]
  {}

  // The first `deaths` indices shuffled, then the others.
  function ShuffledIndices(v: seq<nat>, deaths: nat, state: nat): seq<nat>
    requires deaths <= |v|
  {
    FisherYates(FisherYates(v, 0, deaths, Choices(state, deaths)),
                deaths, |v| - deaths, Choices(StateAfter(state, deaths), |v| - deaths))
  }

  function StateAfterIndices(n: nat, deaths: nat, state: nat): nat
    requires deaths <= n
  {
    StateAfter(StateAfter(state, deaths), n - deaths)
  }

  // Each part is shuffled by itself, the second with what the generator yields after the first.
  lemma BothPartsAreShuffled(v: seq<nat>, deaths: nat, state: nat)
    requires deaths <= |v|
    ensures var r, n := ShuffledIndices(v, deaths, state), |v| - deaths;
            && |r| == |v|
            && r[..deaths] == FisherYates(v[..deaths], 0, deaths, Choices(state, deaths))
            && r[deaths..] == FisherYates(v[deaths..], 0, n, Choices(StateAfter(state, deaths), n))
            && StateAfterIndices(|v|, deaths, state) == StateAfter(StateAfter(state, deaths), n)
  {
    hide FisherYates, Choices, StateAfter;
    var n := |v| - deaths;
    var first, second := Choices(state, deaths), Choices(StateAfter(state, deaths), n);
    var half := FisherYates(v, 0, deaths, first);
    FrontIsShuffled(v, deaths, first);
    BackIsShuffled(half, deaths, second);
  }

  lemma FrontIsShuffled(v: seq<nat>, width: nat, choices: seq<nat>)
    requires width <= |v| && LegalChoices(choices, width)
    ensures var r := FisherYates(v, 0, width, choices);
            r[..width] == FisherYates(v[..width], 0, width, choices) && r[width..] == v[width..]
  {
    hide FisherYates;
    FisherYatesRearranges(v, 0, width, choices);
    FisherYatesInside(v, 0, width, width, choices);
  }

  lemma BackIsShuffled(v: seq<nat>, begin: nat, choices: seq<nat>)
    requires begin <= |v| && LegalChoices(choices, |v| - begin)
    ensures var r := FisherYates(v, begin, |v| - begin, choices);
            r[..begin] == v[..begin] && r[begin..] == FisherYates(v[begin..], 0, |v| - begin, choices)
  {
    hide FisherYates;
    FisherYatesRearranges(v, begin, |v| - begin, choices);
    FisherYatesInside(v, begin, |v|, |v| - begin, choices);
    assert v[begin..|v|] == v[begin..];
  }

  lemma SortedBounds(suites: seq<TestSuite>, registered: seq<string>, last: int)
    requires Sorted(suites, registered, last)
    ensures -1 <= last < |suites|
  {
    assert |suites| == |Names(suites)| == |Only(registered, true)| + |Only(registered, false)|;
  }

  lemma ShuffledIsOrder(r: seq<nat>, v: seq<nat>, begin: nat, width: nat)
    requires Rearranges(r, v, begin, width) && IsOrder(v)
    ensures |r| == |v| && IsOrder(r)
  {
    RearrangedPart(r, v, begin, width);
  }

  method ShuffleIndices(random: Random, last: int, indices: seq<nat>) returns (v: seq<nat>)
    requires -1 <= last < |indices| <= MAX_RANGE && IsOrder(indices)
    modifies random
    ensures |v| == |indices| && IsOrder(v)
    ensures LowFirst(indices, last) ==> LowFirst(v, last)
    ensures v == ShuffledIndices(indices, last + 1, old(random.state))
    ensures random.state == StateAfterIndices(|indices|, last + 1, old(random.state))
  {
    hide IsOrder, LowFirst, FisherYates, Rearranges, Choices, StateAfter;
    var half := ShuffleRange(random, 0, last + 1, indices);
    v := ShuffleRange(random, last + 1, |indices|, half);
    ShuffledIsOrder(half, indices, 0, last + 1);
    ShuffledIsOrder(v, half, last + 1, |indices| - (last + 1));
    if LowFirst(indices, last) {
      RearrangedLowFirst(half, indices, 0, last + 1, last);
      RearrangedLowFirst(v, half, last + 1, |indices| - (last + 1), last);
    }
  }

  // The order of the tests in each suite.
  ghost function TestOrders(suites: seq<TestSuite>): (orders: seq<seq<nat>>)
    reads suites
    ensures |orders| == |suites| && forall i | 0 <= i < |suites| :: orders[i] == suites[i].testIndices
  {
    seq(|suites|, i requires 0 <= i < |suites| reads suites => suites[i].testIndices)
  }

  // Each order shuffled in turn, with one generator.
  function ShuffledEach(orders: seq<seq<nat>>, state: nat): seq<seq<nat>> {
    if orders == [] then []
    else
      var n := |orders[0]|;
      [FisherYates(orders[0], 0, n, Choices(state, n))] + ShuffledEach(orders[1..], StateAfter(state, n))
  }

  function StateAfterEach(orders: seq<seq<nat>>, state: nat): nat {
    if orders == [] then state else StateAfterEach(orders[1..], StateAfter(state, |orders[0]|))
  }

  // Every order is shuffled, with what the generator yields after those before it.
  lemma {:induction false} EachIsShuffled(orders: seq<seq<nat>>, state: nat, i: nat)
    requires i < |orders|
    ensures |ShuffledEach(orders, state)| == |orders|
    ensures var n, before := |orders[i]|, StateAfterEach(orders[..i], state);
            && ShuffledEach(orders, state)[i] == FisherYates(orders[i], 0, n, Choices(before, n))
            && StateAfterEach(orders[..i + 1], state) == StateAfter(before, n)
  {
    hide FisherYates, Choices, StateAfter;
    var rest, next := orders[1..], StateAfter(state, |orders[0]|);
    assert forall k | 0 < k <= |orders| :: orders[..k][0] == orders[0] && orders[..k][1..] == rest[..k - 1];
    if i > 0 {
      EachIsShuffled(rest, next, i - 1);
    } else {
      EachHasOne(rest, next);
      assert StateAfterEach(orders[..0], state) == state;
      assert StateAfterEach(rest[..0], next) == next;
    }
  }

  lemma {:induction false} EachHasOne(orders: seq<seq<nat>>, state: nat)
    ensures |ShuffledEach(orders, state)| == |orders|
  {
    if orders != [] {
      EachHasOne(orders[1..], StateAfter(state, |orders[0]|));
    }
  }

  // The orders behind `done` are still to be shuffled, from this state on.
  ghost predicate ShufflingEach(orders: seq<seq<nat>>, state0: nat, done: seq<seq<nat>>, state: nat) {
    && |done| <= |orders|
    && done + ShuffledEach(orders[|done|..], state) == ShuffledEach(orders, state0)
    && StateAfterEach(orders[|done|..], state) == StateAfterEach(orders, state0)
  }

  lemma ShuffleEachBegins(orders: seq<seq<nat>>, state: nat)
    ensures ShufflingEach(orders, state, [], state)
  {
    hide ShuffledEach, StateAfterEach;
    assert orders[0..] == orders && [] + ShuffledEach(orders, state) == ShuffledEach(orders, state);
  }

  lemma ShuffleEachStep(orders: seq<seq<nat>>, state0: nat, done: seq<seq<nat>>, state: nat)
    requires ShufflingEach(orders, state0, done, state) && |done| < |orders|
    ensures var next, n := orders[|done|], |orders[|done|]|;
            ShufflingEach(orders, state0, done + [FisherYates(next, 0, n, Choices(state, n))], StateAfter(state, n))
  {
    hide ShuffledEach, StateAfterEach, FisherYates, Choices, StateAfter;
    var i, rest := |done|, orders[|done|..];
    var n := |orders[i]|;
    FirstShuffled(rest, state);
    assert rest[0] == orders[i] && rest[1..] == orders[i + 1..];
    var order, others := FisherYates(orders[i], 0, n, Choices(state, n)), ShuffledEach(orders[i + 1..], StateAfter(state, n));
    assert done + ([order] + others) == done + [order] + others;
  }

  lemma ShuffleEachEnds(orders: seq<seq<nat>>, state0: nat, done: seq<seq<nat>>, state: nat)
    requires ShufflingEach(orders, state0, done, state) && |done| == |orders|
    ensures ShuffledEach(orders, state0) == done && StateAfterEach(orders, state0) == state
  {
    assert orders[|done|..] == [] && done + [] == done;
  }

  lemma FirstShuffled(orders: seq<seq<nat>>, state: nat)
    requires orders != []
    ensures var n := |orders[0]|;
            && ShuffledEach(orders, state) ==
               [FisherYates(orders[0], 0, n, Choices(state, n))] + ShuffledEach(orders[1..], StateAfter(state, n))
            && StateAfterEach(orders, state) == StateAfterEach(orders[1..], StateAfter(state, n))
  {
    hide FisherYates, Choices, StateAfter;
  }

  method ShuffleEachSuite(testSuites: seq<TestSuite>, random: Random)
    requires forall i, j | 0 <= i < j < |testSuites| :: testSuites[i] != testSuites[j]
    requires forall s <- testSuites :: s.Valid() && |s.testIndices| <= MAX_RANGE
    modifies testSuites, random
    ensures forall s <- testSuites :: s.Valid() && |s.testIndices| == old(|s.testIndices|)
    ensures TestOrders(testSuites) == ShuffledEach(old(TestOrders(testSuites)), old(random.state))
    ensures random.state == StateAfterEach(old(TestOrders(testSuites)), old(random.state))
  {
    hide IsOrder, FisherYates, Choices, StateAfter, ShufflingEach, ShuffledEach, StateAfterEach, TestOrders;
    ghost var orders := TestOrders(testSuites);
    ghost var done: seq<seq<nat>> := [];
    ShuffleEachBegins(orders, random.state);
    for i := 0 to |testSuites|
      invariant forall s <- testSuites :: s.Valid() && |s.testIndices| == old(|s.testIndices|)
      invariant forall j | i <= j < |testSuites| :: testSuites[j].testIndices == orders[j]
      invariant |done| == i && forall j | 0 <= j < i :: testSuites[j].testIndices == done[j]
      invariant ShufflingEach(orders, old(random.state), done, random.state)
    {
      ShuffleEachStep(orders, old(random.state), done, random.state);
      testSuites[i].ShuffleTests(random);
      done := done + [testSuites[i].testIndices];
    }
    ShuffleEachEnds(orders, old(random.state), done, random.state);
    assert TestOrders(testSuites) == done;
  }

  method HasDeathTestSuiteName(testSuiteName: string) returns (b: bool)
    ensures b <==> IsDeathTestSuite(testSuiteName)
  {
    var deathTestSuiteFilter := new UnitTestFilter(DEATH_TEST_SUITE_FILTER);
    b := deathTestSuiteFilter.MatchesName(testSuiteName);
    DeathTestSuiteFilterMeans(testSuiteName);
  }

  class UnitTestImpl {
    var testSuites: seq<TestSuite>
    var testSuitesByName: map<string, TestSuite>
    var lastDeathTestSuite: int
    var testSuiteIndices: seq<nat>
    const random: Random
    // The names in the order in which they were first asked for.
    ghost var registered: seq<string>

    ghost predicate Valid()
      reads this, testSuites
    {
      && Sorted(testSuites, registered, lastDeathTestSuite)
      && Indexed(testSuites, testSuitesByName, registered)
      && -1 <= lastDeathTestSuite < |testSuites|
      && |testSuiteIndices| == |testSuites| && IsOrder(testSuiteIndices)
      && forall s <- testSuites :: s.Valid()
    }

    ghost predicate Unshuffled()
      reads this
    {
      testSuiteIndices == Identity(|testSuiteIndices|)
    }

    // The suites are run in the order of testSuiteIndices.
    ghost predicate DeathTestsFirst()
      reads this
    {
      LowFirst(testSuiteIndices, lastDeathTestSuite)
    }

    // The index that a new death test suite would get stands where it belongs.
    ghost predicate HasRoomForDeathTest()
      requires -1 <= lastDeathTestSuite < |testSuiteIndices|
      reads this
    {
      (testSuiteIndices + [|testSuiteIndices|])[lastDeathTestSuite + 1] == lastDeathTestSuite + 1
    }

    constructor (seed: nat)
      requires seed < 0x1_0000_0000
      ensures Valid() && Unshuffled() && registered == [] && testSuites == []
      ensures fresh(random) && random.state == seed
    {
      testSuites, testSuitesByName, lastDeathTestSuite, testSuiteIndices := [], map[], -1, [];
      random := new Random(seed);
      registered := [];
    }

    // Finds the suite with this name, or creates it.
    method GetTestSuite(testSuiteName: string) returns (suite: TestSuite)
      requires Valid()
      modifies this
      ensures Valid()
      ensures suite in testSuites && suite.name == testSuiteName
      ensures testSuitesByName == old(testSuitesByName)[testSuiteName := suite]
      ensures registered == if testSuiteName in old(registered) then old(registered) else old(registered) + [testSuiteName]
      ensures testSuiteName in old(registered) ==> testSuites == old(testSuites) && testSuiteIndices == old(testSuiteIndices)
      ensures testSuiteName !in old(registered) ==>
                fresh(suite) && suite.testIndices == [] &&
                testSuiteIndices == old(testSuiteIndices) + [|old(testSuiteIndices)|]
      ensures old(Unshuffled()) ==> Unshuffled()
      ensures old(DeathTestsFirst()) ==>
                (DeathTestsFirst() <==>
                 testSuiteName in old(registered) || !IsDeathTestSuite(testSuiteName) || old(HasRoomForDeathTest()))
    {
      hide Sorted, Indexed, IsOrder, LowFirst, IsDeathTestSuite, Insert, Only, Names, Identity;
      IndexMeans(testSuites, testSuitesByName, registered, testSuiteName);
      IdentityGrows(|testSuiteIndices|);
      // Tests of a suite are usually added one after the other.
      if testSuites != [] && testSuites[|testSuites| - 1].name == testSuiteName {
        return testSuites[|testSuites| - 1];
      }
      if testSuiteName in testSuitesByName {
        return testSuitesByName[testSuiteName];
      }
      suite := new TestSuite(testSuiteName);
      AddSuite(suite);
    }

    // A new suite goes behind the last of its kind.
    method AddSuite(suite: TestSuite)
      requires Valid() && suite.name !in registered && suite.Valid()
      modifies this
      ensures Valid() && suite in testSuites
      ensures registered == old(registered) + [suite.name]
      ensures testSuitesByName == old(testSuitesByName)[suite.name := suite]
      ensures testSuiteIndices == old(testSuiteIndices) + [|old(testSuiteIndices)|]
      ensures old(DeathTestsFirst()) ==>
                (DeathTestsFirst() <==> !IsDeathTestSuite(suite.name) || old(HasRoomForDeathTest()))
    {
      hide Sorted, Indexed, IsOrder, LowFirst, IsDeathTestSuite, Insert, Only, Names, Identity;
      IndexMeans(testSuites, testSuitesByName, registered, suite.name);
      InsertKeepsSorted(testSuites, registered, lastDeathTestSuite, suite);
      OrderGrows(testSuiteIndices);
      if DeathTestsFirst() {
        LowFirstGrows(testSuiteIndices, lastDeathTestSuite);
      }
      ghost var byName := testSuitesByName;
      testSuitesByName := testSuitesByName[suite.name := suite];
      var isDeathTestSuite := HasDeathTestSuiteName(suite.name);
      if isDeathTestSuite {
        // Right only while the suites are not shuffled.
        lastDeathTestSuite := lastDeathTestSuite + 1;
        InsertKeepsIndexed(testSuites, byName, registered, lastDeathTestSuite, suite);
        testSuites := Insert(testSuites, lastDeathTestSuite, suite);
      } else {
        InsertKeepsIndexed(testSuites, byName, registered, |testSuites|, suite);
        AppendIsInsert(testSuites, suite);
        testSuites := testSuites + [suite];
      }
      registered := registered + [suite.name];
      testSuiteIndices := testSuiteIndices + [|testSuiteIndices|];
    }

    // Registers one more test of the suite with this name.
    method AddTestInfo(testSuiteName: string)
      requires Valid()
      modifies this, testSuites
      ensures Valid()
      ensures registered == if testSuiteName in old(registered) then old(registered) else old(registered) + [testSuiteName]
      ensures testSuiteName in testSuitesByName && testSuitesByName.Keys == old(testSuitesByName.Keys) + {testSuiteName}
      ensures testSuitesByName[testSuiteName].testIndices ==
              if testSuiteName in old(testSuitesByName)
              then old(testSuitesByName[testSuiteName].testIndices + [|testSuitesByName[testSuiteName].testIndices|])
              else [0]
      ensures forall s <- old(testSuites) | s.name != testSuiteName :: s.testIndices == old(s.testIndices)
      ensures old(DeathTestsFirst()) ==>
                (DeathTestsFirst() <==>
                 testSuiteName in old(registered) || !IsDeathTestSuite(testSuiteName) || old(HasRoomForDeathTest()))
      ensures old(Unshuffled()) ==> Unshuffled()
    {
      hide Sorted, Indexed, IsOrder, LowFirst, IsDeathTestSuite;
      IndexMeans(testSuites, testSuitesByName, registered, testSuiteName);
      var suite := GetTestSuite(testSuiteName);
      suite.AddTestInfo();
    }

    // Shuffles the death test suites, the other suites, and the tests in each suite.
    method ShuffleTests()
      requires Valid() && |testSuites| <= MAX_RANGE && forall s <- testSuites :: |s.testIndices| <= MAX_RANGE
      modifies this`testSuiteIndices, random, testSuites
      ensures Valid()
      ensures old(DeathTestsFirst()) ==> DeathTestsFirst()
      ensures forall s <- testSuites :: |s.testIndices| == old(|s.testIndices|)
      ensures |testSuites| == |old(testSuiteIndices)|
      ensures testSuiteIndices == ShuffledIndices(old(testSuiteIndices), lastDeathTestSuite + 1, old(random.state))
      ensures TestOrders(testSuites) ==
              ShuffledEach(old(TestOrders(testSuites)),
                           StateAfterIndices(|testSuites|, lastDeathTestSuite + 1, old(random.state)))
      ensures random.state ==
              StateAfterEach(old(TestOrders(testSuites)),
                             StateAfterIndices(|testSuites|, lastDeathTestSuite + 1, old(random.state)))
    {
      hide Sorted, Indexed, IsOrder, LowFirst, StateAfterIndices, ShuffledIndices, ShuffledEach, TestOrders;
      SuitesAreDistinct(testSuites, testSuitesByName, registered);
      SortedBounds(testSuites, registered, lastDeathTestSuite);
      testSuiteIndices := ShuffleIndices(random, lastDeathTestSuite, testSuiteIndices);
      ShuffleEachSuite(testSuites, random);
    }

    // Restores the order of registration, whatever was shuffled before.
    method UnshuffleTests()
      requires Valid()
      modifies this`testSuiteIndices, testSuites
      ensures Valid() && Unshuffled() && DeathTestsFirst()
      ensures forall s <- testSuites :: s.testIndices == Identity(old(|s.testIndices|))
    {
      hide Sorted, Indexed, IsOrder, LowFirst;
      IdentityIsOrder(|testSuites|, lastDeathTestSuite);
      for i := 0 to |testSuites|
        invariant |testSuiteIndices| == |testSuites|
        invariant forall j | 0 <= j < i :: testSuiteIndices[j] == j
        invariant forall s <- testSuites :: |s.testIndices| == old(|s.testIndices|) && s.Valid()
        invariant forall j | 0 <= j < i :: testSuites[j].testIndices == Identity(old(|testSuites[j].testIndices|))
      {
        testSuites[i].UnshuffleTests();
        testSuiteIndices := testSuiteIndices[i := i];
      }
      assert testSuiteIndices == Identity(|testSuiteIndices|);
    }

    // The order of an iteration depends on its seed, not on what was shuffled in earlier ones.
    method StartIteration(shuffle: bool, randomSeed: nat)
      requires Valid() && DeathTestsFirst() && randomSeed < 0x1_0000_0000
      requires |testSuites| <= MAX_RANGE && forall s <- testSuites :: |s.testIndices| <= MAX_RANGE
      modifies this`testSuiteIndices, random, testSuites
      ensures Valid() && DeathTestsFirst()
      ensures forall s <- testSuites :: |s.testIndices| == old(|s.testIndices|)
      ensures testSuiteIndices ==
              if shuffle then ShuffledIndices(old(testSuiteIndices), lastDeathTestSuite + 1, randomSeed)
              else old(testSuiteIndices)
      ensures TestOrders(testSuites) ==
              if shuffle
              then ShuffledEach(old(TestOrders(testSuites)),
                                StateAfterIndices(|testSuites|, lastDeathTestSuite + 1, randomSeed))
              else old(TestOrders(testSuites))
    {
      hide Sorted, Indexed, IsOrder, LowFirst, ShuffledIndices, ShuffledEach, StateAfterIndices, StateAfterEach,
           TestOrders, Identity;
      if shuffle {
        random.Reseed(randomSeed);
        ShuffleTests();
      }
    }

    // One iteration: suites and tests are put into the order they run in, and back afterwards.
    method RunIteration(shuffle: bool, randomSeed: nat) returns (order: seq<nat>)
      requires Valid() && Unshuffled() && randomSeed < 0x1_0000_0000
      requires |testSuites| <= MAX_RANGE && forall s <- testSuites :: |s.testIndices| <= MAX_RANGE
      modifies this`testSuiteIndices, random, testSuites
      ensures Valid() && Unshuffled()
      ensures forall s <- testSuites :: s.testIndices == Identity(old(|s.testIndices|))
      ensures order ==
              if shuffle then ShuffledIndices(Identity(|testSuites|), lastDeathTestSuite + 1, randomSeed)
              else Identity(|testSuites|)
    {
      hide Sorted, Indexed, IsOrder, LowFirst, ShuffledIndices, ShuffledEach, StateAfterIndices;
      UnshuffledMeansDeathTestsFirst();
      StartIteration(shuffle, randomSeed);
      order := testSuiteIndices;
      UnshuffleTests();
    }

    // While nothing is shuffled, death tests come first.
    lemma UnshuffledMeansDeathTestsFirst()
      requires Unshuffled()
      ensures DeathTestsFirst()
    {}

    // The suite run at position i is a death test suite exactly when i is one of the first positions.
    lemma DeathTestsRunFirst(i: nat)
      requires Valid() && DeathTestsFirst() && i < |testSuites|
      ensures testSuiteIndices[i] < |testSuites|
      ensures IsDeathTestSuite(testSuites[testSuiteIndices[i]].name) <==> i < |Only(registered, true)|
    {
      OrderIsInRange(testSuiteIndices);
      var k := testSuiteIndices[i];
      var death, other := Only(registered, true), Only(registered, false);
      OnlyKeeps(registered, true);
      OnlyKeeps(registered, false);
      assert testSuites[k].name == Names(testSuites)[k] == (death + other)[k];
      if k < |death| {
        assert death[k] in death;
      } else {
        assert other[k - |death|] in other;
      }
    }

    // Every suite is run, and only once.
    lemma EverySuiteRunsOnce(k: nat)
      requires Valid() && k < |testSuites|
      ensures multiset(testSuiteIndices)[k] == 1
    {
      OrderIsOneToOne(testSuiteIndices, k);
    }
  }

  // What comes of registering a death test suite while the others are shuffled: it runs between them.
  method RegisteredWhileShuffled() returns (impl: UnitTestImpl)
    ensures impl.Valid() && impl.registered == ["A", "B", "DeathTest"]
    ensures IsDeathTestSuite("DeathTest") && !impl.DeathTestsFirst()
  {
    hide Sorted, Indexed, IsOrder, LowFirst, IsDeathTestSuite;
    impl := TwoSuitesSwapped();
    SomeNames();
    PlainIsLowFirst(impl.testSuiteIndices);
    var _ := impl.GetTestSuite("DeathTest");
  }

  method TwoSuitesSwapped() returns (impl: UnitTestImpl)
    ensures impl.Valid() && impl.registered == ["A", "B"]
    ensures impl.testSuiteIndices == [1, 0] && impl.lastDeathTestSuite == -1 && fresh(impl)
  {
    hide Sorted, Indexed, IsOrder, LowFirst, IsDeathTestSuite, ShuffledIndices, ShuffledEach, StateAfterIndices,
         StateAfterEach, TestOrders;
    impl := TwoSuites();
    impl.ShuffleTests();
    SeedOneSwaps();
  }

  method TwoSuites() returns (impl: UnitTestImpl)
    ensures impl.Valid() && impl.registered == ["A", "B"] && impl.random.state == 1
    ensures impl.testSuiteIndices == [0, 1] && impl.lastDeathTestSuite == -1
    ensures forall s <- impl.testSuites :: s.testIndices == []
    ensures fresh(impl) && fresh(impl.random)
    ensures forall i | 0 <= i < |impl.testSuites| :: fresh(impl.testSuites[i])
  {
    hide Sorted, Indexed, IsOrder, LowFirst, IsDeathTestSuite, TestOrders;
    impl := new UnitTestImpl(1);
    var a := impl.GetTestSuite("A");
    var b := impl.GetTestSuite("B");
    IndexMeans(impl.testSuites, impl.testSuitesByName, impl.registered, "A");
    assert impl.registered == ["A", "B"];
    TwoPlainSuites(impl.testSuites, impl.lastDeathTestSuite);
  }

  lemma PlainIsLowFirst(v: seq<nat>)
    ensures LowFirst(v, -1)
  {
  }

  lemma TwoPlainSuites(suites: seq<TestSuite>, last: int)
    requires Sorted(suites, ["A", "B"], last)
    ensures last == -1
  {
    SomeNames();
    assert ["A", "B"][..1] == ["A"] && ["A"][..0] == [];
    assert Only(["A"], true) == [];
  }

  lemma SomeNames()
    ensures IsDeathTestSuite("DeathTest") && !IsDeathTestSuite("A") && !IsDeathTestSuite("B")
  {
    assert "DeathTest"[0..] == "DeathTest";
  }

  lemma SeedOneSwaps()
    ensures ShuffledIndices([0, 1], 0, 1) == [1, 0]
  {
    assert NextState(1) == 1103527590;
    assert Choices(1, 0) == [] && FisherYates([0, 1], 0, 0, []) == [0, 1] && StateAfter(1, 0) == 1;
    assert Choices(1103527590, 1) == [] && Choices(1, 2) == [0];
    assert FisherYates([1, 0], 0, 1, []) == [1, 0];
    assert Swap([0, 1], 0, 1) == [1, 0];
    assert [0][1..] == [];
    assert FisherYates([0, 1], 0, 2, [0]) == [1, 0];
  }
}
