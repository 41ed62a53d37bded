/**
 The pseudo-random generator and the in-place shuffle that the test runner uses.
 */
module Shuffle {

  const MAX_RANGE: nat := 0x8000_0000

  // The state after one step: 32-bit arithmetic, then the lower 31 bits.
  function NextState(state: nat): nat {
    (1103515245 * state + 12345) % 0x1_0000_0000 % MAX_RANGE
  }

  // The lower 31 bits do not depend on the cut to 32 bits before.
  lemma NextStateIs(state: nat)
    ensures NextState(state) == (1103515245 * state + 12345) % 2147483648
  {
    var x: nat := 1103515245 * state + 12345;
    var q, r := x / 4294967296, x % 4294967296;
    var q', r' := r / 2147483648, r % 2147483648;
    assert x == (2 * q + q') * 2147483648 + r';
    UniqueRemainder(x, 2 * q + q', r');
  }

  lemma UniqueRemainder(x: nat, q: nat, r: nat)
    requires x == q * 2147483648 + r && r < 2147483648
    ensures x % 2147483648 == r
  {
    assert x / 2147483648 == q;
  }

  class Random {
    var state: nat

    constructor (seed: nat)
      requires seed < 0x1_0000_0000
      ensures state == seed
    {
      state := seed;
    }

    method Reseed(seed: nat)
      requires seed < 0x1_0000_0000
      modifies this
      ensures state == seed
    {
      state := seed;
    }

    method Generate(range: nat) returns (r: nat)
      requires 0 < range <= MAX_RANGE
      modifies this
      ensures r < range
      ensures state == NextState(old(state)) && r == state % range
      ensures state == (1103515245 * old(state) + 12345) % 2147483648
    {
      NextStateIs(state);
      state := (1103515245 * state + 12345) % 0x1_0000_0000 % MAX_RANGE;
      return state % range;
    }
  }

  // --------------------------------------------------------------------------
  // The shuffle as a function of the choices it makes
  // --------------------------------------------------------------------------

  function Swap<T>(v: seq<T>, i: nat, j: nat): seq<T>
    requires i < |v| && j < |v|
  {
    v[i := v[j]][j := v[i]]
  }

  // One choice for each width from `width` down to 2, each below its width.
  predicate LegalChoices(choices: seq<nat>, width: nat) {
    if width < 2 then choices == []
    else choices != [] && choices[0] < width && LegalChoices(choices[1..], width - 1)
  }

  function FisherYates<T>(v: seq<T>, begin: nat, width: nat, choices: seq<nat>): (r: seq<T>)
    requires begin + width <= |v| && LegalChoices(choices, width)
    ensures |r| == |v|
    decreases width
  {
    if width < 2 then v
    else FisherYates(Swap(v, begin + choices[0], begin + width - 1), begin, width - 1, choices[1..])
  }

  // The choices that the generator makes from a state, and the state it ends in.
  function Choices(state: nat, width: nat): (choices: seq<nat>)
    ensures LegalChoices(choices, width)
    decreases width
  {
    if width < 2 then []
    else
      var rest := Choices(NextState(state), width - 1);
      assert ([NextState(state) % width] + rest)[1..] == rest;
      [NextState(state) % width] + rest
  }

  function StateAfter(state: nat, width: nat): nat
    decreases width
  {
    if width < 2 then state else StateAfter(NextState(state), width - 1)
  }

  // The state after k steps.
  function Steps(state: nat, k: nat): nat {
    if k == 0 then state else NextState(Steps(state, k - 1))
  }

  lemma {:induction false} StepsFrom(state: nat, k: nat)
    ensures Steps(NextState(state), k) == Steps(state, k + 1)
  {
    hide NextState;
    if k > 0 {
      StepsFrom(state, k - 1);
    }
  }

  // One choice is made for each step but the last, from the number behind that step.
  lemma {:induction false} ChoicesAre(state: nat, width: nat)
    ensures |Choices(state, width)| == (if width < 2 then 0 else width - 1)
    ensures forall k | 0 <= k < |Choices(state, width)| :: Choices(state, width)[k] == Steps(state, k + 1) % (width - k)
    ensures StateAfter(state, width) == Steps(state, |Choices(state, width)|)
    decreases width
  {
    hide NextState;
    if width >= 2 {
      var next := NextState(state);
      ChoicesAre(next, width - 1);
      var choices, rest := Choices(state, width), Choices(next, width - 1);
      assert choices[1..] == rest;
      assert Steps(state, 1) == NextState(Steps(state, 0));
      StepsFrom(state, |rest|);
      forall k | 0 < k < |choices|
        ensures choices[k] == Steps(state, k + 1) % (width - k)
      {
        assert choices[k] == rest[k - 1];
        StepsFrom(state, k);
      }
    }
  }

  // r rearranges v[begin..begin + width] and leaves the rest of v alone.
  ghost predicate Rearranges<T>(r: seq<T>, v: seq<T>, begin: nat, width: nat) {
    && begin + width <= |v| == |r|
    && SameOutside(r, v, begin, width)
    && multiset(r[begin..begin + width]) == multiset(v[begin..begin + width])
  }

  ghost predicate SameOutside<T>(r: seq<T>, v: seq<T>, begin: nat, width: nat)
    requires |r| == |v|
  {
    forall k | 0 <= k < |v| && !(begin <= k < begin + width) :: r[k] == v[k]
  }

  // Swapping one element into the last place leaves a rearrangement of one element less.
  lemma SwapLeavesLess<T>(r: seq<T>, v: seq<T>, begin: nat, width: nat, c: nat)
    requires begin + width <= |v| == |r| && c < width
    ensures var w := Swap(v, begin + c, begin + width - 1);
            Rearranges(r, w, begin, width - 1) <==> Rearranges(r, v, begin, width) && r[begin + width - 1] == v[begin + c]
  {
    hide SameOutside, Swap;
    var last := begin + width - 1;
    SwapOutside(r, v, begin, width, c);
    SwapInside(v, begin, width, c);
    var inside := v[begin..last + 1];
    assert r[begin..last] == r[begin..last + 1][..width - 1];
    if r[last] == inside[c] {
      LastInPlace(r[begin..last + 1], inside, c);
    }
  }

  lemma SwapOutside<T>(r: seq<T>, v: seq<T>, begin: nat, width: nat, c: nat)
    requires begin + width <= |v| == |r| && c < width
    ensures var last := begin + width - 1;
            SameOutside(r, Swap(v, begin + c, last), begin, width - 1) <==>
            SameOutside(r, v, begin, width) && r[last] == v[begin + c]
  {
    var last := begin + width - 1;
    var w := Swap(v, begin + c, last);
    assert w[last] == v[begin + c];
    if SameOutside(r, w, begin, width - 1) {
      assert r[last] == w[last];
    }
  }

  lemma SwapInside<T>(v: seq<T>, begin: nat, width: nat, c: nat)
    requires begin + width <= |v| && c < width
    ensures var w := Swap(v, begin + c, begin + width - 1);
            |w| == |v| && |Swap(v[begin..begin + width], c, width - 1)| == width &&
            w[begin..begin + width - 1] == Swap(v[begin..begin + width], c, width - 1)[..width - 1]
  {}

  lemma LastInPlace<T>(r: seq<T>, v: seq<T>, c: nat)
    requires |r| == |v| > 0 && c < |v| && r[|v| - 1] == v[c]
    ensures var last := |v| - 1;
            multiset(r[..last]) == multiset(Swap(v, c, last)[..last]) <==> multiset(r) == multiset(v)
  {
    hide Swap;
    var last := |v| - 1;
    SwapPermutes(v, c, last);
    SplitLast(r);
    SplitLast(Swap(v, c, last));
    Cancel(multiset(r[..last]), multiset(Swap(v, c, last)[..last]), v[c]);
  }

  lemma SplitLast<T>(s: seq<T>)
    requires s != []
    ensures multiset(s) == multiset(s[..|s| - 1]) + multiset{s[|s| - 1]}
  {
    assert s == s[..|s| - 1] + [s[|s| - 1]];
  }

  lemma Cancel<T>(a: multiset<T>, b: multiset<T>, x: T)
    ensures a == b <==> a + multiset{x} == b + multiset{x}
  {
    assert a == a + multiset{x} - multiset{x};
    assert b == b + multiset{x} - multiset{x};
  }

  lemma SwapPermutes<T>(v: seq<T>, i: nat, j: nat)
    requires i < |v| && j < |v|
    ensures |Swap(v, i, j)| == |v| && Swap(v, i, j)[j] == v[i]
    ensures multiset(Swap(v, i, j)) == multiset(v)
  {}

  lemma {:induction false} FisherYatesRearranges<T>(v: seq<T>, begin: nat, width: nat, choices: seq<nat>)
    requires begin + width <= |v| && LegalChoices(choices, width)
    ensures Rearranges(FisherYates(v, begin, width, choices), v, begin, width)
    decreases width
  {
    if width >= 2 {
      var w := Swap(v, begin + choices[0], begin + width - 1);
      FisherYatesRearranges(w, begin, width - 1, choices[1..]);
      SwapLeavesLess(FisherYates(v, begin, width, choices), v, begin, width, choices[0]);
    }
  }

  // The chosen element comes last, what was last takes its place, and the others are shuffled.
  lemma FisherYatesStep<T>(v: seq<T>, begin: nat, width: nat, c: nat, rest: seq<nat>)
    requires 2 <= width && begin + width <= |v| && c < width && LegalChoices(rest, width - 1)
    ensures LegalChoices([c] + rest, width)
    ensures var last := begin + width - 1;
            FisherYates(v, begin, width, [c] + rest) ==
            FisherYates(v[begin + c := v[last]][last := v[begin + c]], begin, width - 1, rest)
  {
    assert ([c] + rest)[1..] == rest;
  }

  // Shuffling a range is shuffling it alone.
  lemma {:induction false} FisherYatesInside<T>(v: seq<T>, begin: nat, end: nat, width: nat, choices: seq<nat>)
    requires begin + width <= end <= |v| && LegalChoices(choices, width)
    ensures FisherYates(v, begin, width, choices)[begin..end] == FisherYates(v[begin..end], 0, width, choices)
    decreases width
  {
    if width >= 2 {
      var i, j := begin + choices[0], begin + width - 1;
      FisherYatesInside(Swap(v, i, j), begin, end, width - 1, choices[1..]);
      assert Swap(v, i, j)[begin..end] == Swap(v[begin..end], choices[0], width - 1);
    }
  }

  // Every rearrangement is the outcome of some choices ...
  lemma {:induction false} FisherYatesReaches<T>(v: seq<T>, begin: nat, width: nat, r: seq<T>) returns (choices: seq<nat>)
    requires Rearranges(r, v, begin, width)
    ensures LegalChoices(choices, width) && FisherYates(v, begin, width, choices) == r
    decreases width
  {
    hide Rearranges, Swap;
    if width < 2 {
      choices := [];
      OneElementStays(v, begin, width, r);
    } else {
      var c := WhereLastIs(v, begin, width, r);
      SwapLeavesLess(r, v, begin, width, c);
      var rest := FisherYatesReaches(Swap(v, begin + c, begin + width - 1), begin, width - 1, r);
      choices := [c] + rest;
      assert choices[1..] == rest;
    }
  }

  lemma WhereLastIs<T>(v: seq<T>, begin: nat, width: nat, r: seq<T>) returns (c: nat)
    requires Rearranges(r, v, begin, width) && width > 0
    ensures begin + width <= |v| == |r| && c < width && v[begin + c] == r[begin + width - 1]
  {
    assert r[begin + width - 1] == r[begin..begin + width][width - 1];
    assert r[begin + width - 1] in multiset(v[begin..begin + width]);
    c :| c < width && v[begin..begin + width][c] == r[begin + width - 1];
  }

  lemma OneElementStays<T>(v: seq<T>, begin: nat, width: nat, r: seq<T>)
    requires Rearranges(r, v, begin, width) && width < 2
    ensures r == v
  {
    if width == 1 {
      assert r[begin..begin + 1] == [r[begin]] && v[begin..begin + 1] == [v[begin]];
      assert multiset([r[begin]])[r[begin]] == 1;
    }
  }

  // ... and, when the elements are distinct, of no other choices: no order is favoured by the algorithm.
  lemma {:induction false} FisherYatesIsInjective<T>(v: seq<T>, begin: nat, width: nat, a: seq<nat>, b: seq<nat>)
    requires begin + width <= |v| && LegalChoices(a, width) && LegalChoices(b, width)
    requires forall i, j | begin <= i < j < begin + width :: v[i] != v[j]
    requires FisherYates(v, begin, width, a) == FisherYates(v, begin, width, b)
    ensures a == b
    decreases width
  {
    hide Rearranges, Swap;
    if width >= 2 {
      LastIsChosen(v, begin, width, a);
      LastIsChosen(v, begin, width, b);
      assert a[0] == b[0];
      SwapKeepsDistinct(v, begin, width, a[0]);
      FisherYatesIsInjective(Swap(v, begin + a[0], begin + width - 1), begin, width - 1, a[1..], b[1..]);
      assert a == [a[0]] + a[1..] && b == [b[0]] + b[1..];
    }
  }

  lemma LastIsChosen<T>(v: seq<T>, begin: nat, width: nat, a: seq<nat>)
    requires width >= 2 && begin + width <= |v| && LegalChoices(a, width)
    ensures FisherYates(v, begin, width, a)[begin + width - 1] == v[begin + a[0]]
  {
    var w := Swap(v, begin + a[0], begin + width - 1);
    FisherYatesRearranges(w, begin, width - 1, a[1..]);
    assert FisherYates(w, begin, width - 1, a[1..])[begin + width - 1] == w[begin + width - 1];
  }

  lemma SwapKeepsDistinct<T>(v: seq<T>, begin: nat, width: nat, c: nat)
    requires begin + width <= |v| && c < width
    requires forall i, j | begin <= i < j < begin + width :: v[i] != v[j]
    ensures var w := Swap(v, begin + c, begin + width - 1);
            forall i, j | begin <= i < j < begin + width - 1 :: w[i] != w[j]
  {}

  // --------------------------------------------------------------------------
  // The shuffle
  // --------------------------------------------------------------------------

  // Shuffles v[begin..end] in place.
  method ShuffleRange<T>(random: Random, begin: nat, end: nat, v0: seq<T>) returns (v: seq<T>)
    requires begin <= end <= |v0| && end - begin <= MAX_RANGE
    modifies random
    ensures v == FisherYates(v0, begin, end - begin, Choices(old(random.state), end - begin))
    ensures random.state == StateAfter(old(random.state), end - begin)
    ensures Rearranges(v, v0, begin, end - begin)
  {
    hide FisherYates, Choices, StateAfter, Rearranges, Swap, NextState;
    v := v0;
    var rangeWidth := end - begin;
    while rangeWidth >= 2
      invariant 0 <= rangeWidth <= end - begin && |v| == |v0|
      invariant FisherYates(v, begin, rangeWidth, Choices(random.state, rangeWidth)) ==
                FisherYates(v0, begin, end - begin, Choices(old(random.state), end - begin))
      invariant StateAfter(random.state, rangeWidth) == StateAfter(old(random.state), end - begin)
    {
      ShuffleStep(v, begin, rangeWidth, random.state);
      var lastInRange := begin + rangeWidth - 1;
      var selected := random.Generate(rangeWidth);
      selected := begin + selected;
      v := Swap(v, selected, lastInRange);
      rangeWidth := rangeWidth - 1;
    }
    ShuffleEnd(v, begin, rangeWidth, random.state);
    FisherYatesRearranges(v0, begin, end - begin, Choices(old(random.state), end - begin));
  }

  lemma ShuffleStep<T>(v: seq<T>, begin: nat, width: nat, state: nat)
    requires width >= 2 && begin + width <= |v|
    ensures var next := NextState(state);
            var w := Swap(v, begin + next % width, begin + width - 1);
            && |w| == |v|
            && FisherYates(v, begin, width, Choices(state, width)) ==
               FisherYates(w, begin, width - 1, Choices(next, width - 1))
            && StateAfter(state, width) == StateAfter(next, width - 1)
  {
    hide NextState;
    var rest := Choices(NextState(state), width - 1);
    assert ([NextState(state) % width] + rest)[1..] == rest;
  }

  lemma ShuffleEnd<T>(v: seq<T>, begin: nat, width: nat, state: nat)
    requires width < 2 && begin + width <= |v|
    ensures FisherYates(v, begin, width, Choices(state, width)) == v && StateAfter(state, width) == state
  {
  }
}
