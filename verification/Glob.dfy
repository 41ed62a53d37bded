/**
 Wildcard matching of test names: `?` stands for one character, `*` for any string.
 The matcher is a single loop that remembers only the last `*` it passed.
 */
module Glob {

  // What a pattern means.
  ghost predicate Matches(pattern: string, name: string)
    decreases |pattern|, |name|
  {
    if pattern == "" then name == ""
    else if pattern[0] == '*' then
      Matches(pattern[1..], name) || (name != "" && Matches(pattern, name[1..]))
    else
      name != "" && (pattern[0] == '?' || pattern[0] == name[0]) && Matches(pattern[1..], name[1..])
  }

  // A `*` can absorb any prefix of the name.
  lemma {:induction false} StarAbsorbs(pattern: string, name: string, k: nat)
    requires pattern != "" && pattern[0] == '*' && k <= |name|
    requires Matches(pattern, name[k..])
    ensures Matches(pattern, name)
    decreases k
  {
    if k > 0 {
      assert name[1..][k - 1..] == name[k..];
      StarAbsorbs(pattern, name[1..], k - 1);
    } else {
      assert name[0..] == name;
    }
  }

  // ... and a match of `*` tells how much it absorbed.
  lemma {:induction false} StarSplits(pattern: string, name: string) returns (k: nat)
    requires pattern != "" && pattern[0] == '*' && Matches(pattern, name)
    ensures k <= |name| && Matches(pattern[1..], name[k..])
    decreases |name|
  {
    if Matches(pattern[1..], name) {
      assert name[0..] == name;
      k := 0;
    } else {
      k := StarSplits(pattern, name[1..]);
      assert name[1..][k..] == name[k + 1..];
      k := k + 1;
    }
  }

  // What a pattern means is settled by three laws: without `*` it fits character by character, `*`
  // matches everything, and a pattern in two parts matches in two parts.
  lemma {:induction false} PlainMatches(pattern: string, name: string)
    requires '*' !in pattern
    ensures Matches(pattern, name)
            <==> |pattern| == |name| && forall i | 0 <= i < |name| :: pattern[i] == '?' || pattern[i] == name[i]
  {
    if pattern != "" {
      assert pattern[0] in pattern && forall c <- pattern[1..] :: c in pattern;
      if name != "" {
        PlainMatches(pattern[1..], name[1..]);
        assert (forall i | 0 <= i < |name| && i < |pattern| :: pattern[i] == '?' || pattern[i] == name[i]) <==>
               && (pattern[0] == '?' || pattern[0] == name[0])
               && forall i | 0 <= i < |name[1..]| && i < |pattern[1..]| ::
                    pattern[1..][i] == '?' || pattern[1..][i] == name[1..][i] by {
          assert forall i | 0 < i < |name| && i < |pattern| :: pattern[i] == pattern[1..][i - 1] && name[i] == name[1..][i - 1];
        }
      }
    }
  }

  lemma StarMatchesAll(name: string)
    ensures Matches("*", name)
  {
    assert "*"[1..] == "" && name[|name|..] == "";
    StarAbsorbs("*", name, |name|);
  }

  lemma {:induction false} MatchesInParts(a: string, b: string, name: string)
    ensures Matches(a + b, name) <==> exists k | 0 <= k <= |name| :: Matches(a, name[..k]) && Matches(b, name[k..])
    decreases |a|, |name|
  {
    if a == "" {
      assert a + b == b && name[..0] == "" && name[0..] == name;
    } else {
      assert (a + b)[1..] == a[1..] + b;
      if a[0] == '*' {
        MatchesInParts(a[1..], b, name);
        StarInParts(a, b, name);
        if name != "" {
          MatchesInParts(a, b, name[1..]);
        }
      } else if name != "" {
        MatchesInParts(a[1..], b, name[1..]);
        CharacterInParts(a, b, name);
      }
    }
  }

  // The two ways in which a `*` begins to match, for both sides of the law.
  lemma StarInParts(a: string, b: string, name: string)
    requires a != "" && a[0] == '*'
    ensures (exists k | 0 <= k <= |name| :: Matches(a, name[..k]) && Matches(b, name[k..]))
            <==> || (exists k | 0 <= k <= |name| :: Matches(a[1..], name[..k]) && Matches(b, name[k..]))
                 || (name != "" &&
                     exists k | 0 <= k <= |name[1..]| :: Matches(a, name[1..][..k]) && Matches(b, name[1..][k..]))
  {
    if k :| 0 <= k <= |name| && Matches(a, name[..k]) && Matches(b, name[k..]) && !Matches(a[1..], name[..k]) {
      assert name[..k][1..] == name[1..][..k - 1] && name[1..][k - 1..] == name[k..];
    }
    if name != "" {
      if k :| 0 <= k <= |name[1..]| && Matches(a, name[1..][..k]) && Matches(b, name[1..][k..]) {
        assert name[..k + 1][1..] == name[1..][..k] && name[1..][k..] == name[k + 1..];
        assert Matches(a, name[..k + 1]);
      }
    }
    if k :| 0 <= k <= |name| && Matches(a[1..], name[..k]) && Matches(b, name[k..]) {
      assert Matches(a, name[..k]);
    }
  }

  lemma CharacterInParts(a: string, b: string, name: string)
    requires a != "" && a[0] != '*' && name != ""
    ensures (exists k | 0 <= k <= |name| :: Matches(a, name[..k]) && Matches(b, name[k..]))
            <==> && (a[0] == '?' || a[0] == name[0])
                 && exists k | 0 <= k <= |name[1..]| :: Matches(a[1..], name[1..][..k]) && Matches(b, name[1..][k..])
  {
    if k :| 0 <= k <= |name| && Matches(a, name[..k]) && Matches(b, name[k..]) {
      assert name[..k][1..] == name[1..][..k - 1] && name[1..][k - 1..] == name[k..];
    }
    if k :| 0 <= k <= |name[1..]| && Matches(a[1..], name[1..][..k]) && Matches(b, name[1..][k..]) {
      assert name[..k + 1][1..] == name[1..][..k] && name[1..][k..] == name[k + 1..];
      assert a[0] == '?' || a[0] == name[0] ==> Matches(a, name[..k + 1]);
    }
  }

  // The rest of the pattern from p on matches some suffix of the name that starts at `from` or later.
  ghost predicate MatchesFrom(pattern: string, p: nat, name: string, from: nat)
    requires p <= |pattern|
  {
    exists k :: from <= k <= |name| && Matches(pattern[p..], name[k..])
  }

  lemma StarMeansSomeSuffix(pattern: string, p: nat, name: string, n: nat)
    requires p < |pattern| && pattern[p] == '*' && n <= |name|
    ensures Matches(pattern[p..], name[n..]) <==> MatchesFrom(pattern, p + 1, name, n)
  {
    assert pattern[p..][1..] == pattern[p + 1..];
    if Matches(pattern[p..], name[n..]) {
      var k := StarSplits(pattern[p..], name[n..]);
      assert name[n..][k..] == name[n + k..];
    }
    if MatchesFrom(pattern, p + 1, name, n) {
      var k :| n <= k <= |name| && Matches(pattern[p + 1..], name[k..]);
      assert name[n..][k - n..] == name[k..];
      StarAbsorbs(pattern[p..], name[n..], k - n);
    }
  }

  // A stretch of the pattern without `*` consumes exactly its own length of the name.
  lemma {:induction false} PlainStretch(pattern: string, p: nat, q: nat, name: string, k: nat)
    requires p <= q <= |pattern| && k <= |name|
    requires '*' !in pattern[p..q]
    requires Matches(pattern[p..], name[k..])
    ensures k + (q - p) <= |name| && Matches(pattern[q..], name[k + (q - p)..])
    decreases q - p
  {
    if p < q {
      assert pattern[p] == pattern[p..q][0];
      assert pattern[p + 1..q] == pattern[p..q][1..];
      assert pattern[p..][1..] == pattern[p + 1..];
      assert name[k..][1..] == name[k + 1..];
      PlainStretch(pattern, p + 1, q, name, k + 1);
    }
  }

  // Why only the last `*` must be remembered: when a later one is reached at q, whatever an
  // earlier `*` could still match by absorbing more, the later one can match as well.
  lemma LaterStarSubsumes(pattern: string, p: nat, q: nat, name: string, from: nat, n: nat)
    requires p <= q < |pattern| && pattern[q] == '*' && '*' !in pattern[p..q]
    requires n + 1 == from + (q - p) && n <= |name|
    requires MatchesFrom(pattern, p, name, from)
    ensures Matches(pattern[q..], name[n..])
  {
    var k :| from <= k <= |name| && Matches(pattern[p..], name[k..]);
    PlainStretch(pattern, p, q, name, k);
    var k' := k + (q - p);
    assert name[n..][k' - n..] == name[k'..];
    StarAbsorbs(pattern[q..], name[n..], k' - n);
  }

  // Where the loop stands: the current positions, the last `*` passed and where in the name its
  // next attempt starts (0 before any `*`).
  datatype Scan = Scan(p: nat, n: nat, star: nat, next: nat)

  ghost predicate Positioned(s: Scan, pattern: string, name: string) {
    && s.p <= |pattern| && s.n <= |name| && s.next <= |name| + 1
    && (s.next > 0 ==>
          && s.star < |pattern| && pattern[s.star] == '*'
          && (AtRetry(s) || (s.star < s.p && s.n + 1 == s.next + (s.p - s.star - 1) && '*' !in pattern[s.star + 1..s.p])))
  }

  ghost predicate AtRetry(s: Scan) {
    s.next > 0 && s.p == s.star && s.n == s.next
  }

  // What remains to be decided: the rest matches as it stands, or after the last `*` absorbs more.
  ghost predicate StillMatches(s: Scan, pattern: string, name: string)
    requires s.p <= |pattern| && s.n <= |name| && (s.next > 0 ==> s.star < |pattern|)
  {
    || Matches(pattern[s.p..], name[s.n..])
    || (s.next > 0 && MatchesFrom(pattern, s.star + 1, name, s.next))
  }

  // The loop invariant: whether the whole name matches is what remains to be decided.
  ghost predicate Tracks(s: Scan, pattern: string, name: string) {
    Positioned(s, pattern, name) && (Matches(pattern, name) <==> StillMatches(s, pattern, name))
  }

  // A match from n on begins there or later.
  lemma FromHere(pattern: string, p: nat, name: string, n: nat)
    requires p <= |pattern| && n <= |name|
    ensures MatchesFrom(pattern, p, name, n) <==>
            Matches(pattern[p..], name[n..]) || MatchesFrom(pattern, p, name, n + 1)
  {
    hide Matches;
  }

  // At a `*`, only what this `*` can absorb matters.
  lemma StarDecides(s: Scan, pattern: string, name: string)
    requires Positioned(s, pattern, name) && s.p < |pattern| && pattern[s.p] == '*'
    ensures StillMatches(s, pattern, name) <==> MatchesFrom(pattern, s.p + 1, name, s.n)
  {
    hide Matches, MatchesFrom;
    StarMeansSomeSuffix(pattern, s.p, name, s.n);
    if s.next > 0 && MatchesFrom(pattern, s.star + 1, name, s.next) {
      if AtRetry(s) {
        StarMeansSomeSuffix(pattern, s.star, name, s.n);
      } else {
        LaterStarSubsumes(pattern, s.star + 1, s.p, name, s.next, s.n);
      }
    }
  }

  lemma PassStar(s: Scan, pattern: string, name: string)
    requires Tracks(s, pattern, name) && s.p < |pattern| && pattern[s.p] == '*'
    ensures Tracks(Scan(s.p + 1, s.n, s.p, s.n + 1), pattern, name)
  {
    hide Matches, MatchesFrom;
    StarDecides(s, pattern, name);
    FromHere(pattern, s.p + 1, name, s.n);
    assert pattern[s.p + 1..s.p + 1] == "";
  }

  lemma CharacterFits(pattern: string, name: string)
    requires pattern != "" && name != "" && pattern[0] != '*' && (pattern[0] == '?' || pattern[0] == name[0])
    ensures Matches(pattern, name) <==> Matches(pattern[1..], name[1..])
  {
  }

  lemma PassCharacter(s: Scan, pattern: string, name: string)
    requires Tracks(s, pattern, name) && s.p < |pattern| && s.n < |name|
    requires pattern[s.p] != '*' && (pattern[s.p] == '?' || pattern[s.p] == name[s.n])
    ensures Tracks(s.(p := s.p + 1, n := s.n + 1), pattern, name)
  {
    hide Matches, MatchesFrom;
    CharacterFits(pattern[s.p..], name[s.n..]);
    assert pattern[s.p..][1..] == pattern[s.p + 1..] && name[s.n..][1..] == name[s.n + 1..];
    if s.next > 0 {
      assert !AtRetry(s);
      assert pattern[s.star + 1..s.p + 1] == pattern[s.star + 1..s.p] + [pattern[s.p]];
    }
  }

  // The next characters do not fit.
  ghost predicate Stuck(s: Scan, pattern: string, name: string) {
    && s.p <= |pattern| && s.n <= |name| && (s.p < |pattern| || s.n < |name|)
    && (s.p < |pattern| ==>
          pattern[s.p] != '*' && (s.n == |name| || (pattern[s.p] != '?' && pattern[s.p] != name[s.n])))
  }

  lemma Retry(s: Scan, pattern: string, name: string)
    requires Tracks(s, pattern, name) && Stuck(s, pattern, name)
    ensures !(0 < s.next <= |name|) ==> !Matches(pattern, name)
    ensures 0 < s.next <= |name| ==> Tracks(s.(p := s.star, n := s.next), pattern, name)
  {
    assert !Matches(pattern[s.p..], name[s.n..]);
    if 0 < s.next <= |name| {
      StarMeansSomeSuffix(pattern, s.star, name, s.next);
    }
  }

  // Iterations that `restarts` complete attempts can take.
  function Budget(restarts: nat, width: nat): nat {
    if restarts == 0 then 0 else Budget(restarts - 1, width) + width
  }

  // Every restart begins further into the name than the one before.
  ghost predicate Paced(s: Scan, restarts: nat, steps: nat, width: nat) {
    && steps <= Budget(restarts, width) + s.p
    && restarts <= s.n
    && (s.next > 0 ==> restarts <= s.next && (AtRetry(s) || restarts < s.next))
  }

  lemma Start(pattern: string, name: string)
    ensures Tracks(Scan(0, 0, 0, 0), pattern, name)
  {
    assert pattern[0..] == pattern && name[0..] == name;
  }

  lemma Finish(s: Scan, pattern: string, name: string)
    requires Tracks(s, pattern, name) && s.p == |pattern| && s.n == |name|
    ensures Matches(pattern, name)
  {
  }

  // `steps` counts the iterations of the loop.
  method PatternMatchesString(name: string, pattern: string) returns (b: bool, ghost steps: nat)
    ensures b <==> Matches(pattern, name)
    ensures steps <= (|name| + 1) * (|pattern| + 1)
  {
    hide Matches, StillMatches;
    var p, n := 0, 0;
    var patternNext, nameNext := 0, 0;
    ghost var s, restarts, width := Scan(0, 0, 0, 0), 0, |pattern| + 1;
    steps := 0;
    Start(pattern, name);
    while p < |pattern| || n < |name|
      invariant s == Scan(p, n, patternNext, nameNext) && Tracks(s, pattern, name)
      invariant Paced(s, restarts, steps, width)
      decreases |name| - restarts, |pattern| - p
    {
      steps := steps + 1;
      if p < |pattern| {
        if pattern[p] == '*' {
          PassStar(s, pattern, name);
          patternNext, nameNext := p, n + 1;
          p := p + 1;
          s := Scan(p, n, patternNext, nameNext);
          continue;
        } else if n < |name| && (pattern[p] == '?' || name[n] == pattern[p]) {
          PassCharacter(s, pattern, name);
          p, n := p + 1, n + 1;
          s := Scan(p, n, patternNext, nameNext);
          continue;
        }
      }
      Retry(s, pattern, name);
      if 0 < nameNext <= |name| {
        p, n := patternNext, nameNext;
        s, restarts := Scan(p, n, patternNext, nameNext), restarts + 1;
        continue;
      }
      StepBound(steps, restarts, |name|, width);
      return false, steps;
    }
    Finish(s, pattern, name);
    StepBound(steps, restarts, |name|, width);
    return true, steps;
  }

  lemma {:induction false} StepBound(steps: nat, restarts: nat, limit: nat, width: nat)
    requires steps <= Budget(restarts, width) + width && restarts <= limit
    ensures steps <= (limit + 1) * width
  {
    BudgetIsProduct(restarts, width);
    assert restarts * width <= limit * width;
  }

  lemma {:induction false} BudgetIsProduct(restarts: nat, width: nat)
    ensures Budget(restarts, width) == restarts * width
  {
    if restarts > 0 {
      BudgetIsProduct(restarts - 1, width);
    }
  }
}
