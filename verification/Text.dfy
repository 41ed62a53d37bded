/**
 The few string operations of the C++ standard library that the modelled code relies on.
 Positions that the library reports as npos are -1 here.
 */
module Text {

  predicate IsDigit(c: char) { '0' <= c <= '9' }

  predicate IsAlnum(c: char) { IsDigit(c) || 'A' <= c <= 'Z' || 'a' <= c <= 'z' }

  predicate OccursAt(s: string, t: string, i: nat) {
    i + |t| <= |s| && s[i..i + |t|] == t
  }

  // The first occurrence of t in s that starts at `from` or later.
  function Find(s: string, t: string, from: nat): (i: int)
    ensures i != -1 ==> from <= i && OccursAt(s, t, i)
    ensures i != -1 ==> forall k: nat | from <= k < i :: !OccursAt(s, t, k)
    ensures i == -1 ==> forall k: nat | from <= k :: !OccursAt(s, t, k)
    decreases |s| - from
  {
    if |s| < from + |t| then -1
    else if s[from..from + |t|] == t then from
    else Find(s, t, from + 1)
  }

  // The first occurrence of c in s.
  function FindChar(s: string, c: char): (i: int)
    ensures i == -1 ==> c !in s
    ensures i != -1 ==> 0 <= i < |s| && s[i] == c && c !in s[..i]
  {
    if s == "" then -1
    else if s[0] == c then 0
    else
      var i := FindChar(s[1..], c);
      assert i != -1 ==> s[..i + 1] == [s[0]] + s[1..][..i];
      if i == -1 then -1 else i + 1
  }

  lemma {:induction false} FirstChar(s: string, c: char, i: nat)
    requires i < |s| && s[i] == c && c !in s[..i]
    ensures FindChar(s, c) == i
  {
    if i > 0 {
      assert s[..i][0] != c && s[1..][..i - 1] == s[..i][1..];
      FirstChar(s[1..], c, i - 1);
    }
  }

  lemma FindCharBehindPrefix(p: string, s: string, c: char)
    requires c !in p
    ensures FindChar(p + s, c) == if FindChar(s, c) == -1 then -1 else |p| + FindChar(s, c)
  {
    var i := FindChar(s, c);
    if i != -1 {
      assert (p + s)[..|p| + i] == p + s[..i];
      FirstChar(p + s, c, |p| + i);
    }
  }

  // The first position at or after `from` that does not hold c.
  function FindNotChar(s: string, c: char, from: nat): (i: int)
    ensures i == -1 ==> forall k | from <= k < |s| :: s[k] == c
    ensures i != -1 ==> from <= i < |s| && s[i] != c && forall k | from <= k < i :: s[k] == c
    decreases |s| - from
  {
    if |s| <= from then -1 else if s[from] != c then from else FindNotChar(s, c, from + 1)
  }

  ghost predicate Contains(s: string, t: string) {
    exists i: nat :: OccursAt(s, t, i)
  }

  lemma ContainsIffFound(s: string, t: string)
    ensures Contains(s, t) <==> Find(s, t, 0) != -1
  {
    if Find(s, t, 0) == -1 {
      assert forall k: nat | 0 <= k :: !OccursAt(s, t, k);
    }
  }

  lemma ContainsInConcat(a: string, b: string, c: string, t: string)
    requires Contains(b, t)
    ensures Contains(a + b + c, t)
  {
    var i: nat :| OccursAt(b, t, i);
    assert (a + b + c)[|a| + i..|a| + i + |t|] == b[i..i + |t|];
    assert OccursAt(a + b + c, t, |a| + i);
  }

  lemma FirstOccurrence(s: string, t: string, from: nat, i: nat)
    requires from <= i && OccursAt(s, t, i) && forall k: nat | from <= k < i :: !OccursAt(s, t, k)
    ensures Find(s, t, from) == i
  {
  }

  lemma OccursInAgreeing(s: string, s': string, t: string, k: nat)
    requires k + |t| <= |s| && k + |t| <= |s'| && s[..k + |t|] == s'[..k + |t|]
    ensures OccursAt(s, t, k) <==> OccursAt(s', t, k)
  {
    assert s[k..k + |t|] == s[..k + |t|][k..] && s'[k..k + |t|] == s'[..k + |t|][k..];
  }

  lemma ShorterPrefixesAgree(s: string, s': string, m: nat, n: nat)
    requires n <= m <= |s| && m <= |s'| && s[..m] == s'[..m]
    ensures s[..n] == s'[..n]
  {
    assert s[..n] == s[..m][..n];
  }

  lemma FirstInAgreeing(s: string, s': string, t: string, i: nat)
    requires i + |t| <= |s| && i + |t| <= |s'| && s[..i + |t|] == s'[..i + |t|]
    requires OccursAt(s, t, i) && forall k: nat | k < i :: !OccursAt(s, t, k)
    ensures OccursAt(s', t, i) && forall k: nat | k < i :: !OccursAt(s', t, k)
  {
    hide OccursAt;
    OccursInAgreeing(s, s', t, i);
    forall k: nat | k < i
      ensures !OccursAt(s', t, k)
    {
      ShorterPrefixesAgree(s, s', i + |t|, k + |t|);
      OccursInAgreeing(s, s', t, k);
    }
  }

  // Texts that agree up to the end of the first occurrence have the same first occurrence.
  lemma FindInAgreeing(s: string, s': string, t: string, i: nat)
    requires Find(s, t, 0) == i && i + |t| <= |s'| && i + |t| <= |s| && s[..i + |t|] == s'[..i + |t|]
    ensures Find(s', t, 0) == i
  {
    hide Find, OccursAt;
    FirstInAgreeing(s, s', t, i);
    FirstOccurrence(s', t, 0, i);
  }

  lemma OccursInSuffix(s: string, t: string, from: nat, k: nat)
    requires from <= |s|
    ensures OccursAt(s[from..], t, k) <==> OccursAt(s, t, from + k)
  {
    if from + k + |t| <= |s| {
      assert s[from..][k..k + |t|] == s[from + k..from + k + |t|];
    }
  }

  // Searching from a position is searching the suffix.
  lemma FindInSuffix(s: string, t: string, from: nat)
    requires from <= |s|
    ensures Find(s, t, from) == if Find(s[from..], t, 0) == -1 then -1 else Find(s[from..], t, 0) + from
  {
    forall k: nat
      ensures OccursAt(s[from..], t, k) <==> OccursAt(s, t, from + k)
    {
      OccursInSuffix(s, t, from, k);
    }
    var j := Find(s[from..], t, 0);
    if j != -1 {
      assert forall k: nat | from <= k < from + j :: OccursAt(s, t, k) ==> OccursAt(s[from..], t, k - from);
      FirstOccurrence(s, t, from, from + j);
    } else {
      assert forall k: nat | from <= k :: OccursAt(s, t, k) ==> OccursAt(s[from..], t, k - from);
    }
  }
}
