/**
 The Authorizer: appends a credential file name to every `auth-user-pass` directive of a
 configuration file that is not followed by it yet, line by line, leaving comments alone.
 */
module Authorizer {
  import opened Text

  const DIRECTIVE := "auth-user-pass"

  // Who answers "Confirm to append?": the silent build always appends, otherwise the answers are
  // read one after the other, and no more input counts as a refusal.
  datatype Answers = Always | Scripted(answers: seq<bool>) {
    function Ask(): (bool, Answers) {
      match this
      case Always => (true, Always)
      case Scripted(a) => if a == [] then (false, this) else (a[0], Scripted(a[1..]))
    }
  }

  // --------------------------------------------------------------------------
  // What the scan of one line does, as a function of the text still to be scanned
  // --------------------------------------------------------------------------

  // The scan's next find in u: `end` is the position right behind a directive.
  datatype Found =
    | Nothing                  // no directive left
    | Glued(end: nat)          // a longer word that merely starts like the directive
    | Authorized(end: nat)     // the credential already occurs further on
    | Missing(end: nat)

  predicate AlreadyThere(v: string, c: string) {
    var i := Find(v, c, 0);
    i != -1 && i < |v| && v[i] != ' '
  }

  function NextFound(u: string, c: string): (f: Found)
    ensures f != Nothing ==> |DIRECTIVE| <= f.end <= |u| && u[f.end - |DIRECTIVE|..f.end] == DIRECTIVE
    ensures f.Glued? ==> f.end < |u| && IsAlnum(u[f.end])
    ensures (f.Authorized? || f.Missing?) && f.end < |u| ==> !IsAlnum(u[f.end])
    ensures f.Authorized? ==> AlreadyThere(u[f.end..], c)
  {
    var i := Find(u, DIRECTIVE, 0);
    if i == -1 then Nothing
    else
      var end := i + |DIRECTIVE|;
      if end != |u| && IsAlnum(u[end]) then Glued(end)
      else if AlreadyThere(u[end..], c) then Authorized(end)
      else Missing(end)
  }

  function Min(a: nat, b: nat): nat { if a <= b then a else b }

  // Where the scan resumes after a directive it has dealt with without inserting anything.
  function Resume(u: string, c: string, end: nat): (k: nat)
    requires end <= |u|
    ensures end <= k <= |u|
  {
    Min(end + |c| + 1, |u|)
  }

  // The scanned text, the answers left, and where insertions were made: each number counts the
  // original characters since the previous one.
  datatype Scanned = Scanned(text: string, answers: Answers, gaps: seq<nat>) {
    function After(prefix: string, skipped: nat): Scanned {
      Scanned(prefix + text, answers, if gaps == [] then [] else [gaps[0] + skipped] + gaps[1..])
    }
  }

  function Scan(u: string, c: string, answers: Answers): Scanned
    decreases |u|
  {
    match NextFound(u, c)
    case Nothing => Scanned(u, answers, [])
    case Glued(end) => Scan(u[end..], c, answers).After(u[..end], end)
    case Authorized(end) =>
      var k := Resume(u, c, end);
      Scan(u[k..], c, answers).After(u[..k], k)
    case Missing(end) =>
      var (yes, rest) := answers.Ask();
      if yes then
        var s := Scan(u[end..], c, rest);
        Scanned(u[..end] + " " + c + s.text, s.answers, [end] + s.gaps)
      else
        var k := Resume(u, c, end);
        Scan(u[k..], c, rest).After(u[..k], k)
  }

  // The scan stopped behind u[..k], whose directive it has not touched.
  ghost predicate ScansOn(u: string, c: string, answers: Answers, k: nat, left: Answers)
  {
    k <= |u| && Scan(u, c, answers) == Scan(u[k..], c, left).After(u[..k], k)
  }

  // The scan inserted behind u[..end].
  ghost predicate ScansInserting(u: string, c: string, answers: Answers, end: nat, left: Answers)
  {
    && end <= |u|
    && var s := Scan(u[end..], c, left);
       Scan(u, c, answers) == Scanned(u[..end] + " " + c + s.text, s.answers, [end] + s.gaps)
  }

  lemma ScanCases(u: string, c: string, answers: Answers)
    ensures var f, ask := NextFound(u, c), answers.Ask();
            && (f.Glued? ==> ScansOn(u, c, answers, f.end, answers))
            && (f.Authorized? ==> ScansOn(u, c, answers, Resume(u, c, f.end), answers))
            && (f.Missing? && !ask.0 ==> ScansOn(u, c, answers, Resume(u, c, f.end), ask.1))
            && (f.Missing? && ask.0 ==> ScansInserting(u, c, answers, f.end, ask.1))
  {
  }

  // --------------------------------------------------------------------------
  // Nothing is lost: deleting what was inserted restores the text
  // --------------------------------------------------------------------------

  // u with `ins` inserted after every gap.
  function Weave(u: string, gaps: seq<nat>, ins: string): string {
    if gaps == [] || gaps[0] > |u| then u
    else u[..gaps[0]] + ins + Weave(u[gaps[0]..], gaps[1..], ins)
  }

  // t without the n characters after every gap.
  function Unweave(t: string, gaps: seq<nat>, n: nat): string {
    if gaps == [] || gaps[0] + n > |t| then t
    else t[..gaps[0]] + Unweave(t[gaps[0] + n..], gaps[1..], n)
  }

  // Every insertion point of u is right behind a directive that is a word of its own.
  ghost predicate BehindDirectives(u: string, gaps: seq<nat>) {
    gaps == []
    || (&& |DIRECTIVE| <= gaps[0] <= |u| && u[gaps[0] - |DIRECTIVE|..gaps[0]] == DIRECTIVE
        && (gaps[0] < |u| ==> !IsAlnum(u[gaps[0]]))
        && BehindDirectives(u[gaps[0]..], gaps[1..]))
  }

  lemma WeaveShifted(u: string, k: nat, s: Scanned, ins: string)
    requires k <= |u| && s.text == Weave(u[k..], s.gaps, ins) && BehindDirectives(u[k..], s.gaps)
    ensures var s' := s.After(u[..k], k); s'.text == Weave(u, s'.gaps, ins) && BehindDirectives(u, s'.gaps)
  {
    if s.gaps == [] {
      assert u[..k] + u[k..] == u;
    } else {
      var g, rest := s.gaps[0], s.gaps[1..];
      assert s.gaps == [g] + rest && k + g <= |u|;
      hide Weave, BehindDirectives;
      WeaveBehindPrefix(u, k, g, rest, ins);
      DirectivesBehindPrefix(u, k, g, rest);
    }
  }

  lemma WeaveBehindPrefix(u: string, k: nat, g: nat, gaps: seq<nat>, ins: string)
    requires k + g <= |u|
    ensures u[..k] + Weave(u[k..], [g] + gaps, ins) == Weave(u, [g + k] + gaps, ins)
  {
    var v, rest := u[k..], Weave(u[k + g..], gaps, ins);
    assert ([g] + gaps)[1..] == gaps && ([g + k] + gaps)[1..] == gaps;
    assert v[g..] == u[k + g..] && u[..k] + v[..g] == u[..k + g];
    assert u[..k] + (v[..g] + ins + rest) == u[..k + g] + ins + rest;
  }

  lemma DirectivesUnfold(u: string, g: nat, gaps: seq<nat>)
    ensures BehindDirectives(u, [g] + gaps) <==>
            && |DIRECTIVE| <= g <= |u| && u[g - |DIRECTIVE|..g] == DIRECTIVE
            && (g < |u| ==> !IsAlnum(u[g])) && BehindDirectives(u[g..], gaps)
  {
    assert ([g] + gaps)[1..] == gaps;
  }

  lemma DirectivesBehindPrefix(u: string, k: nat, g: nat, gaps: seq<nat>)
    requires k <= |u| && BehindDirectives(u[k..], [g] + gaps)
    ensures BehindDirectives(u, [g + k] + gaps)
  {
    hide BehindDirectives;
    DirectivesUnfold(u[k..], g, gaps);
    DirectivesUnfold(u, g + k, gaps);
    SliceOfSuffix(u, k, g - |DIRECTIVE|, g);
    assert u[k..][g..] == u[k + g..];
  }

  lemma SliceOfSuffix(u: string, k: nat, from: nat, to: nat)
    requires k <= |u| && from <= to <= |u| - k
    ensures u[k..][from..to] == u[k + from..k + to]
  {
  }

  lemma WeaveInserted(u: string, end: nat, s: Scanned, ins: string)
    requires |DIRECTIVE| <= end <= |u| && u[end - |DIRECTIVE|..end] == DIRECTIVE && (end < |u| ==> !IsAlnum(u[end]))
    requires s.text == Weave(u[end..], s.gaps, ins) && BehindDirectives(u[end..], s.gaps)
    ensures u[..end] + ins + s.text == Weave(u, [end] + s.gaps, ins) && BehindDirectives(u, [end] + s.gaps)
  {
    assert ([end] + s.gaps)[1..] == s.gaps;
  }

  lemma {:induction false} ScanOnlyInserts(u: string, c: string, answers: Answers)
    ensures var s := Scan(u, c, answers); s.text == Weave(u, s.gaps, " " + c) && BehindDirectives(u, s.gaps)
    decreases |u|, 1
  {
    hide Weave, BehindDirectives, NextFound, Scan;
    var ins := " " + c;
    WeaveNothing(u, ins);
    ScanCases(u, c, answers);
    match NextFound(u, c) {
      case Nothing =>
        ScanOfNothing(u, c, answers);
      case Glued(end) =>
        PassedOnlyInserts(u, c, answers, end, ins);
      case Authorized(end) =>
        PassedOnlyInserts(u, c, answers, Resume(u, c, end), ins);
      case Missing(end) =>
        var (yes, rest) := answers.Ask();
        if yes {
          ScanOnlyInserts(u[end..], c, rest);
          WeaveInserted(u, end, Scan(u[end..], c, rest), ins);
          assert u[..end] + ins == u[..end] + " " + c;
        } else {
          PassedOnlyInserts(u, c, rest, Resume(u, c, end), ins);
        }
    }
  }

  lemma WeaveNothing(u: string, ins: string)
    ensures Weave(u, [], ins) == u && BehindDirectives(u, [])
  {
  }

  lemma ScanOfNothing(u: string, c: string, answers: Answers)
    requires NextFound(u, c) == Nothing
    ensures Scan(u, c, answers) == Scanned(u, answers, [])
  {
  }

  lemma {:induction false} PassedOnlyInserts(u: string, c: string, answers: Answers, k: nat, ins: string)
    requires 0 < k <= |u| && ins == " " + c
    ensures var s := Scan(u[k..], c, answers).After(u[..k], k);
            s.text == Weave(u, s.gaps, ins) && BehindDirectives(u, s.gaps)
    decreases |u|, 0
  {
    hide Weave, BehindDirectives, Scan;
    ScanOnlyInserts(u[k..], c, answers);
    WeaveShifted(u, k, Scan(u[k..], c, answers), ins);
  }

  // Taking the insertions out again leaves u, and what follows it.
  lemma {:induction false} WeaveBefore(u: string, tail: string, gaps: seq<nat>, ins: string)
    requires BehindDirectives(u, gaps)
    ensures Unweave(Weave(u, gaps, ins) + tail, gaps, |ins|) == u + tail
  {
    hide Weave, Unweave, BehindDirectives;
    if gaps == [] {
      WeaveNothing(u, ins);
      UnweaveNothing(u + tail, |ins|);
    } else {
      FirstInsertion(u, gaps, ins);
      var g, v := gaps[0], u[gaps[0]..];
      var rest := Weave(v, gaps[1..], ins);
      WeaveBefore(v, tail, gaps[1..], ins);
      UnweaveStep(u[..g], ins, rest + tail, gaps);
      assert u[..g] + ins + rest + tail == u[..g] + ins + (rest + tail);
      assert u[..g] + (v + tail) == u + tail;
    }
  }

  lemma FirstInsertion(u: string, gaps: seq<nat>, ins: string)
    requires gaps != [] && BehindDirectives(u, gaps)
    ensures 0 < gaps[0] <= |u| && BehindDirectives(u[gaps[0]..], gaps[1..])
    ensures Weave(u, gaps, ins) == u[..gaps[0]] + ins + Weave(u[gaps[0]..], gaps[1..], ins)
  {
  }

  lemma UnweaveNothing(t: string, n: nat)
    ensures Unweave(t, [], n) == t
  {
  }

  lemma UnweaveStep(front: string, ins: string, rest: string, gaps: seq<nat>)
    requires gaps != [] && gaps[0] == |front|
    ensures Unweave(front + ins + rest, gaps, |ins|) == front + Unweave(rest, gaps[1..], |ins|)
  {
    var t := front + ins + rest;
    assert t[..|front|] == front && t[|front| + |ins|..] == rest;
  }

  lemma UnweaveRestores(u: string, gaps: seq<nat>, ins: string)
    requires BehindDirectives(u, gaps)
    ensures Unweave(Weave(u, gaps, ins), gaps, |ins|) == u
  {
    WeaveBefore(u, "", gaps, ins);
    assert Weave(u, gaps, ins) + "" == Weave(u, gaps, ins) && u + "" == u;
  }

  // Deleting the inserted copies restores the line, whatever was answered.
  lemma ScanIsReversible(u: string, c: string, answers: Answers)
    ensures var s := Scan(u, c, answers); Unweave(s.text, s.gaps, |c| + 1) == u
    ensures |Scan(u, c, answers).text| == |u| + |Scan(u, c, answers).gaps| * (|c| + 1)
  {
    ScanOnlyInserts(u, c, answers);
    UnweaveRestores(u, Scan(u, c, answers).gaps, " " + c);
    WeaveLength(u, Scan(u, c, answers).gaps, " " + c);
  }

  lemma {:induction false} WeaveLength(u: string, gaps: seq<nat>, ins: string)
    requires BehindDirectives(u, gaps)
    ensures |Weave(u, gaps, ins)| == |u| + |gaps| * |ins|
  {
    if gaps != [] {
      WeaveLength(u[gaps[0]..], gaps[1..], ins);
      assert |gaps| * |ins| == |gaps[1..]| * |ins| + |ins|;
    }
  }

  // --------------------------------------------------------------------------
  // What is done about the first directive of a text
  // --------------------------------------------------------------------------

  // The credential counts as present when it occurs and does not begin with a space; the empty one
  // when anything but a space comes next.
  ghost predicate Present(v: string, c: string) {
    if c == "" then v != "" && v[0] != ' '
    else c[0] != ' ' && exists i: nat :: OccursAt(v, c, i)
  }

  lemma AlreadyThereIff(v: string, c: string)
    ensures AlreadyThere(v, c) <==> Present(v, c)
  {
    if c == "" {
      assert OccursAt(v, c, 0);
    } else {
      ContainsIffFound(v, c);
    }
  }

  lemma NoDirective(u: string, c: string, answers: Answers)
    requires forall k: nat :: !OccursAt(u, "auth-user-pass", k)
    ensures Scan(u, c, answers) == Scanned(u, answers, [])
  {
  }

  // p ends where the first directive of p + "auth-user-pass" + v begins.
  ghost predicate FirstDirective(p: string, v: string) {
    forall k: nat | k < |p| :: !OccursAt(p + "auth-user-pass" + v, "auth-user-pass", k)
  }

  lemma FirstIsFound(p: string, v: string, c: string)
    requires FirstDirective(p, v)
    ensures var u, end := p + "auth-user-pass" + v, |p| + 14;
            && u[..end] == p + "auth-user-pass" && u[end..] == v
            && NextFound(u, c) == if v != "" && IsAlnum(v[0]) then Glued(end)
                                  else if Present(v, c) then Authorized(end)
                                  else Missing(end)
  {
    hide Find, AlreadyThere, Present;
    var u, end := p + "auth-user-pass" + v, |p| + 14;
    assert u[|p|..end] == "auth-user-pass" && u[end..] == v && u[..end] == p + "auth-user-pass";
    FirstOccurrence(u, DIRECTIVE, 0, |p|);
    AlreadyThereIff(v, c);
  }

  // A longer word is passed over.  If the credential is present, or appending it is refused, the scan
  // goes on |c| + 1 characters later; otherwise the credential is inserted and the scan goes on
  // right behind it.  Without an answer there is no insertion.
  lemma FirstDirectiveIsScanned(p: string, v: string, c: string, answers: Answers)
    requires FirstDirective(p, v)
    ensures IsScanned(p + "auth-user-pass", v, c, answers)
  {
    hide Scan, NextFound, Present, FirstDirective, IsScanned;
    FirstIsFound(p, v, c);
    FoundIsScanned(p + "auth-user-pass", v, c, answers);
  }

  ghost predicate IsScanned(d: string, v: string, c: string, answers: Answers) {
    var present := Present(v, c);
    var word := v != "" && ('0' <= v[0] <= '9' || 'A' <= v[0] <= 'Z' || 'a' <= v[0] <= 'z');
    if word then Scan(d + v, c, answers) == Scan(v, c, answers).After(d, |d|)
    else if present || answers == Scripted([]) then PassesOver(d, v, c, answers, answers)
    else
      match answers
      case Always => InsertsAfter(d, v, c, answers, Always)
      case Scripted(a) =>
        if a[0] then InsertsAfter(d, v, c, answers, Scripted(a[1..])) else PassesOver(d, v, c, answers, Scripted(a[1..]))
  }

  ghost predicate PassesOver(d: string, v: string, c: string, answers: Answers, left: Answers) {
    var k := if |c| < |v| then |c| + 1 else |v|;
    Scan(d + v, c, answers) == Scan(v[k..], c, left).After(d + v[..k], |d| + k)
  }

  ghost predicate InsertsAfter(d: string, v: string, c: string, answers: Answers, left: Answers) {
    var s := Scan(v, c, left);
    Scan(d + v, c, answers) == Scanned(d + " " + c + s.text, s.answers, [|d|] + s.gaps)
  }

  lemma FoundIsScanned(d: string, v: string, c: string, answers: Answers)
    requires NextFound(d + v, c) == if v != "" && IsAlnum(v[0]) then Glued(|d|)
                                    else if Present(v, c) then Authorized(|d|)
                                    else Missing(|d|)
    ensures IsScanned(d, v, c, answers)
  {
    hide Scan, NextFound, Present, ScansOn, ScansInserting, Resume, PassesOver, InsertsAfter;
    ScanCases(d + v, c, answers);
    var left := answers.Ask().1;
    ScansBehind(d, v, c, answers, 0, answers);
    ResumesBehind(d, v, c, answers, answers);
    ResumesBehind(d, v, c, answers, left);
    InsertsBehind(d, v, c, answers, left);
  }

  lemma ScansBehind(d: string, v: string, c: string, answers: Answers, k: nat, left: Answers)
    requires k <= |v|
    ensures ScansOn(d + v, c, answers, |d| + k, left) ==>
              Scan(d + v, c, answers) == Scan(v[k..], c, left).After(d + v[..k], |d| + k)
    ensures v[0..] == v && d + v[..0] == d
  {
    hide Scan;
    var u := d + v;
    assert u[..|d| + k] == d + v[..k] && u[|d| + k..] == v[k..];
  }

  lemma InsertsBehind(d: string, v: string, c: string, answers: Answers, left: Answers)
    ensures ScansInserting(d + v, c, answers, |d|, left) ==> InsertsAfter(d, v, c, answers, left)
  {
    hide Scan;
    assert (d + v)[..|d|] == d && (d + v)[|d|..] == v;
  }

  lemma ResumesBehind(d: string, v: string, c: string, answers: Answers, left: Answers)
    ensures ScansOn(d + v, c, answers, Resume(d + v, c, |d|), left) ==> PassesOver(d, v, c, answers, left)
  {
    hide Scan, ScansOn;
    ScansBehind(d, v, c, answers, if |c| < |v| then |c| + 1 else |v|, left);
  }

  // --------------------------------------------------------------------------
  // Answers are used up in order
  // --------------------------------------------------------------------------

  function Yes(a: seq<bool>): nat {
    if a == [] then 0 else (if a[0] then 1 else 0) + Yes(a[1..])
  }

  lemma YesMore(a: seq<bool>, n: nat)
    requires 0 < n <= |a|
    ensures Yes(a[..n]) == (if a[0] then 1 else 0) + Yes(a[1..][..n - 1])
    ensures a[1..][n - 1..] == a[n..]
  {
    assert a[..n][1..] == a[1..][..n - 1];
  }

  // Of the answers, the scan uses the first n, and it inserts once for each yes among them.
  lemma {:induction false} AnswersInOrder(u: string, c: string, a: seq<bool>) returns (n: nat)
    ensures n <= |a| && Scan(u, c, Scripted(a)).answers == Scripted(a[n..])
    ensures |Scan(u, c, Scripted(a)).gaps| == Yes(a[..n])
    decreases |u|
  {
    hide NextFound, Scan;
    var answers := Scripted(a);
    n := 0;
    assert a[0..] == a;
    ScanCases(u, c, answers);
    match NextFound(u, c) {
      case Nothing =>
        ScanOfNothing(u, c, answers);
      case Glued(end) =>
        n := AnswersInOrder(u[end..], c, a);
      case Authorized(end) =>
        n := AnswersInOrder(u[Resume(u, c, end)..], c, a);
      case Missing(end) =>
        var k := if a != [] && a[0] then end else Resume(u, c, end);
        n := AnswersInOrder(u[k..], c, if a == [] then a else a[1..]);
        if a != [] {
          n := n + 1;
          YesMore(a, n);
        }
    }
  }

  // --------------------------------------------------------------------------
  // A second scan finds nothing to do
  // --------------------------------------------------------------------------

  // The text after a scan in which every append is confirmed.
  function Rewritten(u: string, c: string): string {
    Scan(u, c, Always).text
  }

  lemma RewrittenCases(u: string, c: string)
    ensures match NextFound(u, c)
            case Nothing => Rewritten(u, c) == u
            case Glued(end) => Rewritten(u, c) == u[..end] + Rewritten(u[end..], c)
            case Authorized(end) => Rewritten(u, c) == u[..Resume(u, c, end)] + Rewritten(u[Resume(u, c, end)..], c)
            case Missing(end) => Rewritten(u, c) == u[..end] + " " + c + Rewritten(u[end..], c)
  {
  }

  // The scan would pass over all of t.
  ghost predicate Settled(t: string, c: string)
    decreases |t|
  {
    match NextFound(t, c)
    case Nothing => true
    case Glued(end) => Settled(t[end..], c)
    case Authorized(end) => Settled(t[Resume(t, c, end)..], c)
    case Missing(_) => false
  }

  // Then it changes nothing and asks nothing, whatever the answers would be.
  lemma {:induction false} SettledIsUnchanged(t: string, c: string, answers: Answers)
    requires Settled(t, c)
    ensures Scan(t, c, answers) == Scanned(t, answers, [])
    decreases |t|
  {
    hide NextFound;
    match NextFound(t, c) {
      case Nothing =>
      case Glued(end) =>
        SettledIsUnchanged(t[end..], c, answers);
      case Authorized(end) =>
        SettledIsUnchanged(t[Resume(t, c, end)..], c, answers);
    }
  }

  ghost predicate PlainStart(c: string) { c != "" && c[0] != ' ' }

  // For such credentials, "already there" means that the credential occurs.
  lemma AlreadyThereIffContains(v: string, c: string)
    requires PlainStart(c)
    ensures AlreadyThere(v, c) <==> Contains(v, c)
  {
    ContainsIffFound(v, c);
  }

  lemma {:induction false} RewrittenKeepsFirst(u: string, c: string)
    ensures |Rewritten(u, c)| >= |u| && (u != "" ==> Rewritten(u, c)[0] == u[0])
    decreases |u|
  {
    RewrittenCases(u, c);
    hide Scan, NextFound, Rewritten;
    match NextFound(u, c) {
      case Nothing =>
      case Glued(end) => RewrittenKeepsFirst(u[end..], c);
      case Authorized(end) => RewrittenKeepsFirst(u[Resume(u, c, end)..], c);
      case Missing(end) => RewrittenKeepsFirst(u[end..], c);
    }
  }

  lemma ContainsAtEnd(a: string, b: string, t: string)
    requires Contains(b, t)
    ensures Contains(a + b, t)
  {
    ContainsInConcat(a, b, "", t);
    assert a + b + "" == a + b;
  }

  lemma ContainsItself(a: string, t: string, b: string)
    ensures Contains(a + t + b, t)
  {
    assert OccursAt(t, t, 0);
    ContainsInConcat(a, t, b, t);
  }

  // A text that agrees with u up to the end of the next directive has its next directive there.
  lemma FoundInAgreeing(u: string, t: string, c: string, end: nat)
    requires NextFound(u, c) != Nothing && NextFound(u, c).end == end
    requires end <= |t| && t[..end] == u[..end]
    ensures NextFound(t, c) ==
            if end != |t| && IsAlnum(t[end]) then Glued(end)
            else if AlreadyThere(t[end..], c) then Authorized(end)
            else Missing(end)
  {
    hide Find, AlreadyThere;
    FindInAgreeing(u, t, DIRECTIVE, end - |DIRECTIVE|);
  }

  // --------------------------------------------------------------------------
  // Whole files
  // --------------------------------------------------------------------------

  // The first line, with its newline if it has one, and what follows it.
  function FirstLine(text: string): string {
    var i := FindChar(text, '\n');
    if i == -1 then text else text[..i + 1]
  }

  function OtherLines(text: string): string {
    text[|FirstLine(text)|..]
  }

  predicate IsLastLine(text: string) { '\n' !in text }

  // The part of a line before its comment, and the comment.
  function Head(line: string): (h: string)
    ensures '#' !in h && |h| <= |line| && line[..|h|] == h
  {
    var i := FindChar(line, '#');
    if i == -1 then line else line[..i]
  }

  function Comment(line: string): (comment: string)
    ensures Head(line) + comment == line && (comment == "" || comment[0] == '#')
  {
    line[|Head(line)|..]
  }

  function SplitLines(text: string): (lines: seq<string>)
    ensures lines != []
    decreases |text|
  {
    if IsLastLine(text) then [text]
    else
      FirstLineIsNonempty(text);
      [FirstLine(text)] + SplitLines(OtherLines(text))
  }

  function Join(lines: seq<string>): string {
    if lines == [] then "" else lines[0] + Join(lines[1..])
  }

  lemma FirstLineIsNonempty(text: string)
    ensures FirstLine(text) + OtherLines(text) == text
    ensures !IsLastLine(text) ==> FirstLine(text) != "" && FirstLine(text)[|FirstLine(text)| - 1] == '\n'
    ensures FirstLine(text) != "" ==> '\n' !in FirstLine(text)[..|FirstLine(text)| - 1]
    ensures IsLastLine(text) ==> FirstLine(text) == text && OtherLines(text) == ""
  {
    var i := FindChar(text, '\n');
    if i != -1 {
      assert FirstLine(text)[..i] == text[..i];
    }
  }

  // One step of splitting, and of joining.
  lemma SplitStep(text: string)
    ensures SplitLines(text) ==
            if IsLastLine(text) then [text] else [FirstLine(text)] + SplitLines(OtherLines(text))
  {
    hide FirstLine, OtherLines;
  }

  lemma JoinStep(line: string, others: seq<string>)
    ensures Join([line] + others) == line + Join(others) && Join([]) == ""
  {
    assert ([line] + others)[1..] == others;
  }

  lemma {:induction false} JoinSplitLines(text: string)
    ensures Join(SplitLines(text)) == text
    decreases |text|
  {
    hide SplitLines, Join, FirstLine, OtherLines;
    FirstLineIsNonempty(text);
    SplitStep(text);
    if IsLastLine(text) {
      assert [text] + [] == [text];
      JoinStep(text, []);
    } else {
      assert |OtherLines(text)| == |text| - |FirstLine(text)|;
      JoinSplitLines(OtherLines(text));
      JoinStep(FirstLine(text), SplitLines(OtherLines(text)));
    }
  }

  // One line, and all lines in order, each scan taking over the remaining answers.
  function RewriteLine(line: string, c: string, answers: Answers): (string, Answers) {
    var s := Scan(Head(line), c, answers);
    (s.text + Comment(line), s.answers)
  }

  function RewriteLines(lines: seq<string>, c: string, answers: Answers): (seq<string>, Answers) {
    if lines == [] then ([], answers)
    else
      var (line, rest) := RewriteLine(lines[0], c, answers);
      var (others, left) := RewriteLines(lines[1..], c, rest);
      ([line] + others, left)
  }

  lemma RewriteNone(c: string, answers: Answers)
    ensures RewriteLines([], c, answers) == ([], answers)
  {
  }

  lemma RewriteStep(line: string, others: seq<string>, c: string, answers: Answers)
    ensures var (first, rest) := RewriteLine(line, c, answers);
            RewriteLines([line] + others, c, answers) ==
            ([first] + RewriteLines(others, c, rest).0, RewriteLines(others, c, rest).1)
  {
    hide RewriteLine;
    assert ([line] + others)[1..] == others;
  }

  // The file that a run leaves behind.
  function RewriteFile(text: string, c: string, answers: Answers): string {
    Join(RewriteLines(SplitLines(text), c, answers).0)
  }

  // Where each line of a run got its insertions.
  function Insertions(lines: seq<string>, c: string, answers: Answers): (gaps: seq<seq<nat>>)
    ensures |gaps| == |lines|
  {
    if lines == [] then []
    else [Scan(Head(lines[0]), c, answers).gaps] + Insertions(lines[1..], c, RewriteLine(lines[0], c, answers).1)
  }

  // The lines without the n characters that were inserted at each of these places.
  function UnweaveLines(lines: seq<string>, gaps: seq<seq<nat>>, n: nat): seq<string>
    requires |lines| == |gaps|
  {
    if lines == [] then [] else [Unweave(lines[0], gaps[0], n)] + UnweaveLines(lines[1..], gaps[1..], n)
  }

  // The line without its insertions is the old one, which was shorter if there are any.
  lemma LineIsReversible(line: string, c: string, answers: Answers)
    ensures var gaps := Scan(Head(line), c, answers).gaps;
            && Unweave(RewriteLine(line, c, answers).0, gaps, |c| + 1) == line
            && |RewriteLine(line, c, answers).0| == |line| + |gaps| * (|c| + 1)
            && (gaps == [] ==> RewriteLine(line, c, answers).0 == line)
  {
    hide Scan, Head, Weave, Unweave, BehindDirectives;
    var gaps := Scan(Head(line), c, answers).gaps;
    ScanOnlyInserts(Head(line), c, answers);
    WeaveBefore(Head(line), Comment(line), gaps, " " + c);
    WeaveLength(Head(line), gaps, " " + c);
    WeaveNothing(Head(line), " " + c);
  }

  lemma {:induction false} LinesAreReversible(lines: seq<string>, c: string, answers: Answers)
    ensures var done, gaps := RewriteLines(lines, c, answers).0, Insertions(lines, c, answers);
            |done| == |lines| && UnweaveLines(done, gaps, |c| + 1) == lines
  {
    hide RewriteLine, RewriteLines, Unweave, Scan, Head;
    RewriteNone(c, answers);
    if lines != [] {
      var line, others := lines[0], lines[1..];
      var (first, rest) := RewriteLine(line, c, answers);
      assert lines == [line] + others;
      RewriteStep(line, others, c, answers);
      LineIsReversible(line, c, answers);
      LinesAreReversible(others, c, rest);
      var done, gaps := RewriteLines(others, c, rest).0, Insertions(others, c, rest);
      assert ([first] + done)[1..] == done;
      assert ([Scan(Head(line), c, answers).gaps] + gaps)[1..] == gaps;
    }
  }

  // Removing from each line of the output what was inserted there, and joining, gives the file back.
  lemma FileIsReversible(text: string, c: string, answers: Answers)
    ensures var lines := SplitLines(text);
            var done := RewriteLines(lines, c, answers).0;
            && |done| == |lines| && Join(done) == RewriteFile(text, c, answers)
            && Join(UnweaveLines(done, Insertions(lines, c, answers), |c| + 1)) == text
  {
    LinesAreReversible(SplitLines(text), c, answers);
    JoinSplitLines(text);
  }

  // Every line but the last ends with its only newline; the last one has none.
  lemma {:induction false} LinesEndInNewline(text: string)
    ensures var lines := SplitLines(text);
            && '\n' !in lines[|lines| - 1]
            && forall i | 0 <= i < |lines| - 1 ::
                 lines[i] != "" && lines[i][|lines[i]| - 1] == '\n' && '\n' !in lines[i][..|lines[i]| - 1]
    decreases |text|
  {
    hide SplitLines, FirstLine, OtherLines;
    FirstLineIsNonempty(text);
    SplitStep(text);
    if !IsLastLine(text) {
      assert |OtherLines(text)| == |text| - |FirstLine(text)|;
      LinesEndInNewline(OtherLines(text));
    }
  }

  // A run uses up the answers in order and makes the file longer by one insertion for each yes.
  lemma {:induction false} RunUsesAnswers(lines: seq<string>, c: string, a: seq<bool>) returns (n: nat)
    ensures n <= |a| && RewriteLines(lines, c, Scripted(a)).1 == Scripted(a[n..])
    ensures |Join(RewriteLines(lines, c, Scripted(a)).0)| == |Join(lines)| + Yes(a[..n]) * (|c| + 1)
    ensures Yes(a[..n]) == 0 ==> RewriteLines(lines, c, Scripted(a)).0 == lines
  {
    hide RewriteLine, RewriteLines, Join, Scan, Head, Unweave, Yes;
    RewriteNone(c, Scripted(a));
    if lines == [] {
      NoYes(a[..0]);
      assert a[0..] == a;
      return 0;
    }
    var line, others := lines[0], lines[1..];
    assert lines == [line] + others;
    var m := LineUsesAnswers(line, c, a);
    var k := RunUsesAnswers(others, c, a[m..]);
    RewriteStep(line, others, c, Scripted(a));
    JoinStep(line, others);
    JoinStep(RewriteLine(line, c, Scripted(a)).0, RewriteLines(others, c, Scripted(a[m..])).0);
    YesSplit(a, m, k);
    Distribute(Yes(a[..m]), Yes(a[m..][..k]), |c| + 1);
    n := m + k;
  }

  lemma LineUsesAnswers(line: string, c: string, a: seq<bool>) returns (n: nat)
    ensures n <= |a| && RewriteLine(line, c, Scripted(a)).1 == Scripted(a[n..])
    ensures |RewriteLine(line, c, Scripted(a)).0| == |line| + Yes(a[..n]) * (|c| + 1)
    ensures Yes(a[..n]) == 0 ==> RewriteLine(line, c, Scripted(a)).0 == line
  {
    n := AnswersInOrder(Head(line), c, a);
    hide Scan, Head, Unweave;
    LineIsReversible(line, c, Scripted(a));
  }

  lemma {:induction false} YesSplit(a: seq<bool>, m: nat, k: nat)
    requires m <= |a| && k <= |a| - m
    ensures Yes(a[..m + k]) == Yes(a[..m]) + Yes(a[m..][..k]) && a[m..][k..] == a[m + k..]
    decreases m
  {
    if m == 0 {
      assert a[0..] == a;
    } else {
      hide Yes;
      YesSplit(a[1..], m - 1, k);
      YesMore(a, m);
      YesMore(a, m + k);
    }
  }

  lemma Distribute(a: nat, b: nat, n: nat)
    ensures (a + b) * n == a * n + b * n
  {
  }

  // No answer at all counts as a refusal.
  lemma RefusedRunChangesNothing(text: string, c: string, a: seq<bool>)
    requires forall i | 0 <= i < |a| :: !a[i]
    ensures RewriteFile(text, c, Scripted(a)) == text
  {
    hide RewriteLines, SplitLines;
    var n := RunUsesAnswers(SplitLines(text), c, a);
    NoYes(a[..n]);
    JoinSplitLines(text);
  }

  lemma {:induction false} NoYes(a: seq<bool>)
    requires forall i | 0 <= i < |a| :: !a[i]
    ensures Yes(a) == 0
  {
    if a != [] {
      NoYes(a[1..]);
    }
  }

  // A run leaves all lines alone or makes the file longer.
  lemma {:induction false} LinesGrow(lines: seq<string>, c: string, answers: Answers)
    ensures var done := RewriteLines(lines, c, answers).0;
            |Join(done)| >= |Join(lines)| && (done != lines ==> |Join(done)| > |Join(lines)|)
  {
    hide RewriteLine, RewriteLines, Join, Scan, Head;
    RewriteNone(c, answers);
    if lines != [] {
      var line, others := lines[0], lines[1..];
      var (first, rest) := RewriteLine(line, c, answers);
      assert lines == [line] + others;
      RewriteStep(line, others, c, answers);
      LineGrows(line, c, answers);
      LinesGrow(others, c, rest);
      JoinStep(line, others);
      JoinStep(first, RewriteLines(others, c, rest).0);
    }
  }

  lemma LineGrows(line: string, c: string, answers: Answers)
    ensures var first, gaps := RewriteLine(line, c, answers).0, Scan(Head(line), c, answers).gaps;
            |first| >= |line| && (gaps == [] <==> first == line) && (first != line ==> |first| > |line|)
  {
    hide Scan, Head, RewriteLine, Unweave;
    var gaps := Scan(Head(line), c, answers).gaps;
    LineIsReversible(line, c, answers);
    if gaps != [] {
      Positive(|gaps|, |c| + 1);
    }
  }

  lemma Positive(a: nat, b: nat)
    requires a > 0 && b > 0
    ensures a * b > 0
  {
  }

  // The head of the first line is settled, and so are those of all other lines.
  ghost predicate AllSettled(text: string, c: string)
    decreases |text|, 1
  {
    FirstLineIsNonempty(text);
    Settled(Head(FirstLine(text)), c) && OthersSettled(text, c)
  }

  ghost predicate OthersSettled(text: string, c: string)
    decreases |text|, 0
  {
    FirstLineIsNonempty(text);
    IsLastLine(text) || AllSettled(OtherLines(text), c)
  }

  // A prefix without newline and comment sign just extends the first line's head.
  lemma LinesBehindPrefix(p: string, g: string, c: string)
    requires '\n' !in p && '#' !in p
    ensures Head(FirstLine(p + g)) == p + Head(FirstLine(g))
    ensures OthersSettled(p + g, c) <==> OthersSettled(g, c)
  {
    FindCharBehindPrefix(p, g, '\n');
    hide FindChar;
    assert FirstLine(p + g) == p + FirstLine(g);
    assert OtherLines(p + g) == OtherLines(g);
    HeadBehindPrefix(p, FirstLine(g));
  }

  lemma HeadBehindPrefix(p: string, line: string)
    requires '#' !in p
    ensures Head(p + line) == p + Head(line)
  {
    FindCharBehindPrefix(p, line, '#');
    hide FindChar;
  }

  // A text without comment sign that ends a line, or is followed by a comment or nothing, is the
  // head of the first line.
  ghost predicate EndsLine(v: string) { v != "" && v[|v| - 1] == '\n' }

  ghost predicate OneLine(v: string) {
    '#' !in v && (v != "" ==> '\n' !in v[..|v| - 1])
  }

  // What may follow v: the next lines, or else the rest of v's line.
  ghost predicate TailFits(v: string, tail: string, c: string) {
    if EndsLine(v) then AllSettled(tail, c)
    else (tail == "" || tail[0] == '#') && OthersSettled(tail, c)
  }

  lemma HeadIsAll(v: string, tail: string, c: string)
    requires OneLine(v) && TailFits(v, tail, c)
    ensures Head(FirstLine(v + tail)) == v && OthersSettled(v + tail, c)
  {
    if EndsLine(v) {
      assert (v + tail)[|v| - 1] == '\n' && (v + tail)[..|v| - 1] == v[..|v| - 1];
      FirstChar(v + tail, '\n', |v| - 1);
      hide FindChar, AllSettled;
      assert FirstLine(v + tail) == v && OtherLines(v + tail) == tail;
      assert Head(v) == v;
    } else {
      assert v != "" ==> v == v[..|v| - 1] + [v[|v| - 1]];
      hide AllSettled, OthersSettled;
      LinesBehindPrefix(v, tail, c);
      CommentHasNoHead(tail);
    }
  }

  lemma CommentHasNoHead(tail: string)
    requires tail == "" || tail[0] == '#'
    ensures Head(FirstLine(tail)) == ""
  {
    if tail != "" {
      assert FirstLine(tail)[0] == '#';
    }
  }

  // The credentials for which a second run is a no-op.
  ghost predicate Reusable(c: string) {
    PlainStart(c) && OneLine(c)
  }

  // A text p + t, where p is a piece of u up to the directive's end at least, whose scan finds that
  // directive authorized and resumes behind p.
  lemma SettledBehindAuthorized(u: string, p: string, t: string, c: string, end: nat)
    requires PlainStart(c) && NextFound(u, c) != Nothing && NextFound(u, c).end == end
    requires end < |p| && p[..end] == u[..end] && !IsAlnum(p[end])
    requires |p| == Min(end + |c| + 1, |p + t|)
    requires Contains((p + t)[end..], c)
    requires Settled(t, c)
    ensures Settled(p + t, c)
  {
    var whole := p + t;
    assert whole[..end] == u[..end];
    FoundInAgreeing(u, whole, c, end);
    AlreadyThereIffContains(whole[end..], c);
    assert Resume(whole, c, end) == |p| && whole[|p|..] == t;
  }

  lemma SettledBehindGlued(u: string, p: string, t: string, c: string)
    requires NextFound(u, c) == Glued(|p|) && p == u[..|p|]
    requires t != "" && IsAlnum(t[0]) && Settled(t, c)
    ensures Settled(p + t, c)
  {
    var whole := p + t;
    assert whole[..|p|] == p;
    FoundInAgreeing(u, whole, c, |p|);
    assert whole[|p|..] == t;
  }

  lemma AllSettledParts(text: string, c: string)
    ensures AllSettled(text, c) <==> Settled(Head(FirstLine(text)), c) && OthersSettled(text, c)
  {
  }

  lemma AuthorizedIsNotAtEnd(u: string, c: string)
    requires PlainStart(c) && NextFound(u, c).Authorized?
    ensures NextFound(u, c).end < |u| && NextFound(u, c).end < Resume(u, c, NextFound(u, c).end)
  {
  }

  lemma SettledEmpty(c: string)
    ensures Settled("", c)
  {
  }

  // Whatever follows on its line and on the next ones, a rewritten text is settled; and if the
  // scan inserted anything, the credential is on the first line that results.
  lemma {:induction false} RewrittenIsSettled(v: string, tail: string, c: string)
    requires Reusable(c) && OneLine(v) && TailFits(v, tail, c)
    ensures AllSettled(Rewritten(v, c) + tail, c)
    ensures Rewritten(v, c) == v || Contains(Head(FirstLine(Rewritten(v, c) + tail)), c)
    decreases |v|, 1
  {
    RewrittenCases(v, c);
    match NextFound(v, c) {
      case Nothing =>
        HeadIsAll(v, tail, c);
      case Glued(end) =>
        GluedIsSettled(v, tail, c, end);
      case Authorized(end) =>
        AuthorizedIsSettled(v, tail, c, end);
      case Missing(end) =>
        MissingIsSettled(v, tail, c, end);
    }
  }

  lemma {:induction false} GluedIsSettled(v: string, tail: string, c: string, end: nat)
    requires Reusable(c) && OneLine(v) && TailFits(v, tail, c) && NextFound(v, c) == Glued(end)
    ensures AllSettled(Rewritten(v, c) + tail, c)
    ensures Rewritten(v, c) == v || Contains(Head(FirstLine(Rewritten(v, c) + tail)), c)
    decreases |v|, 0
  {
    hide Scan, NextFound, Find, FindChar, Contains, Settled, Rewritten, AllSettled, OthersSettled, AlreadyThere,
        FirstLine, Head, TailFits;
    var p, u := v[..end], v[end..];
    OneLineParts(v, tail, c, end);
    RewrittenIsSettled(u, tail, c);
    var w := Rewritten(u, c);
    var g := w + tail;
    RewrittenCases(v, c);
    assert p + w + tail == p + g && p + u == v;
    AllSettledParts(g, c);
    AllSettledParts(p + g, c);
    LinesBehindPrefix(p, g, c);
    RewrittenKeepsFirst(u, c);
    assert g[0] == v[end];
    HeadKeepsFirst(g);
    var t := Head(FirstLine(g));
    SettledBehindGlued(v, p, t, c);
    if w != u {
      ContainsAtEnd(p, t, c);
    }
  }

  lemma {:induction false} MissingIsSettled(v: string, tail: string, c: string, end: nat)
    requires Reusable(c) && OneLine(v) && TailFits(v, tail, c) && NextFound(v, c) == Missing(end)
    ensures AllSettled(Rewritten(v, c) + tail, c)
    ensures Contains(Head(FirstLine(Rewritten(v, c) + tail)), c)
    decreases |v|, 0
  {
    hide Scan, NextFound, Find, FindChar, Contains, Settled, Rewritten, AllSettled, OthersSettled, AlreadyThere,
        FirstLine, Head, TailFits;
    var p, u := v[..end] + " " + c, v[end..];
    OneLineParts(v, tail, c, end);
    RewrittenIsSettled(u, tail, c);
    var w := Rewritten(u, c);
    var g := w + tail;
    RewrittenCases(v, c);
    assert p + w + tail == p + g;
    AllSettledParts(g, c);
    AllSettledParts(p + g, c);
    MissingLine(v, c, end, g);
  }

  // The line that an insertion leaves behind, in front of an already settled rest.
  lemma MissingLine(v: string, c: string, end: nat, g: string)
    requires Reusable(c) && NextFound(v, c) == Missing(end) && OneLine(v[..end]) && !EndsLine(v[..end])
    requires AllSettled(g, c)
    ensures var line := v[..end] + " " + c + g;
            Settled(Head(FirstLine(line)), c) && OthersSettled(line, c) && Contains(Head(FirstLine(line)), c)
  {
    hide Scan, NextFound, Find, FindChar, Contains, Settled, Rewritten, AllSettled, OthersSettled, AlreadyThere,
        FirstLine, Head;
    var q := v[..end] + " ";
    var p := q + c;
    SettledEmpty(c);
    AllSettledParts(g, c);
    if EndsLine(c) {
      TailFitsNewLine(p, g, c);
      HeadIsAll(p, g, c);
      InsertedIsSettled(v, c, end, "");
      assert p + "" == p;
    } else {
      LinesBehindPrefix(p, g, c);
      InsertedIsSettled(v, c, end, Head(FirstLine(g)));
    }
  }

  lemma TailFitsNewLine(p: string, g: string, c: string)
    requires EndsLine(p) && AllSettled(g, c)
    ensures TailFits(p, g, c)
  {
  }

  lemma InsertedIsSettled(v: string, c: string, end: nat, t: string)
    requires PlainStart(c) && NextFound(v, c) == Missing(end) && Settled(t, c)
    ensures Settled(v[..end] + " " + c + t, c) && Contains(v[..end] + " " + c + t, c)
  {
    hide Scan, NextFound, Find, Contains, Settled, AlreadyThere;
    var p := v[..end] + " " + c;
    ContainsItself(v[..end] + " ", c, t);
    ContainsItself(" ", c, t);
    assert (p + t)[end..] == " " + c + t;
    SettledBehindAuthorized(v, p, t, c, end);
  }

  lemma {:induction false} AuthorizedIsSettled(v: string, tail: string, c: string, end: nat)
    requires Reusable(c) && OneLine(v) && TailFits(v, tail, c) && NextFound(v, c) == Authorized(end)
    ensures AllSettled(Rewritten(v, c) + tail, c)
    ensures Rewritten(v, c) == v || Contains(Head(FirstLine(Rewritten(v, c) + tail)), c)
    decreases |v|, 0
  {
    hide Scan, NextFound, Find, FindChar, Contains, Settled, Rewritten, AllSettled, OthersSettled, AlreadyThere,
        FirstLine, Head, TailFits;
    var k := Resume(v, c, end);
    var p, u := v[..k], v[k..];
    AuthorizedIsNotAtEnd(v, c);
    AlreadyThereIffContains(v[end..], c);
    RewrittenCases(v, c);
    var w := Rewritten(u, c);
    assert p + u == v;
    AllSettledParts(p + w + tail, c);
    if k == |v| {
      assert w == "" by { RewrittenCases("", c); NothingInEmpty(c); }
      assert p + "" == p == v;
      HeadIsAll(v, tail, c);
      SettledEmpty(c);
      SettledBehindAuthorized(v, v, "", c, end);
    } else {
      OneLineParts(v, tail, c, k);
      RewrittenIsSettled(u, tail, c);
      var g := w + tail;
      assert p + w + tail == p + g;
      AllSettledParts(g, c);
      LinesBehindPrefix(p, g, c);
      var t := Head(FirstLine(g));
      if w == u {
        HeadIsAll(u, tail, c);
      } else {
        ContainsAtEnd(p, t, c);
        ContainsAtEnd(p[end..], t, c);
        assert (p + t)[end..] == p[end..] + t;
      }
      SettledBehindAuthorized(v, p, t, c, end);
    }
  }

  lemma NothingInEmpty(c: string)
    ensures NextFound("", c) == Nothing
  {
  }

  lemma HeadKeepsFirst(g: string)
    requires g != "" && g[0] != '#'
    ensures Head(FirstLine(g)) != "" && Head(FirstLine(g))[0] == g[0]
  {
    assert FirstLine(g)[0] == g[0];
  }

  // Cutting a line in two: no newline in front, and the same may follow the rest.
  lemma OneLineParts(v: string, tail: string, c: string, k: nat)
    requires OneLine(v) && TailFits(v, tail, c)
    requires k < |v| || (k == |v| && !EndsLine(v))
    ensures OneLine(v[k..]) && TailFits(v[k..], tail, c)
    ensures '\n' !in v[..k] && '#' !in v[..k]
  {
    var u := v[k..];
    if k < |v| {
      assert v[..|v| - 1] == v[..k] + u[..|u| - 1];
    } else if v != "" {
      assert v == v[..|v| - 1] + [v[|v| - 1]];
    }
  }

  // --------------------------------------------------------------------------
  // Running twice
  // --------------------------------------------------------------------------

  lemma RewriteFileCases(text: string, c: string, answers: Answers)
    ensures var (line, rest) := RewriteLine(FirstLine(text), c, answers);
            RewriteFile(text, c, answers) ==
            if IsLastLine(text) then line else line + RewriteFile(OtherLines(text), c, rest)
  {
    hide SplitLines, RewriteLines, RewriteLine, Join, FirstLine, OtherLines;
    FirstLineIsNonempty(text);
    SplitStep(text);
    var (line, rest) := RewriteLine(FirstLine(text), c, answers);
    var others := if IsLastLine(text) then [] else SplitLines(OtherLines(text));
    assert SplitLines(text) == [FirstLine(text)] + others;
    RewriteStep(FirstLine(text), others, c, answers);
    RewriteNone(c, rest);
    JoinStep(line, RewriteLines(others, c, rest).0);
  }

  // The lines after a settled one may come from anywhere, as long as they are settled themselves.
  lemma LineIsSettled(line: string, rest: string, c: string)
    requires Reusable(c) && (line != "" ==> '\n' !in line[..|line| - 1])
    requires if EndsLine(line) then AllSettled(rest, c) else rest == ""
    ensures AllSettled(Rewritten(Head(line), c) + Comment(line) + rest, c)
  {
    hide Scan, NextFound, FindChar, Settled, Rewritten, AllSettled, OthersSettled, FirstLine, Head;
    var h, tail := Head(line), Comment(line) + rest;
    assert Rewritten(h, c) + Comment(line) + rest == Rewritten(h, c) + tail;
    CommentTail(line, rest, c);
    RewrittenIsSettled(h, tail, c);
  }

  lemma CommentTail(line: string, rest: string, c: string)
    requires (line != "" ==> '\n' !in line[..|line| - 1])
    requires if EndsLine(line) then AllSettled(rest, c) else rest == ""
    ensures OneLine(Head(line)) && TailFits(Head(line), Comment(line) + rest, c)
  {
    hide Settled, FindChar, AllSettled, FirstLine;
    var h, comment := Head(line), Comment(line);
    assert h + comment == line;
    if comment == "" {
      assert h == line && comment + rest == rest;
      NoLines(rest, c);
    } else {
      assert h != "" ==> h[..|h| - 1] == line[..|line| - 1][..|h| - 1] && h[|h| - 1] == line[..|line| - 1][|h| - 1];
      assert comment[..|comment| - 1] == line[..|line| - 1][|h|..];
      CommentLine(comment, rest, c);
    }
  }

  lemma NoLines(rest: string, c: string)
    ensures rest == "" ==> OthersSettled(rest, c)
  {
  }

  lemma CommentLine(comment: string, rest: string, c: string)
    requires comment != "" && '\n' !in comment[..|comment| - 1]
    requires if EndsLine(comment) then AllSettled(rest, c) else rest == ""
    ensures OthersSettled(comment + rest, c)
  {
    var text := comment + rest;
    if EndsLine(comment) {
      assert text[..|comment| - 1] == comment[..|comment| - 1];
      FirstChar(text, '\n', |comment| - 1);
      hide AllSettled;
      assert OtherLines(text) == rest;
    } else {
      assert comment == comment[..|comment| - 1] + [comment[|comment| - 1]] && text == comment;
    }
  }

  // After a run with a reusable credential, every line is settled.
  lemma {:induction false} FileIsSettled(text: string, c: string)
    requires Reusable(c)
    ensures AllSettled(RewriteFile(text, c, Always), c)
    decreases |text|
  {
    hide Scan, FindChar, Settled, AllSettled, OthersSettled, FirstLine, Head, RewriteFile, SplitLines;
    RewriteFileCases(text, c, Always);
    FirstLineIsNonempty(text);
    AlwaysStays(Head(FirstLine(text)), c);
    var line := FirstLine(text);
    if IsLastLine(text) {
      assert !EndsLine(line);
      LineIsSettled(line, "", c);
      assert Rewritten(Head(line), c) + Comment(line) + "" == Rewritten(Head(line), c) + Comment(line);
    } else {
      FileIsSettled(OtherLines(text), c);
      LineIsSettled(line, RewriteFile(OtherLines(text), c, Always), c);
    }
  }

  lemma {:induction false} AlwaysStays(u: string, c: string)
    ensures Scan(u, c, Always).answers == Always
    decreases |u|
  {
    hide NextFound;
    match NextFound(u, c) {
      case Nothing =>
      case Glued(end) => AlwaysStays(u[end..], c);
      case Authorized(end) => AlwaysStays(u[Resume(u, c, end)..], c);
      case Missing(end) => AlwaysStays(u[end..], c);
    }
  }

  // A settled file passes through unchanged, and no question is asked.
  lemma {:induction false} SettledFileIsUnchanged(text: string, c: string, answers: Answers)
    requires AllSettled(text, c)
    ensures RewriteLines(SplitLines(text), c, answers) == (SplitLines(text), answers)
    decreases |text|
  {
    FirstLineIsNonempty(text);
    SettledIsUnchanged(Head(FirstLine(text)), c, answers);
    if IsLastLine(text) {
      assert RewriteLine(text, c, answers) == (text, answers);
      var lines := [text];
      assert lines[1..] == [] && RewriteLines(lines[1..], c, answers) == ([], answers);
      assert [text] + lines[1..] == lines;
      assert SplitLines(text) == lines;
    } else {
      SettledFileIsUnchanged(OtherLines(text), c, answers);
      assert ([FirstLine(text)] + SplitLines(OtherLines(text)))[1..] == SplitLines(OtherLines(text));
    }
  }

  lemma {:induction false} FileGrows(text: string, c: string)
    ensures |RewriteFile(text, c, Always)| >= |text|
    decreases |text|
  {
    hide Scan, FindChar, Head, RewriteFile, SplitLines;
    RewriteFileCases(text, c, Always);
    FirstLineIsNonempty(text);
    AlwaysStays(Head(FirstLine(text)), c);
    RewrittenKeepsFirst(Head(FirstLine(text)), c);
    if !IsLastLine(text) {
      FileGrows(OtherLines(text), c);
    }
  }

  // What is left of a credential on a directive's line: up to a comment sign or a newline.
  lemma CutCredentialIsMissing(c: string)
    requires !Reusable(c)
    ensures !AlreadyThere(" " + Head(FirstLine(c)), c)
  {
    var v := " " + Head(FirstLine(c));
    FirstLineIsNonempty(c);
    assert |Head(FirstLine(c))| == |c| ==> Head(FirstLine(c)) == FirstLine(c) == c;
    assert OccursAt(v, c, 0) && |v| == |c| ==> v == c;
  }

  lemma LoneDirectiveIsFound(c: string)
    ensures NextFound(DIRECTIVE, c) == Missing(|DIRECTIVE|)
  {
    FirstOccurrence(DIRECTIVE, DIRECTIVE, 0, 0);
    hide Find, OccursAt;
  }

  lemma NoComment(line: string)
    requires '#' !in line
    ensures Head(line) == line && Comment(line) == ""
  {
  }

  lemma LoneDirective(c: string)
    ensures Rewritten(DIRECTIVE, c) == DIRECTIVE + " " + c
    ensures RewriteFile(DIRECTIVE, c, Always) == DIRECTIVE + " " + c
  {
    hide Scan, Find, FindChar, RewriteFile, SplitLines, NextFound, Head, FirstLine, OtherLines;
    LoneDirectiveIsFound(c);
    assert DIRECTIVE[|DIRECTIVE|..] == "" && DIRECTIVE[..|DIRECTIVE|] == DIRECTIVE;
    RewrittenCases(DIRECTIVE, c);
    NothingInEmpty(c);
    RewrittenCases("", c);
    FirstLineIsNonempty(DIRECTIVE);
    NoComment(DIRECTIVE);
    RewriteFileCases(DIRECTIVE, c, Always);
    AlwaysStays(DIRECTIVE, c);
  }

  // With any other credential, even a lone directive is appended to again and again.
  lemma RunsAreNotIdempotent(c: string)
    requires !Reusable(c)
    ensures RewriteFile("auth-user-pass", c, Always) == "auth-user-pass" + " " + c
    ensures |RewriteFile("auth-user-pass" + " " + c, c, Always)| > |"auth-user-pass" + " " + c|
  {
    hide Scan, Find, FindChar, Head, RewriteFile, SplitLines, FirstLine, OtherLines, NextFound, AlreadyThere;
    LoneDirective(c);
    var text := DIRECTIVE + " " + c;
    FirstLineIsNonempty(text);
    DirectiveLineGrows(c);
    AlwaysStays(Head(FirstLine(text)), c);
    RewriteFileCases(text, c, Always);
    if !IsLastLine(text) {
      FileGrows(OtherLines(text), c);
    }
  }

  lemma DirectiveLineGrows(c: string)
    requires !Reusable(c)
    ensures var h := Head(FirstLine(DIRECTIVE + " " + c)); |Rewritten(h, c)| > |h|
  {
    hide Scan, Find, FindChar, Head, FirstLine, NextFound, AlreadyThere, OthersSettled;
    var p, t := DIRECTIVE + " ", Head(FirstLine(c));
    LinesBehindPrefix(p, c, c);
    var h := p + t;
    CutCredentialIsMissing(c);
    LoneDirectiveIsFound(c);
    assert h[..|DIRECTIVE|] == DIRECTIVE[..|DIRECTIVE|] && h[|DIRECTIVE|..] == " " + t;
    FoundInAgreeing(DIRECTIVE, h, c, |DIRECTIVE|);
    RewrittenCases(h, c);
    RewrittenKeepsFirst(" " + t, c);
  }

  // Exactly when running twice is running once, for all files: the credential is not empty, does
  // not start with a space, has no comment sign, and no newline except possibly at its end.
  lemma IdempotentIffReusable(c: string)
    ensures (forall text :: RewriteFile(RewriteFile(text, c, Always), c, Always) == RewriteFile(text, c, Always))
            <==> Reusable(c)
  {
    hide RewriteFile, AllSettled;
    if Reusable(c) {
      forall text
        ensures RewriteFile(RewriteFile(text, c, Always), c, Always) == RewriteFile(text, c, Always)
      {
        SecondRunIsNoop(text, c, Always);
      }
    } else {
      RunsAreNotIdempotent(c);
    }
  }

  // ... and then the second run asks nothing and changes no line, whatever would be answered.
  lemma SecondRunIsNoop(text: string, c: string, answers: Answers)
    requires Reusable(c)
    ensures var once := RewriteFile(text, c, Always);
            && RewriteLines(SplitLines(once), c, answers) == (SplitLines(once), answers)
            && RewriteFile(once, c, answers) == once
  {
    var once := RewriteFile(text, c, Always);
    FileIsSettled(text, c);
    SettledFileIsUnchanged(once, c, answers);
    JoinSplitLines(once);
  }

  // --------------------------------------------------------------------------
  // The program
  // --------------------------------------------------------------------------

  // Where the loop stands: the whole scan yields what is in front of pos, then the scan of the rest.
  ghost predicate Underway(start: Scanned, s: string, pos: nat, c: string, answers: Answers, updated: bool) {
    var p := Min(pos, |s|);
    var rest := Scan(s[p..], c, answers);
    && start.text == s[..p] + rest.text && start.answers == rest.answers
    && (start.gaps != [] <==> updated || rest.gaps != [])
  }

  // What the loop's own searches in s say about the text from pos on.
  lemma LoopFinds(s: string, c: string, pos: nat)
    requires pos <= |s| && Find(s, DIRECTIVE, pos) != -1
    ensures var idx := Find(s, DIRECTIVE, pos) + |DIRECTIVE|;
            var nxt := if Find(s, c, idx) == -1 then |s| else Find(s, c, idx);
            idx <= |s| && NextFound(s[pos..], c) ==
            if idx != |s| && IsAlnum(s[idx]) then Glued(idx - pos)
            else if FindNotChar(s, ' ', nxt) != nxt then Missing(idx - pos)
            else Authorized(idx - pos)
  {
    hide Find;
    var idx := Find(s, DIRECTIVE, pos) + |DIRECTIVE|;
    FindInSuffix(s, DIRECTIVE, pos);
    FindInSuffix(s, c, idx);
    assert s[pos..][idx - pos..] == s[idx..];
  }

  lemma PassOver(start: Scanned, s: string, pos: nat, c: string, answers: Answers, left: Answers, updated: bool, pos': nat)
    requires pos <= |s| && pos <= pos' && Underway(start, s, pos, c, answers, updated)
    requires ScansOn(s[pos..], c, answers, Min(pos', |s|) - pos, left)
    ensures Underway(start, s, pos', c, left, updated)
  {
    hide Scan;
    var k := Min(pos', |s|);
    assert s[pos..][k - pos..] == s[k..] && s[..pos] + s[pos..][..k - pos] == s[..k];
  }

  lemma Insert(start: Scanned, s: string, pos: nat, c: string, answers: Answers, left: Answers, updated: bool, idx: nat)
    requires pos <= idx <= |s| && Underway(start, s, pos, c, answers, updated)
    requires ScansInserting(s[pos..], c, answers, idx - pos, left)
    ensures Underway(start, s[..idx] + (" " + c) + s[idx..], idx + |c| + 1, c, left, true)
  {
    hide Scan;
    var p, rest := s[..idx] + (" " + c), s[idx..];
    var t := p + rest;
    assert t[..idx + |c| + 1] == p && t[idx + |c| + 1..] == rest;
    assert s[pos..][idx - pos..] == rest && s[..pos] + s[pos..][..idx - pos] == s[..idx];
    var scanned := Scan(rest, c, left).text;
    assert s[..pos] + (s[pos..][..idx - pos] + " " + c + scanned) == p + scanned;
  }

  lemma Begin(s: string, c: string, answers: Answers)
    ensures Underway(Scan(s, c, answers), s, 0, c, answers, false)
  {
    hide Scan;
    var start := Scan(s, c, answers);
    assert s[..0] + start.text == start.text && s[0..] == s;
  }

  lemma Finish(start: Scanned, s: string, pos: nat, c: string, answers: Answers, updated: bool)
    requires Underway(start, s, pos, c, answers, updated)
    requires Find(s, DIRECTIVE, pos) == -1 || pos + 1 >= |s|
    ensures start.text == s && start.answers == answers && (updated <==> start.gaps != [])
  {
    hide Scan, Find;
    NothingFound(s, c, pos, answers);
  }

  lemma ResumeInSuffix(s: string, c: string, pos: nat, idx: nat)
    requires pos <= idx <= |s|
    ensures Resume(s[pos..], c, idx - pos) == Min(idx + |c| + 1, |s|) - pos
  {
  }

  lemma NothingFound(s: string, c: string, pos: nat, answers: Answers)
    requires Find(s, DIRECTIVE, pos) == -1 || pos + 1 >= |s|
    ensures var p := Min(pos, |s|); Scan(s[p..], c, answers) == Scanned(s[p..], answers, [])
  {
    hide Find;
    FindInSuffix(s, DIRECTIVE, Min(pos, |s|));
  }

  // One round of the loop, by what it finds.
  lemma StepGlued(start: Scanned, s: string, pos: nat, c: string, answers: Answers, updated: bool)
    requires pos <= |s| && Underway(start, s, pos, c, answers, updated) && Find(s, DIRECTIVE, pos) != -1
    requires var idx := Find(s, DIRECTIVE, pos) + |DIRECTIVE|; idx < |s| && IsAlnum(s[idx])
    ensures Underway(start, s, Find(s, DIRECTIVE, pos) + |DIRECTIVE|, c, answers, updated)
  {
    hide Scan, Find, FindNotChar, NextFound, Resume, Underway, ScansOn, ScansInserting;
    LoopFinds(s, c, pos);
    ScanCases(s[pos..], c, answers);
    PassOver(start, s, pos, c, answers, answers, updated, Find(s, DIRECTIVE, pos) + |DIRECTIVE|);
  }

  lemma StepAuthorized(start: Scanned, s: string, pos: nat, c: string, answers: Answers, updated: bool)
    requires pos <= |s| && Underway(start, s, pos, c, answers, updated) && Find(s, DIRECTIVE, pos) != -1
    requires var idx := Find(s, DIRECTIVE, pos) + |DIRECTIVE|;
             var nxt := if Find(s, c, idx) == -1 then |s| else Find(s, c, idx);
             (idx < |s| ==> !IsAlnum(s[idx])) && FindNotChar(s, ' ', nxt) == nxt
    ensures Underway(start, s, Find(s, DIRECTIVE, pos) + |DIRECTIVE| + |c| + 1, c, answers, updated)
  {
    hide Scan, Find, FindNotChar, NextFound, Resume, Underway, ScansOn, ScansInserting;
    var idx := Find(s, DIRECTIVE, pos) + |DIRECTIVE|;
    LoopFinds(s, c, pos);
    ScanCases(s[pos..], c, answers);
    ResumeInSuffix(s, c, pos, idx);
    PassOver(start, s, pos, c, answers, answers, updated, idx + |c| + 1);
  }

  lemma StepMissing(start: Scanned, s: string, pos: nat, c: string, answers: Answers, updated: bool)
    requires pos <= |s| && Underway(start, s, pos, c, answers, updated) && Find(s, DIRECTIVE, pos) != -1
    requires var idx := Find(s, DIRECTIVE, pos) + |DIRECTIVE|;
             var nxt := if Find(s, c, idx) == -1 then |s| else Find(s, c, idx);
             (idx < |s| ==> !IsAlnum(s[idx])) && FindNotChar(s, ' ', nxt) != nxt
    ensures var idx := Find(s, DIRECTIVE, pos) + |DIRECTIVE|;
            var (yes, left) := answers.Ask();
            && (yes ==> Underway(start, s[..idx] + (" " + c) + s[idx..], idx + |c| + 1, c, left, true))
            && (!yes ==> Underway(start, s, idx + |c| + 1, c, left, updated))
  {
    hide Scan, Find, FindNotChar, NextFound, Resume, Underway, ScansOn, ScansInserting;
    var idx := Find(s, DIRECTIVE, pos) + |DIRECTIVE|;
    var (yes, left) := answers.Ask();
    LoopFinds(s, c, pos);
    ScanCases(s[pos..], c, answers);
    ResumeInSuffix(s, c, pos, idx);
    if yes {
      Insert(start, s, pos, c, answers, left, updated, idx);
    } else {
      PassOver(start, s, pos, c, answers, left, updated, idx + |c| + 1);
    }
  }

  method ScanLine(s0: string, c: string, answers0: Answers) returns (s: string, answers: Answers, updated: bool)
    requires '#' !in s0
    ensures var r := Scan(s0, c, answers0); s == r.text && answers == r.answers && (updated <==> r.gaps != [])
  {
    hide Scan, Find, FindNotChar, Underway;
    s, answers, updated := s0, answers0, false;
    ghost var start := Scan(s0, c, answers0);
    var pos := 0;
    var end := FindChar(s, '#');
    if end == -1 {
      end := |s| - 1;
    }
    Begin(s0, c, answers0);
    while pos < end && Find(s, DIRECTIVE, pos) != -1
      invariant 0 <= pos && end >= |s| - 1
      invariant Underway(start, s, pos, c, answers, updated)
      decreases |s| - pos
    {
      var idx := Find(s, DIRECTIVE, pos) + |DIRECTIVE|;
      if idx != |s| && IsAlnum(s[idx]) {
        StepGlued(start, s, pos, c, answers, updated);
        pos := idx;
        continue;
      }
      var nxt := Find(s, c, idx);
      if nxt == -1 {
        nxt := |s|;
      }
      if FindNotChar(s, ' ', nxt) != nxt {
        StepMissing(start, s, pos, c, answers, updated);
        var t := s[..idx] + (" " + c) + s[idx..];
        var (yes, left) := answers.Ask();
        if yes {
          s := t;
          updated := true;
        }
        answers := left;
      } else {
        StepAuthorized(start, s, pos, c, answers, updated);
      }
      pos := idx + |c| + 1;
      end := end + |c| + 1;
    }
    Finish(start, s, pos, c, answers, updated);
  }

  // The first i lines are rewritten, the others still to be.
  ghost predicate LinesUnderway(was: seq<string>, now: seq<string>, i: nat, c: string, answers0: Answers, answers: Answers) {
    && i <= |was| == |now| && now[i..] == was[i..]
    && var rest := RewriteLines(was[i..], c, answers);
       RewriteLines(was, c, answers0) == (now[..i] + rest.0, rest.1)
  }

  lemma BeginLines(was: seq<string>, c: string, answers: Answers)
    ensures LinesUnderway(was, was, 0, c, answers, answers)
  {
    hide RewriteLine;
    assert was[0..] == was && was[..0] + RewriteLines(was, c, answers).0 == RewriteLines(was, c, answers).0;
  }

  lemma NextLine(was: seq<string>, now: seq<string>, i: nat, c: string, answers0: Answers, answers: Answers)
    requires LinesUnderway(was, now, i, c, answers0, answers) && i < |was|
    ensures now[i] == was[i]
    ensures var (line, left) := RewriteLine(now[i], c, answers);
            LinesUnderway(was, now[i := line], i + 1, c, answers0, left)
  {
    hide RewriteLine;
    assert now[i] == now[i..][0] == was[i..][0];
    var (line, left) := RewriteLine(now[i], c, answers);
    assert was[i..][1..] == was[i + 1..];
    var others := RewriteLines(was[i + 1..], c, left).0;
    assert now[i := line][..i + 1] + others == now[..i] + ([line] + others);
    assert now[i := line][i + 1..] == now[i..][1..];
  }

  lemma EndLines(was: seq<string>, now: seq<string>, c: string, answers0: Answers, answers: Answers)
    requires LinesUnderway(was, now, |was|, c, answers0, answers)
    ensures RewriteLines(was, c, answers0) == (now, answers)
  {
    assert was[|was|..] == [] && now[..|was|] + [] == now;
  }

  lemma HeadAndComment(line: string, s: string, comment: string)
    requires var sharp := FindChar(line, '#');
             && s == (if sharp == -1 then line else line[..sharp])
             && comment == (if sharp == -1 then "" else line[sharp..])
    ensures s == Head(line) && comment == Comment(line)
  {
  }

  method RewriteOne(line: string, c: string, answers0: Answers) returns (s: string, answers: Answers, updated: bool)
    ensures (s, answers) == RewriteLine(line, c, answers0)
    ensures updated <==> s != line
  {
    hide Scan, Head, FindChar;
    s := line;
    var comment := "";
    var sharp := FindChar(s, '#');
    if sharp != -1 {
      comment := s[sharp..];
      s := s[..sharp];
    }
    HeadAndComment(line, s, comment);
    s, answers, updated := ScanLine(s, c, answers0);
    LineGrows(line, c, answers0);
    s := s + comment;
  }

  // All lines, each rewritten in place.
  method RewriteInPlace(line: array<string>, c: string, answers0: Answers) returns (answers: Answers, updated: bool)
    modifies line
    ensures (line[..], answers) == RewriteLines(old(line[..]), c, answers0)
    ensures updated <==> line[..] != old(line[..])
  {
    hide LinesUnderway, RewriteLine, RewriteLines;
    answers, updated := answers0, false;
    ghost var was := line[..];
    BeginLines(was, c, answers);
    for i := 0 to line.Length
      invariant LinesUnderway(was, line[..], i, c, answers0, answers)
      invariant updated <==> line[..] != was
    {
      NextLine(was, line[..], i, c, answers0, answers);
      var s, lineUpdated;
      s, answers, lineUpdated := RewriteOne(line[i], c, answers);
      updated := updated || lineUpdated;
      ghost var now := line[..];
      line[i] := s;
      assert line[..] == now[i := s];
    }
    EndLines(was, line[..], c, answers0, answers);
  }

  lemma SplitMore(lines: seq<string>, cfg: string, idx: nat)
    requires FindChar(cfg, '\n') == idx
    ensures lines + SplitLines(cfg) == lines + [cfg[..idx + 1]] + SplitLines(cfg[idx + 1..])
  {
    hide FindChar, SplitLines;
    SplitStep(cfg);
    var rest := SplitLines(cfg[idx + 1..]);
    assert lines + ([cfg[..idx + 1]] + rest) == lines + [cfg[..idx + 1]] + rest;
  }

  method SplitConfig(cfg0: string) returns (lines: seq<string>)
    ensures lines == SplitLines(cfg0)
  {
    hide SplitLines;
    var cfg := cfg0;
    lines := [];
    while FindChar(cfg, '\n') != -1
      invariant lines + SplitLines(cfg) == SplitLines(cfg0)
      decreases |cfg|
    {
      var idx := FindChar(cfg, '\n');
      SplitMore(lines, cfg, idx);
      lines := lines + [cfg[..idx + 1]];
      cfg := cfg[idx + 1..];
    }
    LastLineAlone(cfg);
    lines := lines + [cfg];
  }

  lemma LastLineAlone(cfg: string)
    requires FindChar(cfg, '\n') == -1
    ensures SplitLines(cfg) == [cfg]
  {
  }

  // One file: split into lines, rewritten, and written if anything was confirmed.
  method Authorize(cfg: string, c: string, answers: Answers) returns (output: string, updated: bool)
    ensures output == RewriteFile(cfg, c, answers)
    ensures updated <==> output != cfg
  {
    hide SplitLines, RewriteLines, FindChar;
    var lines := SplitConfig(cfg);
    var line := new string[|lines|](i requires 0 <= i < |lines| => lines[i]);
    assert line[..] == lines;
    var left;
    left, updated := RewriteInPlace(line, c, answers);
    JoinSplitLines(cfg);
    LinesGrow(lines, c, answers);
    if !updated {
      return cfg, false;
    }
    output := "";
    assert line[0..] == line[..] && output + Join(line[..]) == Join(line[..]);
    for i := 0 to line.Length
      invariant output + Join(line[i..]) == Join(line[..])
    {
      assert line[i..][1..] == line[i + 1..];
      assert output + (line[i] + Join(line[i + 1..])) == output + line[i] + Join(line[i + 1..]);
      output := output + line[i];
    }
    assert line[line.Length..] == [] && output + "" == output;
  }
}
