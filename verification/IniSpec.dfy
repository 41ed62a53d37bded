/**
 What the INI parser makes of a text, line by line: the specification that the parser in module Ini
 is proved against, and the properties of that specification.  The configuration is the default one:
 multi-line values, byte order marks and inline comments allowed, names without value refused.
 */
module IniSpec {
  import opened IniReader

  const MAX_LINE := 200     // buffer size, counting the NUL
  const MAX_SECTION := 50
  const MAX_NAME := 50

  const BOM := ['\U{EF}', '\U{BB}', '\U{BF}']

  predicate IsSpace(c: char) { c in " \t\n\U{0B}\U{0C}\r" }

  function TrimLeft(s: string): (r: string)
    ensures |r| <= |s|
  {
    if s != "" && IsSpace(s[0]) then TrimLeft(s[1..]) else s
  }

  function TrimRight(s: string): (r: string)
    ensures |r| <= |s|
  {
    if s != "" && IsSpace(s[|s| - 1]) then TrimRight(s[..|s| - 1]) else s
  }

  // The first of `chars` or an inline comment, which must be prefixed by a whitespace character.
  function StopFrom(s: string, chars: string, wasSpace: bool): (n: nat)
    ensures n <= |s|
  {
    if s == "" || s[0] in chars || (wasSpace && s[0] == ';') then 0
    else 1 + StopFrom(s[1..], chars, IsSpace(s[0]))
  }

  function Stop(s: string, chars: string): (n: nat)
    ensures n <= |s|
  {
    StopFrom(s, chars, false)
  }

  function Take(s: string, n: nat): string { if |s| <= n then s else s[..n] }

  // --------------------------------------------------------------------------
  // One line
  // --------------------------------------------------------------------------

  datatype Call = NoCall | Call(name: string, value: string)

  // The section and the last name after a line, the handler call it causes, and whether it is malformed.
  datatype LineResult = LineResult(section: string, prevName: string, call: Call, bad: bool)

  function SkipBom(line: string, lineno: nat): string {
    if lineno == 1 && |line| >= 3 && line[..3] == BOM then line[3..] else line
  }

  function WithoutComment(s: string): string { s[..Stop(s, "")] }

  // A line without the whitespace around it; `indented` tells that something was cut off in front.
  function ParseText(text: string, indented: bool, section: string, prevName: string): LineResult {
    if text == "" || text[0] in ";#" then
      LineResult(section, prevName, NoCall, false)
    else if prevName != "" && indented then
      LineResult(section, prevName, Call(prevName, TrimRight(WithoutComment(text))), false)
    else if text[0] == '[' then
      var end := 1 + Stop(text[1..], "]");
      if end < |text| && text[end] == ']'
      then LineResult(Take(text[1..end], MAX_SECTION - 1), "", NoCall, false)
      else LineResult(section, prevName, NoCall, true)
    else
      var end := Stop(text, "=:");
      if end < |text| && text[end] in "=:" then
        var name := TrimRight(text[..end]);
        var value := TrimRight(TrimLeft(WithoutComment(text[end + 1..])));
        LineResult(section, Take(name, MAX_NAME - 1), Call(name, value), false)
      else LineResult(section, prevName, NoCall, true)
  }

  function ParseLine(line: string, lineno: nat, section: string, prevName: string): LineResult {
    var body := TrimLeft(SkipBom(line, lineno));
    ParseText(TrimRight(body), |body| < |line|, section, prevName)
  }

  // --------------------------------------------------------------------------
  // A whole text
  // --------------------------------------------------------------------------

  // At most n characters, up to and including the first newline: what one read returns.
  function Chunk(text: string, n: nat): (c: string)
    ensures |c| <= n && |c| <= |text| && text[..|c|] == c
    ensures n > 0 && text != "" ==> c != ""
  {
    if n == 0 || text == "" then ""
    else if text[0] == '\n' then "\n"
    else [text[0]] + Chunk(text[1..], n - 1)
  }

  // One physical line, with its newline if it has one.
  function PhysicalLine(text: string): (line: string)
    ensures |line| <= |text| && text[..|line|] == line && (text != "" ==> line != "")
  {
    Chunk(text, |text|)
  }

  // What the parser knows between two lines.
  datatype State = State(lineno: nat, section: string, prevName: string, error: nat, values: Values)

  predicate TooLong(line: string) { |line| >= MAX_LINE }

  function ResultOf(st: State, line: string): LineResult {
    ParseLine(Take(line, MAX_LINE - 1), st.lineno + 1, st.section, st.prevName)
  }

  function Step(st: State, line: string): State {
    var r := ResultOf(st, line);
    State(st.lineno + 1, r.section, r.prevName,
          if st.error == 0 && (TooLong(line) || r.bad) then st.lineno + 1 else st.error,
          if r.call.Call? then Added(st.values, st.section, r.call.name, r.call.value) else st.values)
  }

  function Run(st: State, text: string): State
    decreases |text|
  {
    if text == "" then st
    else
      var line := PhysicalLine(text);
      Run(Step(st, line), text[|line|..])
  }

  const START := State(0, "", "", 0, map[])

  // --------------------------------------------------------------------------
  // The result is the first faulty line
  // --------------------------------------------------------------------------

  function Lines(text: string): seq<string>
    decreases |text|
  {
    if text == "" then [] else [PhysicalLine(text)] + Lines(text[|PhysicalLine(text)|..])
  }

  // The state before line number n + 1.
  function StateBefore(st: State, lines: seq<string>, n: nat): State
    requires n <= |lines|
    decreases n
  {
    if n == 0 then st else StateBefore(Step(st, lines[0]), lines[1..], n - 1)
  }

  predicate Faulty(st: State, lines: seq<string>, n: nat)
    requires n < |lines|
  {
    TooLong(lines[n]) || ResultOf(StateBefore(st, lines, n), lines[n]).bad
  }

  lemma {:induction false} RunIsStateBefore(st: State, text: string)
    ensures Run(st, text) == StateBefore(st, Lines(text), |Lines(text)|)
    decreases |text|
  {
    hide Step;
    if text != "" {
      var line := PhysicalLine(text);
      RunIsStateBefore(Step(st, line), text[|line|..]);
      assert Lines(text)[1..] == Lines(text[|line|..]);
    }
  }

  lemma {:induction false} ErrorSticks(st: State, lines: seq<string>, n: nat)
    requires n <= |lines|
    ensures st.error != 0 ==> StateBefore(st, lines, n).error == st.error
    ensures StateBefore(st, lines, n).lineno == st.lineno + n
    decreases n
  {
    hide ResultOf;
    if n > 0 {
      ErrorSticks(Step(st, lines[0]), lines[1..], n - 1);
    }
  }

  // e is zero if none of the lines is faulty, and the number of the first faulty line otherwise.
  ghost predicate IsFirstFault(st: State, lines: seq<string>, e: nat) {
    && (e == 0 ==> forall n | 0 <= n < |lines| :: !Faulty(st, lines, n))
    && (e != 0 ==>
          && st.lineno < e <= st.lineno + |lines| && Faulty(st, lines, e - st.lineno - 1)
          && forall n | 0 <= n < e - st.lineno - 1 :: !Faulty(st, lines, n))
  }

  lemma FaultAfterFirst(st: State, lines: seq<string>, n: nat)
    requires 0 < n < |lines|
    ensures Faulty(st, lines, n) <==> Faulty(Step(st, lines[0]), lines[1..], n - 1)
  {
    hide Step, ResultOf;
  }

  lemma FirstFault(st: State, lines: seq<string>)
    requires lines != [] && st.error == 0
    ensures Step(st, lines[0]).error == if Faulty(st, lines, 0) then st.lineno + 1 else 0
    ensures Step(st, lines[0]).lineno == st.lineno + 1
  {
    hide ResultOf;
  }

  lemma {:induction false} ErrorIsFirstFault(st: State, lines: seq<string>)
    requires st.error == 0
    ensures IsFirstFault(st, lines, StateBefore(st, lines, |lines|).error)
    decreases |lines|
  {
    hide Step, Faulty;
    if lines != [] {
      var next, rest := Step(st, lines[0]), lines[1..];
      FirstFault(st, lines);
      forall n | 0 < n < |lines|
        ensures Faulty(st, lines, n) <==> Faulty(next, rest, n - 1)
      {
        FaultAfterFirst(st, lines, n);
      }
      if next.error == 0 {
        ErrorIsFirstFault(next, rest);
      } else {
        ErrorSticks(next, rest, |rest|);
      }
    }
  }

  // The parser's result: 0, or the number of the first line that is too long or malformed.
  lemma ResultIsFirstFaultyLine(text: string)
    ensures IsFirstFault(START, Lines(text), Run(START, text).error)
  {
    RunIsStateBefore(START, text);
    ErrorIsFirstFault(START, Lines(text));
  }

  // --------------------------------------------------------------------------
  // Where a search stops, and which lines are malformed
  // --------------------------------------------------------------------------

  // Position i holds one of `chars`, or a semicolon behind white space.
  ghost predicate StopsAt(s: string, chars: string, wasSpace: bool, i: nat)
    requires i < |s|
  {
    s[i] in chars || (s[i] == ';' && if i == 0 then wasSpace else s[i - 1] in " \t\n\U{0B}\U{0C}\r")
  }

  // n is the first such position, or the end of s if there is none.
  ghost predicate IsStop(s: string, chars: string, wasSpace: bool, n: nat) {
    && n <= |s| && (n < |s| ==> StopsAt(s, chars, wasSpace, n))
    && forall i | 0 <= i < n :: !StopsAt(s, chars, wasSpace, i)
  }

  lemma StopsLater(s: string, chars: string, wasSpace: bool, i: nat)
    requires 0 < i < |s|
    ensures StopsAt(s, chars, wasSpace, i) <==> StopsAt(s[1..], chars, IsSpace(s[0]), i - 1)
  {
  }

  lemma {:induction false} StopIsFirst(s: string, chars: string, wasSpace: bool)
    ensures IsStop(s, chars, wasSpace, StopFrom(s, chars, wasSpace))
  {
    hide StopsAt, IsSpace;
    if s != "" {
      var n, rest, space := StopFrom(s, chars, wasSpace), s[1..], IsSpace(s[0]);
      StopsAtOnce(s, chars, wasSpace);
      if n > 0 {
        StopIsFirst(rest, chars, space);
        if n < |s| {
          StopsLater(s, chars, wasSpace, n);
        }
        forall i | 0 < i < n
          ensures !StopsAt(s, chars, wasSpace, i)
        {
          StopsLater(s, chars, wasSpace, i);
        }
      }
    }
  }

  lemma StopsAtOnce(s: string, chars: string, wasSpace: bool)
    requires s != ""
    ensures StopFrom(s, chars, wasSpace) == 0 <==> StopsAt(s, chars, wasSpace, 0)
  {
  }

  // An inline comment begins at position i or before.
  ghost predicate CommentStartsBy(s: string, i: nat)
    requires i < |s|
  {
    exists k :: 0 < k <= i && s[k] == ';' && IsSpace(s[k - 1])
  }

  ghost predicate HasUncommented(s: string, chars: string) {
    exists i | 0 <= i < |s| :: s[i] in chars && !CommentStartsBy(s, i)
  }

  lemma StopFinds(s: string, chars: string)
    requires ';' !in chars
    ensures (Stop(s, chars) < |s| && s[Stop(s, chars)] in chars) <==> HasUncommented(s, chars)
  {
    var n := Stop(s, chars);
    StopIsFirst(s, chars, false);
    if n < |s| && s[n] in chars {
      forall k | 0 < k <= n
        ensures !(s[k] == ';' && IsSpace(s[k - 1]))
      {
        assert k < n ==> !StopsAt(s, chars, false, k);
      }
    } else if i :| 0 <= i < |s| && s[i] in chars && !CommentStartsBy(s, i) {
      assert StopsAt(s, chars, false, i);
    }
  }

  // Malformed is a line that is neither blank nor a comment nor a continuation, and in which, up to
  // an inline comment, the ']' of a section or the '=' or ':' of a pair is missing.
  lemma MalformedIff(line: string, lineno: nat, section: string, prevName: string)
    ensures var body := TrimLeft(SkipBom(line, lineno));
            var text := TrimRight(body);
            ParseLine(line, lineno, section, prevName).bad <==>
            && text != "" && text[0] !in ";#"
            && !(prevName != "" && |body| < |line|)
            && (if text[0] == '[' then !HasUncommented(text[1..], "]") else !HasUncommented(text, "=:"))
  {
    hide TrimLeft, TrimRight, StopFrom, HasUncommented, SkipBom;
    var text := TrimRight(TrimLeft(SkipBom(line, lineno)));
    if text != "" {
      StopFinds(text[1..], "]");
      StopFinds(text, "=:");
    }
  }
}
