/**
 The INI parser: pointer loops over a line buffer, NULs written into it to cut out names and values,
 and a state that is carried from line to line.  Pointers are indices into the buffer.
 */
module Ini {
  import opened IniReader
  import opened IniSpec

  // --------------------------------------------------------------------------
  // C strings
  // --------------------------------------------------------------------------

  // The NUL-terminated string at index p of the buffer is s.
  ghost predicate IsCStr(a: seq<char>, p: nat, s: string) {
    && p + |s| < |a| && a[p + |s|] == '\0'
    && forall k | 0 <= k < |s| :: a[p + k] == s[k] && s[k] != '\0'
  }

  lemma CutCStr(a: seq<char>, p: nat, s: string, e: nat)
    requires IsCStr(a, p, s) && p <= e <= p + |s|
    ensures IsCStr(a[e := '\0'], p, s[..e - p])
  {
  }

  lemma SuffixCStr(a: seq<char>, p: nat, s: string, k: nat)
    requires IsCStr(a, p, s) && k <= |s|
    ensures IsCStr(a, p + k, s[k..])
  {
    assert forall i | 0 <= i < |s[k..]| :: a[p + k + i] == s[k + i] == s[k..][i];
  }

  lemma SameCStr(a: seq<char>, b: seq<char>, p: nat, s: string)
    requires IsCStr(a, p, s) && |a| == |b| && forall k | p <= k <= p + |s| :: a[k] == b[k]
    ensures IsCStr(b, p, s)
  {
  }

  lemma InsideCStr(a: seq<char>, p: nat, s: string, k: nat)
    requires IsCStr(a, p, s) && k < |s|
    ensures p + k < |a| && a[p + k] == s[k] != '\0'
  {
  }

  // What a pointer k characters into the string sees.
  ghost predicate Points(a: seq<char>, i: nat, s: string) {
    && i < |a| && (a[i] == '\0' <==> s == "") && (s != "" ==> a[i] == s[0])
  }

  lemma PointsInto(a: seq<char>, p: nat, s: string, i: nat)
    requires IsCStr(a, p, s) && p <= i <= p + |s|
    ensures Points(a, i, s[i - p..])
  {
    if i < p + |s| {
      InsideCStr(a, p, s, i - p);
    }
  }

  method StrLen(a: array<char>, ghost s: string) returns (n: nat)
    requires IsCStr(a[..], 0, s)
    ensures n == |s|
  {
    n := 0;
    while a[n] != '\0'
      invariant n <= |s|
      decreases |s| - n
    {
      n := n + 1;
    }
    if n < |s| {
      InsideCStr(a[..], 0, s, n);
    }
  }

  // The handler's view of a C string.
  method ToString(a: array<char>, p: nat, ghost s: string) returns (r: string)
    requires IsCStr(a[..], p, s)
    ensures r == s
  {
    r := "";
    var i := p;
    while a[i] != '\0'
      invariant p <= i <= p + |s| && r == s[..i - p]
      decreases p + |s| - i
    {
      assert i < p + |s|;
      InsideCStr(a[..], p, s, i - p);
      r := r + [a[i]];
      i := i + 1;
    }
    if i < p + |s| {
      InsideCStr(a[..], p, s, i - p);
    }
  }

  // --------------------------------------------------------------------------
  // The pointer loops
  // --------------------------------------------------------------------------

  // Strips whitespace off the end of the string at `start`, in place.
  method IniRStrip(a: array<char>, start: nat, end0: nat, ghost s: string)
    requires IsCStr(a[..], start, s) && end0 == start + |s|
    modifies a
    ensures IsCStr(a[..], start, TrimRight(s))
    ensures forall i | 0 <= i < a.Length && (i < start || i >= end0) :: a[i] == old(a[i])
  {
    hide IsCStr, TrimRight;
    var end := end0;
    assert s[..end - start] == s;
    StripStep(a[..], start, s, end - start);
    while end > start && IsSpace(a[end - 1])
      invariant start <= end <= end0
      invariant end <= a.Length && IsCStr(a[..], start, s[..end - start])
      invariant Strips(a[..], start, s, end - start)
      invariant forall i | 0 <= i < a.Length && (i < start || i >= end0) :: a[i] == old(a[i])
    {
      end := end - 1;
      ghost var before, t := a[..], s[..end + 1 - start];
      CutCStr(before, start, t, end);
      a[end] := '\0';
      assert a[..] == before[end := '\0'];
      assert t[..end - start] == s[..end - start];
      StripStep(a[..], start, s, end - start);
    }
  }

  // What is left of s after n characters, and whether its last character is the next to go.
  ghost predicate Strips(a: seq<char>, start: nat, s: string, n: nat) {
    && n <= |s| && start + n <= |a|
    && TrimRight(s) == (if n > 0 && IsSpace(a[start + n - 1]) then TrimRight(s[..n - 1]) else s[..n])
  }

  lemma StripStep(a: seq<char>, start: nat, s: string, n: nat)
    requires n <= |s| && IsCStr(a, start, s[..n]) && TrimRight(s) == TrimRight(s[..n])
    ensures Strips(a, start, s, n)
  {
    if n > 0 {
      assert s[..n][..n - 1] == s[..n - 1];
    }
  }

  // The first non-whitespace character.
  method IniLSkip(a: array<char>, p0: nat, ghost s: string) returns (p: nat)
    requires IsCStr(a[..], p0, s)
    ensures p == p0 + |s| - |TrimLeft(s)| && p >= p0
    ensures IsCStr(a[..], p, TrimLeft(s))
  {
    hide IsCStr;
    p := p0;
    ghost var t := s;
    PointsInto(a[..], p0, s, p);
    assert s[0..] == s;
    while a[p] != '\0' && IsSpace(a[p])
      invariant p0 <= p <= p0 + |s| && t == s[p - p0..] && Points(a[..], p, t)
      invariant TrimLeft(t) == TrimLeft(s)
      decreases |t|
    {
      PointsInto(a[..], p0, s, p + 1);
      p, t := p + 1, t[1..];
    }
    SuffixCStr(a[..], p0, s, p - p0);
  }

  // The first of `chars` or an inline comment, or the end of the string.
  method IniFindCharsOrComment(a: array<char>, p0: nat, chars: string, ghost s: string) returns (p: nat)
    requires IsCStr(a[..], p0, s)
    ensures p == p0 + Stop(s, chars) && IsStop(s, chars, false, p - p0)
  {
    hide IsCStr, IsStop;
    StopIsFirst(s, chars, false);
    p := p0;
    var wasSpace := false;
    ghost var t := s;
    PointsInto(a[..], p0, s, p);
    assert s[0..] == s;
    while a[p] != '\0' && a[p] !in chars && !(wasSpace && a[p] == ';')
      invariant p0 <= p <= p0 + |s| && t == s[p - p0..] && Points(a[..], p, t)
      invariant p - p0 + StopFrom(t, chars, wasSpace) == Stop(s, chars)
      decreases |t|
    {
      PointsInto(a[..], p0, s, p + 1);
      wasSpace := IsSpace(a[p]);
      p, t := p + 1, t[1..];
    }
  }

  // Copies at most size - 1 characters and a NUL.
  method IniStrncpy0(dest: array<char>, src: array<char>, p: nat, size: nat, ghost s: string)
    requires dest != src && IsCStr(src[..], p, s) && 0 < size <= dest.Length
    modifies dest
    ensures IsCStr(dest[..], 0, Take(s, size - 1))
  {
    hide IsCStr;
    var i := 0;
    PointsInto(src[..], p, s, p);
    while i < size - 1 && src[p + i] != '\0'
      invariant i <= |s| && i <= size - 1 && Points(src[..], p + i, s[i..])
      invariant forall k | 0 <= k < i :: dest[k] == s[k]
    {
      dest[i] := src[p + i];
      i := i + 1;
      PointsInto(src[..], p, s, p + i);
    }
    dest[i] := '\0';
    CopyIsCStr(dest[..], src[..], p, s, i);
    assert Take(s, size - 1) == s[..i];
  }

  lemma CopyIsCStr(dest: seq<char>, src: seq<char>, p: nat, s: string, n: nat)
    requires IsCStr(src, p, s) && n <= |s| && n < |dest| && dest[n] == '\0'
    requires forall k | 0 <= k < n :: dest[k] == s[k]
    ensures IsCStr(dest, 0, s[..n])
  {
    forall k | 0 <= k < n
      ensures dest[0 + k] == s[..n][k] && s[..n][k] != '\0'
    {
      InsideCStr(src, p, s, k);
    }
  }

  // --------------------------------------------------------------------------
  // Reading
  // --------------------------------------------------------------------------

  // The string that ini_parse_string reads from, as far as it is not read yet.
  class StringStream {
    var rest: string

    constructor (text: string)
      ensures rest == text
    {
      rest := text;
    }

    // The fgets equivalent: up to num - 1 characters, not beyond a newline.
    method Read(str: array<char>, num0: nat) returns (ok: bool)
      requires 2 <= num0 <= str.Length && '\0' !in rest
      modifies this, str
      ensures ok <==> old(rest) != ""
      ensures !ok ==> rest == ""
      ensures ok ==> var c := Chunk(old(rest), num0 - 1); IsCStr(str[..], 0, c) && rest == old(rest)[|c|..]
    {
      if |rest| == 0 {
        return false;
      }
      hide Chunk, Copying;
      ghost var all := rest;
      var num, at := num0, 0;
      CopyBegins(str[..], all, num0 - 1);
      while num > 1 && |rest| != 0
        invariant 1 <= num && at + num == num0 && at + |rest| <= |all|
        invariant '\0' !in rest && Copying(str[..], all, rest, at, num - 1, num0 - 1)
      {
        ghost var before, text := str[..], rest;
        var c := rest[0];
        CopyStep(before, all, rest, at, num - 1, num0 - 1);
        NotInSuffix(rest, 1);
        rest := rest[1..];
        str[at] := c;
        assert str[..] == before[at := c];
        at := at + 1;
        if c == '\n' {
          break;
        }
        num := num - 1;
      }
      if num == 1 || rest == "" {
        CopyEnds(str[..], all, rest, at, num - 1, num0 - 1);
      }
      ghost var copied := str[..];
      str[at] := '\0';
      CopyIsChunk(copied, str[..], all, rest, at, num0 - 1);
      return true;
    }
  }

  // The first `at` characters of `all` are in the buffer, and `rest` is left; n more may be read.
  ghost predicate Copying(str: seq<char>, all: string, rest: string, at: nat, n: nat, limit: nat) {
    Copied(str, all, rest, at) && at + |Chunk(rest, n)| == |Chunk(all, limit)|
  }

  ghost predicate Copied(str: seq<char>, all: string, rest: string, at: nat) {
    && at <= |all| && at < |str| && rest == all[at..]
    && forall k | 0 <= k < at :: str[k] == all[k] && all[k] != '\0'
  }

  lemma CopyBegins(str: seq<char>, all: string, limit: nat)
    requires str != []
    ensures Copying(str, all, all, 0, limit, limit)
  {
    assert all[0..] == all;
  }

  lemma CopyStep(str: seq<char>, all: string, rest: string, at: nat, n: nat, limit: nat)
    requires Copying(str, all, rest, at, n, limit) && n > 0 && rest != "" && rest[0] != '\0' && at + 1 < |str|
    ensures rest[0] != '\n' ==> Copying(str[at := rest[0]], all, rest[1..], at + 1, n - 1, limit)
    ensures rest[0] == '\n' ==>
              Copied(str[at := rest[0]], all, rest[1..], at + 1) && at + 1 == |Chunk(all, limit)|
  {
    hide Chunk;
    ChunkFirst(rest, n);
    assert rest[1..] == all[at + 1..] && rest[0] == all[at];
  }

  lemma CopyEnds(str: seq<char>, all: string, rest: string, at: nat, n: nat, limit: nat)
    requires Copying(str, all, rest, at, n, limit) && (n == 0 || rest == "")
    ensures Copied(str, all, rest, at) && at == |Chunk(all, limit)|
  {
    hide Chunk;
    NoChunk(rest, n);
  }

  lemma CopyIsChunk(before: seq<char>, str: seq<char>, all: string, rest: string, at: nat, limit: nat)
    requires Copied(before, all, rest, at) && at == |Chunk(all, limit)| && str == before[at := '\0']
    ensures IsCStr(str, 0, Chunk(all, limit)) && rest == all[|Chunk(all, limit)|..]
  {
    hide Chunk;
    assert Chunk(all, limit) == all[..at];
  }

  lemma ChunkFirst(text: string, n: nat)
    requires n > 0 && text != ""
    ensures Chunk(text, n) == if text[0] == '\n' then "\n" else [text[0]] + Chunk(text[1..], n - 1)
  {
  }

  lemma NoChunk(text: string, n: nat)
    requires n == 0 || text == ""
    ensures Chunk(text, n) == ""
  {
  }

  lemma NotInSuffix(s: string, k: nat)
    requires k <= |s| && '\0' !in s
    ensures '\0' !in s[k..]
  {
    assert forall c | c in s[k..] :: c in s;
  }

  // A chunk that uses all the room it has, without reaching the end of the line.
  predicate Full(c: string, n: nat) { |c| == n && (n == 0 || c[n - 1] != '\n') }

  predicate EndsLine(c: string) { c != "" && c[|c| - 1] == '\n' }

  lemma ChunkStep(text: string, n: nat)
    requires n > 0 && text != "" && text[0] != '\n'
    ensures Chunk(text, n) == [text[0]] + Chunk(text[1..], n - 1)
    ensures Full(Chunk(text, n), n) <==> Full(Chunk(text[1..], n - 1), n - 1)
    ensures EndsLine(Chunk(text, n)) <==> EndsLine(Chunk(text[1..], n - 1))
  {
    hide Chunk;
    ChunkFirst(text, n);
  }

  // Reading in pieces does not change where a physical line ends.
  lemma {:induction false} ChunkThenRest(text: string, n: nat, m: nat)
    requires n <= m
    ensures var c := Chunk(text, n); Chunk(text, m) == if Full(c, n) then c + Chunk(text[n..], m - n) else c
    decreases n
  {
    hide Chunk, Full;
    if n > 0 && text != "" && text[0] != '\n' {
      ChunkStep(text, n);
      ChunkStep(text, m);
      ChunkThenRest(text[1..], n - 1, m - 1);
      var c, more := Chunk(text[1..], n - 1), "";
      if Full(c, n - 1) {
        FullIsLong(c, n - 1);
        assert text[1..][n - 1..] == text[n..];
        more := Chunk(text[n..], m - n);
      }
      ChunkGrows(text[0], c, more, n);
    } else {
      ChunkAtOnce(text, n, m);
    }
  }

  lemma ChunkGrows(x: char, c: string, more: string, n: nat)
    requires n > 0
    ensures [x] + (if Full(c, n - 1) then c + more else c) == if Full(c, n - 1) then [x] + c + more else [x] + c
  {
    assert [x] + (c + more) == [x] + c + more;
  }

  lemma ChunkAtOnce(text: string, n: nat, m: nat)
    requires n <= m && (n == 0 || text == "" || text[0] == '\n')
    ensures var c := Chunk(text, n); Chunk(text, m) == if Full(c, n) then c + Chunk(text[n..], m - n) else c
  {
    assert n == 0 ==> text[0..] == text;
  }

  // A chunk that neither fills the room nor ends the line is the whole text.
  lemma {:induction false} ShortChunkIsAll(text: string, n: nat)
    requires !Full(Chunk(text, n), n) && !EndsLine(Chunk(text, n))
    ensures Chunk(text, n) == text
    decreases n
  {
    hide Chunk, Full, EndsLine;
    if n > 0 && text != "" && text[0] != '\n' {
      ChunkStep(text, n);
      ShortChunkIsAll(text[1..], n - 1);
    } else {
      NoShortChunk(text, n);
    }
  }

  lemma NoShortChunk(text: string, n: nat)
    requires n == 0 || text == "" || text[0] == '\n'
    ensures text == Chunk(text, n) || Full(Chunk(text, n), n) || EndsLine(Chunk(text, n))
  {
  }

  lemma FullIsLong(c: string, n: nat)
    requires Full(c, n)
    ensures |c| == n
  {
  }

  lemma EnoughRoom(text: string, n: nat)
    requires n >= |text|
    ensures Chunk(text, n) == PhysicalLine(text)
  {
    hide Chunk, Full;
    ChunkThenRest(text, |text|, n);
    assert text[|text|..] == "";
    NoChunk("", n - |text|);
    assert Chunk(text, |text|) + "" == Chunk(text, |text|);
  }

  lemma LineAfterChunk(text: string, n: nat)
    requires n > 0
    ensures var c := Chunk(text, n);
            PhysicalLine(text) == if Full(c, n) then c + PhysicalLine(text[n..]) else c
  {
    hide Chunk, Full, PhysicalLine;
    EnoughRoom(text, |text| + n);
    ChunkThenRest(text, n, |text| + n);
    if Full(Chunk(text, n), n) {
      FullIsLong(Chunk(text, n), n);
      EnoughRoom(text[n..], |text|);
    }
  }

  lemma NothingAfterEnd()
    ensures PhysicalLine("") == ""
  {
  }

  // `rest` is what is left of `all` inside its first physical line, or just behind it.
  ghost predicate Discarding(all: string, rest: string) {
    && |rest| <= |all| && rest == all[|all| - |rest|..]
    && |all| - |rest| + |PhysicalLine(rest)| == |PhysicalLine(all)|
  }

  lemma DiscardStep(all: string, rest: string, n: nat)
    requires n > 0 && Discarding(all, rest)
    ensures var c := Chunk(rest, n);
            if EndsLine(c) then rest[|c|..] == all[|PhysicalLine(all)|..] else Discarding(all, rest[|c|..])
  {
    hide Chunk, PhysicalLine;
    var c := Chunk(rest, n);
    LineAfterChunk(rest, n);
    assert rest[|c|..] == all[|all| - |rest| + |c|..];
    if !Full(c, n) && !EndsLine(c) {
      ShortChunkIsAll(rest, n);
      NothingAfterEnd();
    }
  }

  // Discards the rest of a line that is too long, 15 characters at a time.
  method Discard(stream: StringStream) returns (any: bool)
    requires '\0' !in stream.rest
    modifies stream
    ensures any <==> old(stream.rest) != ""
    ensures stream.rest == old(stream.rest)[|PhysicalLine(old(stream.rest))|..]
  {
    hide Chunk, IsCStr, PhysicalLine, Discarding;
    ghost var all := stream.rest;
    DiscardBegins(all);
    any := false;
    var abyss := new char[16];
    while true
      invariant fresh(abyss) && Discarding(all, stream.rest) && '\0' !in stream.rest
      invariant if any then all != "" else stream.rest == all
      decreases |stream.rest|
    {
      ghost var before := stream.rest;
      var ok := stream.Read(abyss, 16);
      if !ok {
        DiscardEnds(all, before);
        break;
      }
      any := true;
      ghost var c := Chunk(before, 15);
      DiscardStep(all, before, 15);
      NotInSuffix(before, |c|);
      var abyssLen := StrLen(abyss, c);
      if abyssLen > 0 {
        InsideCStr(abyss[..], 0, c, abyssLen - 1);
      }
      if abyssLen > 0 && abyss[abyssLen - 1] == '\n' {
        break;
      }
    }
  }

  lemma DiscardBegins(all: string)
    ensures Discarding(all, all)
  {
    hide PhysicalLine;
    assert all[0..] == all;
  }

  lemma DiscardEnds(all: string, rest: string)
    requires Discarding(all, rest) && rest == ""
    ensures all[|PhysicalLine(all)|..] == ""
    ensures all == "" <==> PhysicalLine(all) == ""
  {
  }

  // --------------------------------------------------------------------------
  // One line
  // --------------------------------------------------------------------------

  // Ends the string at p with a NUL at index e.
  method Cut(a: array<char>, p: nat, e: nat, ghost s: string)
    requires IsCStr(a[..], p, s) && p <= e <= p + |s|
    modifies a
    ensures IsCStr(a[..], p, s[..e - p])
    ensures forall i | 0 <= i < a.Length && i != e :: a[i] == old(a[i])
  {
    ghost var before := a[..];
    CutCStr(before, p, s, e);
    a[e] := '\0';
    assert a[..] == before[e := '\0'];
  }

  // The buffers for the section and for the last name.
  ghost predicate Remembers(section: array<char>, prevName: array<char>, sec: string, prev: string)
    reads section, prevName
  {
    && section.Length == MAX_SECTION && prevName.Length == MAX_NAME && section != prevName
    && IsCStr(section[..], 0, sec) && IsCStr(prevName[..], 0, prev)
  }

  // A non-blank line with leading whitespace continues the value of the previous name.
  method ContinuationLine(line: array<char>, start: nat, section: array<char>, prevName: array<char>, reader: Reader,
                          ghost text: string, ghost sec: string, ghost prev: string)
    requires IsCStr(line[..], start, text) && line != section && line != prevName
    requires Remembers(section, prevName, sec, prev)
    modifies line, reader
    ensures Remembers(section, prevName, sec, prev)
    ensures reader.values == Added(old(reader.values), sec, prev, TrimRight(WithoutComment(text)))
  {
    hide IsCStr, StopFrom;
    var end := IniFindCharsOrComment(line, start, "", text);
    Cut(line, start, end, text);
    IniRStrip(line, start, end, WithoutComment(text));
    var sectionString := ToString(section, 0, sec);
    var name := ToString(prevName, 0, prev);
    var value := ToString(line, start, TrimRight(WithoutComment(text)));
    reader.ValueHandler(sectionString, name, value);
  }

  // A "[section]" line.
  method SectionLine(line: array<char>, start: nat, section: array<char>, prevName: array<char>,
                     ghost text: string, ghost sec: string, ghost prev: string) returns (bad: bool)
    requires IsCStr(line[..], start, text) && line != section && line != prevName
    requires Remembers(section, prevName, sec, prev)
    requires text != "" && text[0] == '['
    modifies line, section, prevName
    ensures var end := 1 + Stop(text[1..], "]");
            && bad == !(end < |text| && text[end] == ']')
            && (bad ==> Remembers(section, prevName, sec, prev))
            && (!bad ==> Remembers(section, prevName, Take(text[1..end], MAX_SECTION - 1), ""))
  {
    hide IsCStr, StopFrom;
    SuffixCStr(line[..], start, text, 1);
    var end := IniFindCharsOrComment(line, start + 1, "]", text[1..]);
    PointsInto(line[..], start, text, end);
    if line[end] == ']' {
      assert text[1..][..end - start - 1] == text[1..end - start];
      Cut(line, start + 1, end, text[1..]);
      IniStrncpy0(section, line, start + 1, section.Length, text[1..end - start]);
      Cut(prevName, 0, 0, prev);
      assert prev[..0] == "";
      return false;
    }
    return true;
  }

  // Not a comment, must be a name[=:]value pair.
  method PairLine(line: array<char>, start: nat, section: array<char>, prevName: array<char>, reader: Reader,
                  ghost text: string, ghost sec: string, ghost prev: string) returns (bad: bool)
    requires IsCStr(line[..], start, text) && line != section && line != prevName
    requires Remembers(section, prevName, sec, prev)
    modifies line, prevName, reader
    ensures var end := Stop(text, "=:");
            var name := TrimRight(text[..end]);
            && bad == !(end < |text| && text[end] in "=:")
            && (bad ==> Remembers(section, prevName, sec, prev) && reader.values == old(reader.values))
            && (!bad ==>
                  && Remembers(section, prevName, sec, Take(name, MAX_NAME - 1))
                  && reader.values == Added(old(reader.values), sec, name,
                                            TrimRight(TrimLeft(WithoutComment(text[end + 1..])))))
  {
    hide IsCStr, StopFrom, TrimLeft, TrimRight;
    var end := IniFindCharsOrComment(line, start, "=:", text);
    PointsInto(line[..], start, text, end);
    if line[end] != '=' && line[end] != ':' {
      return true;
    }
    var valueAt := end + 1;
    ghost var n, v := text[..end - start], text[end - start + 1..];
    SuffixCStr(line[..], start, text, end - start + 1);
    ghost var whole := line[..];
    Cut(line, start, end, text);
    IniRStrip(line, start, end, n);
    SameCStr(whole, line[..], valueAt, v);
    ghost var named := line[..];
    end := IniFindCharsOrComment(line, valueAt, "", v);
    Cut(line, valueAt, end, v);
    var value := IniLSkip(line, valueAt, WithoutComment(v));
    IniRStrip(line, value, end, TrimLeft(WithoutComment(v)));
    SameCStr(named, line[..], start, TrimRight(n));
    IniStrncpy0(prevName, line, start, prevName.Length, TrimRight(n));
    var sectionString := ToString(section, 0, sec);
    var nameString := ToString(line, start, TrimRight(n));
    var valueString := ToString(line, value, TrimRight(TrimLeft(WithoutComment(v))));
    reader.ValueHandler(sectionString, nameString, valueString);
    return false;
  }

  // A UTF-8 byte order mark is skipped at the start of the first line.
  method SkipMark(line: array<char>, lineno: nat, ghost text: string) returns (start: nat)
    requires IsCStr(line[..], 0, text)
    ensures start + |SkipBom(text, lineno)| == |text|
    ensures IsCStr(line[..], start, SkipBom(text, lineno))
  {
    start := 0;
    if lineno == 1 && line[0] == BOM[0] && line[1] == BOM[1] && line[2] == BOM[2] {
      start := 3;
      assert text[..3] == BOM;
      SuffixCStr(line[..], 0, text, 3);
    } else if |text| >= 3 {
      assert text[..3] == BOM ==> text[0] == BOM[0] && text[1] == BOM[1] && text[2] == BOM[2];
    }
  }

  // What the loop body does with a line once it is read.
  method ProcessLine(line: array<char>, offset: nat, lineno: nat, section: array<char>, prevName: array<char>,
                     reader: Reader, ghost text: string, ghost sec: string, ghost prev: string) returns (bad: bool)
    requires IsCStr(line[..], 0, text) && offset == |text| && line != section && line != prevName
    requires Remembers(section, prevName, sec, prev)
    modifies line, section, prevName, reader
    ensures var r := ParseLine(text, lineno, sec, prev);
            && bad == r.bad && Remembers(section, prevName, r.section, r.prevName)
            && reader.values ==
               if r.call.Call? then Added(old(reader.values), sec, r.call.name, r.call.value) else old(reader.values)
  {
    hide IsCStr, SkipBom, StopFrom, TrimLeft, TrimRight;
    var start := SkipMark(line, lineno, text);
    ghost var body := TrimLeft(SkipBom(text, lineno));
    start := IniLSkip(line, start, SkipBom(text, lineno));
    IniRStrip(line, start, offset, body);
    ghost var stripped := TrimRight(body);
    PointsInto(line[..], start, stripped, start);
    PointsInto(prevName[..], 0, prev, 0);
    assert stripped[0..] == stripped && prev[0..] == prev;
    bad := false;
    if line[start] in ";#\0" {
      // Start-of-line comment, or a blank line
    } else if prevName[0] != '\0' && line[start] != '\0' && start > 0 {
      ContinuationLine(line, start, section, prevName, reader, stripped, sec, prev);
    } else if line[start] == '[' {
      bad := SectionLine(line, start, section, prevName, stripped, sec, prev);
    } else if line[start] != '\0' {
      bad := PairLine(line, start, section, prevName, reader, stripped, sec, prev);
    }
  }

  // --------------------------------------------------------------------------
  // The whole stream
  // --------------------------------------------------------------------------

  // Reads the next physical line into the buffer, as much of it as fits, and discards the rest.
  method ReadLine(stream: StringStream, line: array<char>, ghost all: string) returns (ok: bool, offset: nat, tooLong: bool)
    requires stream.rest == all && '\0' !in all && line.Length == MAX_LINE
    modifies stream, line
    ensures ok <==> all != ""
    ensures stream.rest == all[|PhysicalLine(all)|..]
    ensures ok ==>
              && IsCStr(line[..], 0, Take(PhysicalLine(all), MAX_LINE - 1)) &&
                  offset == |Take(PhysicalLine(all), MAX_LINE - 1)|
              && tooLong == TooLong(PhysicalLine(all))
  {
    hide IsCStr, Chunk, PhysicalLine;
    offset, tooLong := 0, false;
    NothingAfterEnd();
    ok := stream.Read(line, line.Length);
    if !ok {
      return;
    }
    ghost var c := Chunk(all, MAX_LINE - 1);
    LineAfterChunk(all, MAX_LINE - 1);
    offset := StrLen(line, c);
    if offset > 0 {
      InsideCStr(line[..], 0, c, offset - 1);
    }
    if offset == line.Length - 1 && line[offset - 1] != '\n' {
      NotInSuffix(all, MAX_LINE - 1);
      ghost var rest := all[MAX_LINE - 1..];
      tooLong := Discard(stream);
      assert rest[|PhysicalLine(rest)|..] == all[|PhysicalLine(all)|..];
      assert PhysicalLine(all)[..MAX_LINE - 1] == c;
      LineIsNonempty(rest);
    }
  }

  lemma LineIsNonempty(text: string)
    ensures text != "" <==> PhysicalLine(text) != ""
  {
  }

  // Parses the text and hands every name/value pair to the reader; the result is 0 or the number of
  // the first line with an error.
  method IniParseStream(text: string, reader: Reader) returns (error: nat)
    requires '\0' !in text
    modifies reader
    ensures var st := Run(State(0, "", "", 0, old(reader.values)), text);
            error == st.error && reader.values == st.values
  {
    hide IsCStr, PhysicalLine, Step, Run, ParseLine, Added, Take, TooLong;
    var stream := new StringStream(text);
    var line := new char[MAX_LINE];
    var section := new char[MAX_SECTION];
    var prevName := new char[MAX_NAME];
    Clear(section);
    Clear(prevName);
    ghost var st := State(0, "", "", 0, reader.values);
    ghost var all := Run(st, text);
    var lineno := 0;
    error := 0;
    while true
      invariant fresh(stream) && fresh(line) && fresh(section) && fresh(prevName)
      invariant line != section && line != prevName && line.Length == MAX_LINE
      invariant '\0' !in stream.rest && Run(st, stream.rest) == all
      invariant Remembers(section, prevName, st.section, st.prevName)
      invariant lineno == st.lineno && error == st.error && reader.values == st.values
      decreases |stream.rest|
    {
      ghost var rest := stream.rest;
      var ok, offset, tooLong := ReadLine(stream, line, rest);
      if !ok {
        RunStep(st, rest);
        break;
      }
      LineIsNonempty(rest);
      NotInSuffix(rest, |PhysicalLine(rest)|);
      RunStep(st, rest);
      lineno := lineno + 1;
      ghost var physical := PhysicalLine(rest);
      if tooLong && error == 0 {
        error := lineno;
      }
      var bad := ProcessLine(line, offset, lineno, section, prevName, reader, Take(physical, MAX_LINE - 1),
                             st.section, st.prevName);
      if bad && error == 0 {
        error := lineno;
      }
      StepIs(st, physical);
      st := Step(st, physical);
    }
  }

  lemma RunStep(st: State, text: string)
    ensures Run(st, "") == st
    ensures text != "" ==> Run(st, text) == Run(Step(st, PhysicalLine(text)), text[|PhysicalLine(text)|..])
  {
    hide Step, PhysicalLine;
  }

  lemma StepIs(st: State, line: string)
    ensures var r := ParseLine(Take(line, MAX_LINE - 1), st.lineno + 1, st.section, st.prevName);
            Step(st, line) ==
            State(st.lineno + 1, r.section, r.prevName,
                  if st.error == 0 && (TooLong(line) || r.bad) then st.lineno + 1 else st.error,
                  if r.call.Call? then Added(st.values, st.section, r.call.name, r.call.value) else st.values)
  {
  }

  method Clear(a: array<char>)
    requires a.Length > 0
    modifies a
    ensures IsCStr(a[..], 0, "")
  {
    a[0] := '\0';
  }
}
