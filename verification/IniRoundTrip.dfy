/**
 Printing a configuration and parsing it again: every value is read back, through comments, padding,
 continuation lines and either delimiter.
 */
module IniRoundTrip {
  import opened Common
  import opened IniReader
  import opened IniSpec
  import Ini

  // The lines of a configuration file: blank lines, comment lines, section headers with text behind
  // them, name/value pairs, and further lines of the value before, the last two with an inline comment.
  datatype Item =
    | Blank(pad: string)
    | Remark(pad: string, text: string)
    | Header(title: string, trailer: string)
    | Entry(name: string, before: string, delimiter: char, after: string, value: string, gap: string, comment: string)
    | More(pad: string, value: string, gap: string, comment: string)

  function LineOf(item: Item): string {
    match item
    case Blank(pad) => pad
    case Remark(pad, text) => pad + text
    case Header(title, trailer) => "[" + title + "]" + trailer
    case Entry(name, before, delimiter, after, value, gap, comment) =>
      name + before + [delimiter] + after + value + gap + comment
    case More(pad, value, gap, comment) => pad + value + gap + comment
  }

  function PrintItem(item: Item): string { LineOf(item) + "\n" }

  function Print(items: seq<Item>): string {
    if items == [] then "" else PrintItem(items[0]) + Print(items[1..])
  }

  // --------------------------------------------------------------------------
  // What the items mean, without reference to text
  // --------------------------------------------------------------------------

  datatype Setting = Setting(key: string, value: string)

  // Titles, and the name that a further line belongs to, are remembered up to 49 characters.
  function Remembered(s: string): string { if |s| <= 49 then s else s[..49] }

  function SectionAfter(item: Item, section: string): string {
    if item.Header? then Remembered(item.title) else section
  }

  function NameAfter(item: Item, last: string): string {
    match item
    case Header(_, _) => ""
    case Entry(name, _, _, _, _, _, _) => Remembered(name)
    case _ => last
  }

  function Settings(items: seq<Item>, section: string, last: string): seq<Setting>
    decreases |items|
  {
    if items == [] then []
    else
      var rest := Settings(items[1..], SectionAfter(items[0], section), NameAfter(items[0], last));
      match items[0]
      case Entry(name, _, _, _, value, _, _) => [Setting(MakeKey(section, name), value)] + rest
      case More(_, value, _, _) => [Setting(MakeKey(section, last), value)] + rest
      case _ => rest
  }

  // A key that is set more than once collects the values, one to a line.
  function Collected(settings: seq<Setting>, key: string, value: Option<string>): Option<string>
    decreases |settings|
  {
    if settings == [] then value
    else Collected(settings[1..], key, if settings[0].key == key then Some(Longer(value, settings[0].value)) else value)
  }

  function Longer(value: Option<string>, more: string): string {
    if value.Some? && value.value != "" then value.value + "\n" + more else more
  }

  function Lookup(values: Values, key: string): Option<string> {
    if key in values then Some(values[key]) else None
  }

  // --------------------------------------------------------------------------
  // The printable domain
  // --------------------------------------------------------------------------

  predicate White(s: string) { forall c | c in s :: IsSpace(c) }

  predicate NoComment(s: string) {
    forall k | 0 < k < |s| && s[k] == ';' :: !IsSpace(s[k - 1])
  }

  predicate Trimmed(s: string) {
    s != "" ==> !IsSpace(s[0]) && !IsSpace(s[|s| - 1])
  }

  // An inline comment begins with a semicolon behind white space.
  predicate CleanTail(gap: string, comment: string) {
    White(gap) && (comment != "" ==> gap != "" && comment[0] == ';')
  }

  predicate CleanName(name: string) {
    NoComment(name) && Trimmed(name) && '=' !in name && ':' !in name && (name != "" ==> name[0] !in "[;#")
  }

  predicate CleanValue(value: string) { NoComment(value) && Trimmed(value) }

  predicate Plain(s: string) { '\n' !in s && '\0' !in s }

  predicate Clean(item: Item) {
    && Plain(LineOf(item)) && |LineOf(item)| < 199
    && match item
       case Blank(pad) => White(pad)
       case Remark(pad, text) => White(pad) && text != "" && text[0] in ";#"
       case Header(title, _) => NoComment(title) && ']' !in title
       case Entry(name, before, delimiter, after, value, gap, comment) =>
         && CleanName(name) && White(before) && (name == "" ==> before == "") && delimiter in "=:"
         && CleanValue(value) && White(after) && (after != "" && value != "" ==> value[0] != ';')
         && CleanTail(gap, comment)
       case More(pad, value, gap, comment) =>
         && White(pad) && pad != "" && CleanValue(value) && value != "" && value[0] !in ";#"
         && CleanTail(gap, comment)
  }

  // Further lines follow a pair with a name.
  ghost predicate Printable(items: seq<Item>, last: string)
    decreases |items|
  {
    items == [] ||
    (&& Clean(items[0]) && (items[0].More? ==> last != "")
     && Printable(items[1..], NameAfter(items[0], last)))
  }

  // The text does not by chance begin with a byte order mark.
  ghost predicate Unmarked(items: seq<Item>) {
    items != [] && items[0].Entry? ==> !IsPrefix(BOM, items[0].name)
  }

  // --------------------------------------------------------------------------
  // Trimming and searching
  // --------------------------------------------------------------------------

  lemma {:induction false} TrimLeftSkips(pad: string, s: string)
    requires White(pad) && (s == "" || !IsSpace(s[0]))
    ensures TrimLeft(pad + s) == s
  {
    if pad == "" {
      assert pad + s == s;
    } else {
      assert (pad + s)[1..] == pad[1..] + s;
      TrimLeftSkips(pad[1..], s);
    }
  }

  lemma {:induction false} TrimRightSkips(s: string, pad: string)
    requires White(pad)
    ensures TrimRight(s + pad) == TrimRight(s)
  {
    if pad == "" {
      assert s + pad == s;
    } else {
      assert (s + pad)[..|s + pad| - 1] == s + pad[..|pad| - 1];
      TrimRightSkips(s, pad[..|pad| - 1]);
    }
  }

  lemma {:induction false} TrimRightKeeps(head: string, s: string)
    requires head != "" && !IsSpace(head[|head| - 1])
    ensures TrimRight(head + s) == head + TrimRight(s)
  {
    if s == "" || !IsSpace(s[|s| - 1]) {
      assert s == "" ==> head + s == head;
    } else {
      assert (head + s)[..|head + s| - 1] == head + s[..|s| - 1];
      TrimRightKeeps(head, s[..|s| - 1]);
    }
  }

  // The search passes over text with neither the characters sought nor a comment.
  lemma StopBehind(s: string, rest: string, chars: string)
    requires NoComment(s) && forall k | 0 <= k < |s| :: s[k] !in chars
    requires rest == "" || rest[0] in chars || (s != "" && IsSpace(s[|s| - 1]) && rest[0] == ';')
    ensures Stop(s + rest, chars) == |s|
  {
    var text, n := s + rest, Stop(s + rest, chars);
    StopIsFirst(text, chars, false);
    forall i | 0 <= i < |s|
      ensures !StopsAt(text, chars, false, i)
    {
      assert text[i] == s[i] && (i > 0 ==> text[i - 1] == s[i - 1]);
    }
    if |s| < |text| {
      assert StopsAt(text, chars, false, |s|);
    }
  }

  lemma NoCommentInPadded(after: string, value: string, gap: string)
    requires White(after) && White(gap) && NoComment(value) && (after != "" && value != "" ==> value[0] != ';')
    ensures NoComment(after + value + gap)
  {
    var s := after + value + gap;
    forall k | 0 < k < |s|
      ensures s[k] == ';' ==> !IsSpace(s[k - 1])
    {
      var j := k - |after|;
      if j < 0 {
        assert s[k] == after[k] && after[k] in after;
      } else if j >= |value| {
        assert s[k] == gap[j - |value|] && gap[j - |value|] in gap;
      } else {
        assert s[k] == value[j] && (j > 0 ==> s[k - 1] == value[j - 1]);
      }
    }
  }

  // --------------------------------------------------------------------------
  // The value on a line
  // --------------------------------------------------------------------------

  // A value with padding and a comment behind it, cut out as the parser does it.
  lemma ValueIsCut(after: string, value: string, gap: string, comment: string)
    requires White(after) && CleanValue(value) && (after != "" && value != "" ==> value[0] != ';')
    requires CleanTail(gap, comment)
    ensures TrimRight(TrimLeft(WithoutComment(TrimRight(after + value + gap + comment)))) == value
  {
    hide TrimLeft, TrimRight, StopFrom, NoComment, WithoutComment;
    var padded := after + value + gap;
    NoCommentInPadded(after, value, gap);
    if comment == "" {
      assert padded + comment == padded;
      TrimRightSkips(after + value, gap);
      NoCommentInPadded(after, value, "");
      ValueWithoutComment(after, value);
    } else {
      var head := padded + [';'];
      assert padded + comment == head + comment[1..];
      TrimRightKeeps(head, comment[1..]);
      var rest := [';'] + TrimRight(comment[1..]);
      assert head + TrimRight(comment[1..]) == padded + rest;
      StopBehind(padded, rest, "");
      CommentGoes(padded, rest);
      TrimValue(after, value, gap);
    }
  }

  lemma CommentGoes(s: string, rest: string)
    requires Stop(s + rest, "") == |s|
    ensures WithoutComment(s + rest) == s
  {
  }

  lemma TrimValue(after: string, value: string, gap: string)
    requires White(after) && White(gap) && Trimmed(value)
    ensures TrimRight(TrimLeft(after + value + gap)) == value
  {
    hide TrimLeft, TrimRight;
    assert after + value + gap == after + (value + gap);
    if value == "" {
      assert value + gap == gap && after + gap + "" == after + gap;
      TrimLeftSkips(after + gap, "");
      TrimRightSkips("", "");
      TrimRightOfTrimmed("");
    } else {
      TrimLeftSkips(after, value + gap);
      TrimRightSkips(value, gap);
      TrimRightOfTrimmed(value);
    }
  }

  lemma TrimRightOfTrimmed(s: string)
    requires Trimmed(s)
    ensures TrimRight(s) == s
  {
  }

  lemma ValueWithoutComment(after: string, value: string)
    requires White(after) && Trimmed(value) && NoComment(after + value + "")
    ensures TrimRight(TrimLeft(WithoutComment(TrimRight(after + value)))) == value
  {
    hide TrimLeft, TrimRight, StopFrom, WithoutComment;
    if value == "" {
      assert after + value == after && "" + after == after;
      TrimRightSkips("", after);
      TrimRightOfTrimmed("");
      StopBehind("", "", "");
      CommentGoes("", "");
      assert "" + "" == "";
      TrimLeftSkips("", "");
    } else {
      TrimRightKeeps(after + value, "");
      TrimRightOfTrimmed("");
      assert after + value + "" == after + value;
      StopBehind(after + value, "", "");
      CommentGoes(after + value, "");
      TrimValue(after, value, "");
    }
  }

  // --------------------------------------------------------------------------
  // One printed line
  // --------------------------------------------------------------------------

  // The line without the white space around it.
  lemma TrimLine(pad: string, text: string)
    requires White(pad) && text != "" && !IsSpace(text[0])
    ensures TrimLeft(pad + text + "\n") == text + "\n" && TrimRight(text + "\n") == TrimRight(text)
  {
    assert pad + text + "\n" == pad + (text + "\n");
    TrimLeftSkips(pad, text + "\n");
    TrimRightSkips(text, "\n");
  }

  lemma FirstStays(text: string)
    requires text != "" && !IsSpace(text[0])
    ensures TrimRight(text) != "" && TrimRight(text)[0] == text[0]
  {
    hide TrimRight;
    assert text == [text[0]] + text[1..];
    TrimRightKeeps([text[0]], text[1..]);
  }

  lemma RemarkResult(pad: string, text: string, line: string, lineno: nat, section: string, prevName: string)
    requires line == pad + text + "\n" && SkipBom(line, lineno) == line
    requires White(pad) && text != "" && text[0] in ";#"
    ensures ParseLine(line, lineno, section, prevName) == LineResult(section, prevName, NoCall, false)
  {
    hide TrimLeft, TrimRight, SkipBom, White;
    TrimLine(pad, text);
    FirstStays(text);
  }

  lemma BlankResult(pad: string, line: string, lineno: nat, section: string, prevName: string)
    requires line == pad + "\n" && SkipBom(line, lineno) == line && White(pad)
    ensures ParseLine(line, lineno, section, prevName) == LineResult(section, prevName, NoCall, false)
  {
    hide TrimLeft, TrimRight, SkipBom;
    assert line + "" == line;
    TrimLeftSkips(line, "");
    TrimRightOfTrimmed("");
  }

  lemma HeaderResult(title: string, trailer: string, line: string, lineno: nat, section: string, prevName: string)
    requires line == "[" + title + "]" + trailer + "\n" && SkipBom(line, lineno) == line
    requires NoComment(title) && ']' !in title
    ensures ParseLine(line, lineno, section, prevName) == LineResult(Remembered(title), "", NoCall, false)
  {
    hide TrimLeft, TrimRight, StopFrom, SkipBom, NoComment;
    var head := "[" + title + "]";
    var text := head + TrimRight(trailer);
    assert line == "" + (head + trailer) + "\n";
    TrimLine("", head + trailer);
    TrimRightKeeps(head, trailer);
    assert text[1..] == title + ("]" + TrimRight(trailer));
    StopBehind(title, "]" + TrimRight(trailer), "]");
    assert text[1..|title| + 1] == title;
  }

  lemma MoreResult(pad: string, value: string, gap: string, comment: string, line: string, lineno: nat,
                   section: string, prevName: string)
    requires line == pad + value + gap + comment + "\n" && SkipBom(line, lineno) == line
    requires White(pad) && pad != "" && CleanValue(value) && value != "" && value[0] !in ";#"
    requires CleanTail(gap, comment) && prevName != ""
    ensures ParseLine(line, lineno, section, prevName) == LineResult(section, prevName, Call(prevName, value), false)
  {
    hide TrimLeft, TrimRight, StopFrom, SkipBom, NoComment, WithoutComment, White;
    var text := value + gap + comment;
    assert line == pad + text + "\n";
    TrimLine(pad, text);
    FirstStays(text);
    WholeValueIsCut(value, gap, comment);
  }

  lemma WholeValueIsCut(value: string, gap: string, comment: string)
    requires CleanValue(value) && value != "" && CleanTail(gap, comment)
    ensures TrimRight(WithoutComment(TrimRight(value + gap + comment))) == value
  {
    hide TrimLeft, TrimRight, StopFrom, NoComment;
    var text := value + gap + comment;
    assert "" + value + gap + comment == text;
    ValueIsCut("", value, gap, comment);
    FirstStays(text);
    var cut := WithoutComment(TrimRight(text));
    StopIsFirst(TrimRight(text), "", false);
    assert StopsAt(TrimRight(text), "", false, 0) ==> false;
    assert cut != "" && !IsSpace(cut[0]);
    assert "" + cut == cut;
    TrimLeftSkips("", cut);
  }

  lemma EntryResult(item: Item, line: string, lineno: nat, section: string, prevName: string)
    requires item.Entry? && Clean(item) && line == PrintItem(item) && SkipBom(line, lineno) == line
    ensures ParseLine(line, lineno, section, prevName) ==
            LineResult(section, NameAfter(item, prevName), Call(item.name, item.value), false)
  {
    hide TrimLeft, TrimRight, Stop, SkipBom, Plain, NoComment, White, WithoutComment, ParseText, LineOf;
    var Entry(name, before, delimiter, after, value, gap, comment) := item;
    var padded, tail := name + before, after + value + gap + comment;
    var head := padded + [delimiter];
    PartsOfEntry(item);
    assert line == "" + (head + tail) + "\n";
    FirstOfEntry(name, before, delimiter, tail);
    TrimLine("", head + tail);
    TrimRightKeeps(head, tail);
    NameIsCut(name, before, [delimiter] + TrimRight(tail));
    ValueIsCut(after, value, gap, comment);
    PairIsCut(padded, delimiter, TrimRight(tail), section, prevName);
  }

  lemma PartsOfEntry(item: Item)
    requires item.Entry?
    ensures PrintItem(item) ==
            item.name + item.before + [item.delimiter] + (item.after + item.value + item.gap + item.comment) + "\n"
    ensures White("")
  {
  }

  lemma PairIsCut(padded: string, delimiter: char, tail: string, section: string, prevName: string)
    requires Stop(padded + ([delimiter] + tail), "=:") == |padded| && delimiter in "=:"
    requires (padded + [delimiter] + tail)[0] !in ";#["
    ensures ParseText(padded + [delimiter] + tail, false, section, prevName) ==
            LineResult(section, Take(TrimRight(padded), 49),
                       Call(TrimRight(padded), TrimRight(TrimLeft(WithoutComment(tail)))), false)
  {
    hide TrimLeft, TrimRight, Stop, WithoutComment, ParseText, Take;
    SplitAt(padded, delimiter, tail);
    PairResult(padded + [delimiter] + tail, |padded|, section, prevName);
  }

  lemma SplitAt(padded: string, delimiter: char, tail: string)
    ensures var text := padded + [delimiter] + tail;
            && text == padded + ([delimiter] + tail) && |padded| < |text| && text[|padded|] == delimiter
            && text[..|padded|] == padded && text[|padded| + 1..] == tail
  {
  }

  lemma FirstOfEntry(name: string, before: string, delimiter: char, tail: string)
    requires CleanName(name) && (name == "" ==> before == "") && delimiter in "=:" && White("")
    ensures var line := name + before + [delimiter] + tail; !IsSpace(line[0]) && line[0] !in ";#["
  {
  }

  lemma NameIsCut(name: string, before: string, rest: string)
    requires CleanName(name) && White(before) && rest != "" && rest[0] in "=:"
    ensures Stop(name + before + rest, "=:") == |name + before| && TrimRight(name + before) == name
  {
    hide TrimRight, Stop, StopFrom, NoComment, IsSpace;
    NoCommentInPadded("", name, before);
    assert "" + name + before == name + before;
    NoDelimiter(name, before);
    hide White;
    StopBehind(name + before, rest, "=:");
    TrimRightSkips(name, before);
    TrimRightOfTrimmed(name);
  }

  lemma NoDelimiter(name: string, before: string)
    requires '=' !in name && ':' !in name && White(before)
    ensures forall k | 0 <= k < |name + before| :: (name + before)[k] !in "=:"
  {
    forall k | 0 <= k < |name + before|
      ensures (name + before)[k] !in "=:"
    {
      if k >= |name| {
        assert (name + before)[k] == before[k - |name|] && before[k - |name|] in before;
      }
    }
  }

  // A pair is a pair whatever the previous name: it is not indented.
  lemma PairResult(text: string, end: nat, section: string, prevName: string)
    requires text != "" && text[0] !in ";#[" && Stop(text, "=:") == end < |text| && text[end] in "=:"
    ensures var name, value := TrimRight(text[..end]), TrimRight(TrimLeft(WithoutComment(text[end + 1..])));
            ParseText(text, false, section, prevName) ==
            LineResult(section, Take(name, MAX_NAME - 1), Call(name, value), false)
  {
    hide Stop, WithoutComment, TrimLeft, TrimRight, Take;
  }

  function CallOf(item: Item, prevName: string): Call {
    match item
    case Entry(name, _, _, _, value, _, _) => Call(name, value)
    case More(_, value, _, _) => Call(prevName, value)
    case _ => NoCall
  }

  lemma PrintedItem(item: Item, lineno: nat, section: string, prevName: string)
    requires Clean(item) && (item.More? ==> prevName != "") && (lineno == 1 ==> Unmarked([item]))
    ensures ParseLine(PrintItem(item), lineno, section, prevName) ==
            LineResult(SectionAfter(item, section), NameAfter(item, prevName), CallOf(item, prevName), false)
  {
    hide ParseLine, SkipBom, NoComment;
    var line := PrintItem(item);
    NoBom(item, lineno);
    match item {
      case Blank(pad) => BlankResult(pad, line, lineno, section, prevName);
      case Remark(pad, text) => RemarkResult(pad, text, line, lineno, section, prevName);
      case Header(title, trailer) => HeaderResult(title, trailer, line, lineno, section, prevName);
      case Entry(_, _, _, _, _, _, _) => EntryResult(item, line, lineno, section, prevName);
      case More(pad, value, gap, comment) => MoreResult(pad, value, gap, comment, line, lineno, section, prevName);
    }
  }

  lemma NoBom(item: Item, lineno: nat)
    requires Clean(item) && (lineno == 1 ==> Unmarked([item]))
    ensures SkipBom(PrintItem(item), lineno) == PrintItem(item)
  {
    var line := PrintItem(item);
    if lineno == 1 && |line| >= 3 && line[..3] == BOM {
      assert line[0] == BOM[0] && line[1] == BOM[1] && line[2] == BOM[2];
      if item.Entry? {
        NoBomInName(item.name, item.before, item.delimiter, line);
      } else {
        NoBomInPadded(item, line);
      }
    }
  }

  lemma NoBomInPadded(item: Item, line: string)
    requires Clean(item) && !item.Entry? && line == PrintItem(item)
    ensures line[0] != BOM[0]
  {
    hide NoComment;
    if !item.Header? {
      assert item.pad != "" ==> line[0] == item.pad[0] && item.pad[0] in item.pad;
      assert item.pad == "" && item.Remark? ==> line[0] == item.text[0];
    }
  }

  lemma NoBomInName(name: string, before: string, delimiter: char, line: string)
    requires White(before) && delimiter in "=:" && |name + before + [delimiter]| <= |line|
    requires line[..|name + before + [delimiter]|] == name + before + [delimiter] && !IsPrefix(BOM, name)
    ensures !(|line| >= 3 && line[..3] == BOM)
  {
    var head := name + before + [delimiter];
    if |name| >= 3 {
      assert line[..3] == head[..3] == name[..3];
    } else {
      var c := head[|name|];
      assert c == if before != "" then before[0] else delimiter;
      assert before != "" ==> before[0] in before;
      assert c !in BOM && line[|name|] == c;
      assert |line| >= 3 ==> line[..3][|name|] == c;
    }
  }

  // --------------------------------------------------------------------------
  // Physical lines
  // --------------------------------------------------------------------------

  lemma {:induction false} ChunkIsLine(s: string, rest: string, n: nat)
    requires '\n' !in s && n > |s|
    ensures Chunk(s + "\n" + rest, n) == s + "\n"
  {
    if s != "" {
      assert (s + "\n" + rest)[1..] == s[1..] + "\n" + rest;
      ChunkIsLine(s[1..], rest, n - 1);
      assert [s[0]] + (s[1..] + "\n") == s + "\n";
    }
  }

  lemma {:induction false} ChunkIsRest(s: string, n: nat)
    requires '\n' !in s && n >= |s|
    ensures Chunk(s, n) == s
  {
    if s != "" {
      ChunkIsRest(s[1..], n - 1);
    }
  }

  // A physical line goes up to the first newline, or to the end of the text.
  lemma LineEndsAtNewline(s: string, rest: string)
    requires '\n' !in s
    ensures PhysicalLine(s + "\n" + rest) == s + "\n" && PhysicalLine(s) == s
  {
    ChunkIsLine(s, rest, |s + "\n" + rest|);
    ChunkIsRest(s, |s|);
  }

  lemma {:induction false} ChunkIsTaken(text: string, n: nat, m: nat)
    requires n <= m
    ensures Chunk(text, n) == Take(Chunk(text, m), n)
  {
    if n > 0 && text != "" && text[0] != '\n' {
      ChunkIsTaken(text[1..], n - 1, m - 1);
    }
  }

  // --------------------------------------------------------------------------
  // The round trip
  // --------------------------------------------------------------------------

  lemma PrintedStep(st: State, item: Item)
    requires Clean(item) && (item.More? ==> st.prevName != "") && (st.lineno == 0 ==> Unmarked([item]))
    ensures var st', call := Step(st, PrintItem(item)), CallOf(item, st.prevName);
            && st'.lineno == st.lineno + 1 && st'.error == st.error
            && st'.section == SectionAfter(item, st.section) && st'.prevName == NameAfter(item, st.prevName)
            && st'.values == if call.Call? then Added(st.values, st.section, call.name, call.value) else st.values
  {
    hide ParseLine, Added, Clean, SectionAfter, NameAfter;
    FitsLine(item);
    PrintedItem(item, st.lineno + 1, st.section, st.prevName);
  }

  lemma FitsLine(item: Item)
    requires Clean(item)
    ensures |PrintItem(item)| < MAX_LINE
  {
  }

  lemma AddedMeans(values: Values, section: string, name: string, value: string, key: string)
    ensures Lookup(Added(values, section, name, value), key) ==
            if key == MakeKey(section, name) then Some(Longer(Lookup(values, key), value)) else Lookup(values, key)
  {
    hide MakeKey;
    assert "" + value == value;
  }

  // Parsing what was printed gives every key the values set for it, without error.
  lemma {:induction false} PrintedIsParsed(st: State, items: seq<Item>, key: string)
    requires Printable(items, st.prevName) && (st.lineno == 0 ==> Unmarked(items))
    ensures var st' := Run(st, Print(items));
            && st'.error == st.error
            && Lookup(st'.values, key) == Collected(Settings(items, st.section, st.prevName), key, Lookup(st.values, key))
    decreases |items|
  {
    if items != [] {
      hide Step, MakeKey, Clean, Added, Lookup, NameAfter, SectionAfter;
      var item, rest, text := items[0], items[1..], Print(items);
      var call := CallOf(item, st.prevName);
      assert Unmarked(items) ==> Unmarked([item]);
      PrintedLine(item, Print(rest));
      assert text[|PrintItem(item)|..] == Print(rest);
      PrintedStep(st, item);
      if call.Call? {
        AddedMeans(st.values, st.section, call.name, call.value, key);
      }
      SettingsStep(items, st.section, st.prevName);
      PrintedIsParsed(Step(st, PrintItem(item)), rest, key);
    }
  }

  lemma PrintedLine(item: Item, rest: string)
    requires Clean(item)
    ensures PhysicalLine(PrintItem(item) + rest) == PrintItem(item)
  {
    LineEndsAtNewline(LineOf(item), rest);
  }

  lemma SettingsStep(items: seq<Item>, section: string, last: string)
    requires items != []
    ensures var item, call := items[0], CallOf(items[0], last);
            var rest := Settings(items[1..], SectionAfter(item, section), NameAfter(item, last));
            Settings(items, section, last) ==
            if call.Call? then [Setting(MakeKey(section, call.name), call.value)] + rest else rest
  {
    hide MakeKey, SectionAfter, NameAfter;
  }

  lemma {:induction false} NeverSet(settings: seq<Setting>, key: string, value: Option<string>)
    requires forall s | s in settings :: s.key != key
    ensures Collected(settings, key, value) == value
    decreases |settings|
  {
    if settings != [] {
      NeverSet(settings[1..], key, value);
    }
  }

  lemma {:induction false} SetOnce(settings: seq<Setting>, i: nat, value: Option<string>)
    requires i < |settings| && forall k | 0 <= k < |settings| && k != i :: settings[k].key != settings[i].key
    ensures Collected(settings, settings[i].key, value) == Some(Longer(value, settings[i].value))
    decreases |settings|
  {
    var rest := settings[1..];
    if i == 0 {
      assert forall k | 0 <= k < |rest| :: rest[k] == settings[k + 1];
      NeverSet(rest, settings[i].key, Some(Longer(value, settings[i].value)));
    } else {
      SetOnce(rest, i - 1, value);
    }
  }

  // A line of 200 or more characters is an error, and only its first 199 are parsed.
  lemma LongLineIsCut(st: State, line: string)
    requires |line| >= 200
    ensures Step(st, line).error != 0 && ResultOf(st, line) == ParseLine(line[..199], st.lineno + 1, st.section, st.prevName)
  {
    hide ParseLine;
  }

  // What a reader holds once it has read the items: every key that was set once has its value, one
  // that was set more often all of them, and nothing else is there.
  ghost predicate Holds(values: Values, items: seq<Item>) {
    var settings := Settings(items, "", "");
    && (forall key :: Lookup(values, key) == Collected(settings, key, None))
    && (forall i | 0 <= i < |settings| ::
          (forall k | 0 <= k < |settings| && k != i :: settings[k].key != settings[i].key) ==>
          Lookup(values, settings[i].key) == Some(settings[i].value))
    && (forall key | (forall s | s in settings :: s.key != key) :: key !in values)
  }

  lemma RoundTrip(items: seq<Item>)
    requires Printable(items, "") && Unmarked(items)
    ensures Run(START, Print(items)).error == 0 && Holds(Run(START, Print(items)).values, items)
  {
    hide Run, Print, Settings, Collected;
    var values, settings := Run(START, Print(items)).values, Settings(items, "", "");
    PrintedIsParsed(START, items, "");
    forall key
      ensures Lookup(values, key) == Collected(settings, key, None)
    {
      PrintedIsParsed(START, items, key);
    }
    forall i | 0 <= i < |settings| && forall k | 0 <= k < |settings| && k != i :: settings[k].key != settings[i].key
      ensures Lookup(values, settings[i].key) == Some(settings[i].value)
    {
      SetOnce(settings, i, None);
    }
    forall key | forall s | s in settings :: s.key != key
      ensures key !in values
    {
      NeverSet(settings, key, None);
    }
  }

  // An inline comment is no part of the value, and white space around the delimiter is none of it either.
  lemma CommentIsDropped(name: string, value: string, comment: string, defaultValue: string)
    requires CleanName(name) && name != "" && CleanValue(value) && (value != "" ==> value[0] != ';') && !IsPrefix(BOM, name)
    requires Plain(name) && Plain(value) && Plain(comment) && |name| + |value| + |comment| < 194
    ensures var st := Run(START, name + " = " + value + " ;" + comment + "\n");
            st.error == 0 && Get(st.values, "", name, defaultValue) == value
  {
    hide Run, CleanName, CleanValue, Print, PrintItem, Settings, Clean, MakeKey, Collected, IsPrefix, Printable, Plain,
         Unmarked;
    var item := PaddedEntry(name, value, comment);
    OneItem(item);
    PrintedIsParsed(START, [item], MakeKey("", name));
    CollectedOne(MakeKey("", name), value);
  }

  lemma CollectedOne(key: string, value: string)
    ensures Collected([Setting(key, value)], key, None) == Some(value)
  {
    assert [Setting(key, value)][1..] == [];
  }

  lemma PaddedEntry(name: string, value: string, comment: string) returns (item: Item)
    requires CleanName(name) && name != "" && CleanValue(value) && (value != "" ==> value[0] != ';')
    requires Plain(name) && Plain(value) && Plain(comment) && |name| + |value| + |comment| < 194
    ensures item.Entry? && item.name == name && item.value == value && Clean(item)
    ensures PrintItem(item) == name + " = " + value + " ;" + comment + "\n"
  {
    hide CleanName, CleanValue;
    item := Entry(name, " ", '=', " ", value, " ", ";" + comment);
    assert LineOf(item) == name + " = " + value + " ;" + comment;
  }

  lemma OneItem(item: Item)
    requires item.Entry?
    ensures Print([item]) == PrintItem(item)
    ensures Settings([item], "", "") == [Setting(MakeKey("", item.name), item.value)]
    ensures Clean(item) ==> Printable([item], "")
    ensures !IsPrefix(BOM, item.name) ==> Unmarked([item])
  {
    hide MakeKey, Clean, PrintItem, IsPrefix;
    assert [item][1..] == [];
    assert PrintItem(item) + "" == PrintItem(item);
  }

  // A further line is added to the value behind a newline, its comment dropped.
  lemma FurtherLineIsAdded(name: string, value: string, more: string, comment: string, defaultValue: string)
    requires CleanName(name) && name != "" && |name| <= 49 && !IsPrefix(BOM, name)
    requires CleanValue(value) && value != "" && CleanValue(more) && more != "" && more[0] !in ";#"
    requires Plain(name) && Plain(value) && Plain(more) && Plain(comment)
    requires |name| + |value| < 198 && |more| + |comment| < 196
    ensures var st := Run(START, (name + "=" + value + "\n") + (" " + more + " ;" + comment + "\n"));
            st.error == 0 && Get(st.values, "", name, defaultValue) == value + "\n" + more
  {
    hide Run, CleanName, CleanValue, Print, PrintItem, Settings, Clean, MakeKey, Collected, IsPrefix, Printable, Plain,
         Unmarked;
    var first := PlainEntry(name, value);
    var second := FurtherLine(more, comment);
    TwoItems(first, second);
    PrintedIsParsed(START, [first, second], MakeKey("", name));
    SetTwice(MakeKey("", name), value, more);
  }

  lemma PlainEntry(name: string, value: string) returns (item: Item)
    requires CleanName(name) && name != "" && CleanValue(value) && Plain(name) && Plain(value) && |name| + |value| < 198
    ensures item.Entry? && item.name == name && item.value == value && Clean(item)
    ensures PrintItem(item) == name + "=" + value + "\n"
  {
    hide CleanName, CleanValue;
    item := Entry(name, "", '=', "", value, "", "");
    assert LineOf(item) == name + "=" + value;
  }

  lemma FurtherLine(more: string, comment: string) returns (item: Item)
    requires CleanValue(more) && more != "" && more[0] !in ";#"
    requires Plain(more) && Plain(comment) && |more| + |comment| < 196
    ensures item.More? && item.value == more && Clean(item)
    ensures PrintItem(item) == " " + more + " ;" + comment + "\n"
  {
    hide CleanValue;
    item := More(" ", more, " ", ";" + comment);
    assert LineOf(item) == " " + more + " ;" + comment;
  }

  lemma TwoItems(first: Item, second: Item)
    requires first.Entry? && second.More? && |first.name| <= 49 && first.name != ""
    ensures Print([first, second]) == PrintItem(first) + PrintItem(second)
    ensures Settings([first, second], "", "") ==
            [Setting(MakeKey("", first.name), first.value), Setting(MakeKey("", first.name), second.value)]
    ensures Clean(first) && Clean(second) ==> Printable([first, second], "")
    ensures !IsPrefix(BOM, first.name) ==> Unmarked([first, second])
  {
    hide MakeKey, Clean, PrintItem, IsPrefix;
    var both := [first, second];
    assert both[1..] == [second] && both[1..][1..] == [];
    assert PrintItem(second) + "" == PrintItem(second);
    assert Print(both[1..]) == PrintItem(second);
    assert Settings([second], "", first.name) == [Setting(MakeKey("", first.name), second.value)];
    assert Clean(second) ==> Printable(both[1..], first.name);
  }

  lemma SetTwice(key: string, value: string, more: string)
    requires value != ""
    ensures Collected([Setting(key, value), Setting(key, more)], key, None) == Some(value + "\n" + more)
  {
    var both := [Setting(key, value), Setting(key, more)];
    assert both[1..] == [Setting(key, more)] && both[1..][1..] == [];
    assert Collected(both[1..], key, Some(value)) == Some(value + "\n" + more);
  }

  // A byte order mark in front makes no difference.
  lemma BomIsSkipped(text: string)
    requires text != "" && |PhysicalLine(text)| <= 196 && !IsPrefix(BOM, text)
    ensures Run(START, BOM + text) == Run(START, text)
  {
    hide Run, PhysicalLine, ParseLine, Added;
    var line := PhysicalLine(text);
    BomLine(text);
    RunsLine(START, BOM + text, BOM + line);
    RunsLine(START, text, line);
    BomStep(line);
    assert (BOM + text)[|BOM + line|..] == text[|line|..];
  }

  lemma RunsLine(st: State, text: string, line: string)
    requires text != "" && line == PhysicalLine(text)
    ensures Run(st, text) == Run(Step(st, line), text[|line|..])
  {
    hide Step, PhysicalLine;
  }

  lemma LineGrows(c: char, text: string)
    requires c != '\n'
    ensures PhysicalLine([c] + text) == [c] + PhysicalLine(text)
  {
    assert ([c] + text)[1..] == text;
  }

  lemma BomLine(text: string)
    ensures PhysicalLine(BOM + text) == BOM + PhysicalLine(text)
    ensures !IsPrefix(BOM, text) ==> !IsPrefix(BOM, PhysicalLine(text))
  {
    hide PhysicalLine;
    assert BOM + text == [BOM[0]] + ([BOM[1]] + ([BOM[2]] + text));
    LineGrows(BOM[2], text);
    LineGrows(BOM[1], [BOM[2]] + text);
    LineGrows(BOM[0], [BOM[1]] + ([BOM[2]] + text));
    if IsPrefix(BOM, PhysicalLine(text)) {
      assert text[..3] == PhysicalLine(text)[..3];
    }
  }

  lemma BomStep(line: string)
    requires |line| <= 196 && !IsPrefix(BOM, line)
    ensures Step(START, BOM + line) == Step(START, line)
  {
    hide Added, TrimLeft, TrimRight, StopFrom;
    assert (BOM + line)[..3] == BOM && (BOM + line)[3..] == line;
    NotIndented(TrimRight(TrimLeft(line)), "");
  }

  // Without a previous name, it does not matter whether a line is indented.
  lemma NotIndented(text: string, section: string)
    ensures ParseText(text, true, section, "") == ParseText(text, false, section, "")
  {
  }

  lemma {:induction false} PrintedHasNoNul(items: seq<Item>, last: string)
    requires Printable(items, last)
    ensures '\0' !in Print(items)
    decreases |items|
  {
    if items != [] {
      assert Clean(items[0]);
      PrintedHasNoNul(items[1..], NameAfter(items[0], last));
    }
  }

  // The parser itself, run on what was printed.
  method Reread(items: seq<Item>) returns (reader: Reader, error: nat)
    requires Printable(items, "") && Unmarked(items)
    ensures error == 0 && fresh(reader) && Holds(reader.values, items)
  {
    hide Run, Print, Holds;
    PrintedHasNoNul(items, "");
    RoundTrip(items);
    reader := new Reader();
    error := Ini.IniParseStream(Print(items), reader);
  }
}
