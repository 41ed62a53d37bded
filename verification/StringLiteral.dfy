/**
 Printing a byte string as a C++ string literal, and reading such literals back: escape sequences
 and adjacent literals as in [lex.ccon] and [lex.string] of ISO/IEC 14882.
 */
module StringLiteral {
  import opened Common

  datatype CharFormat = AsIs | HexEscape | SpecialEscape

  predicate IsPrintableAscii(c: byte) { 0x20 <= c <= 0x7E }

  predicate IsXDigit(c: byte) { 48 <= c <= 57 || 65 <= c <= 70 || 97 <= c <= 102 }

  predicate IsOctal(c: byte) { 48 <= c <= 55 }

  // --------------------------------------------------------------------------
  // Reading literals
  // --------------------------------------------------------------------------

  function Prepend(b: byte, r: Option<seq<byte>>): Option<seq<byte>> {
    match r
    case None => None
    case Some(s) => Some([b] + s)
  }

  // The value of a hexadecimal digit, or -1.
  function HexValue(c: char): (v: int)
    ensures -1 <= v < 16
  {
    if '0' <= c <= '9' then c as int - '0' as int
    else if 'A' <= c <= 'F' then c as int - 'A' as int + 10
    else if 'a' <= c <= 'f' then c as int - 'a' as int + 10
    else -1
  }

  predicate IsOctalChar(c: char) { '0' <= c <= '7' }

  // The longest run of hexadecimal digits.
  function HexRun(s: string): (n: nat)
    ensures n <= |s| && forall i | 0 <= i < n :: HexValue(s[i]) != -1
  {
    if s == "" || HexValue(s[0]) == -1 then 0 else 1 + HexRun(s[1..])
  }

  function HexNumber(s: string): int
    requires forall i | 0 <= i < |s| :: HexValue(s[i]) != -1
    ensures HexNumber(s) >= 0
  {
    if s == "" then 0 else HexNumber(s[..|s| - 1]) * 16 + HexValue(s[|s| - 1])
  }

  // One to three octal digits, as many as there are.
  function OctalRun(s: string): (n: nat)
    requires s != "" && IsOctalChar(s[0])
    ensures 1 <= n <= 3 && n <= |s| && forall i | 0 <= i < n :: IsOctalChar(s[i])
  {
    if |s| > 1 && IsOctalChar(s[1]) then if |s| > 2 && IsOctalChar(s[2]) then 3 else 2 else 1
  }

  function OctalNumber(s: string): int
    requires forall i | 0 <= i < |s| :: IsOctalChar(s[i])
    ensures OctalNumber(s) >= 0
  {
    if s == "" then 0 else assert IsOctalChar(s[|s| - 1]); OctalNumber(s[..|s| - 1]) * 8 + (s[|s| - 1] as int - '0' as int)
  }

  function SimpleEscape(c: char): Option<byte> {
    match c
    case '\'' => Some(39)
    case '"' => Some(34)
    case '?' => Some(63)
    case '\\' => Some(92)
    case 'a' => Some(7)
    case 'b' => Some(8)
    case 'f' => Some(12)
    case 'n' => Some(10)
    case 'r' => Some(13)
    case 't' => Some(9)
    case 'v' => Some(11)
    case _ => None
  }

  // The bytes denoted by adjacent literals, from inside a literal.
  function LexBody(s: string): Option<seq<byte>>
    decreases |s|
  {
    if s == "" || s[0] == '\n' || s[0] as int >= 256 then None
    else if s[0] == '"' then LexAfter(s[1..])
    else if s[0] != '\\' then Prepend(s[0] as int, LexBody(s[1..]))
    else if |s| < 2 then None
    else if s[1] == 'x' then
      var n := HexRun(s[2..]);
      if n == 0 || HexNumber(s[2..][..n]) >= 256 then None
      else Prepend(HexNumber(s[2..][..n]), LexBody(s[2 + n..]))
    else if IsOctalChar(s[1]) then
      var n := OctalRun(s[1..]);
      if OctalNumber(s[1..][..n]) >= 256 then None
      else Prepend(OctalNumber(s[1..][..n]), LexBody(s[1 + n..]))
    else
      match SimpleEscape(s[1])
      case None => None
      case Some(b) => Prepend(b, LexBody(s[2..]))
  }

  // ... from behind one.
  function LexAfter(s: string): Option<seq<byte>>
    decreases |s|
  {
    if s == "" then Some([])
    else if s[0] == ' ' then LexAfter(s[1..])
    else if s[0] == '"' then LexBody(s[1..])
    else None
  }

  function Lex(s: string): Option<seq<byte>> {
    if s != "" && s[0] == '"' then LexBody(s[1..]) else None
  }

  // --------------------------------------------------------------------------
  // Printing
  // --------------------------------------------------------------------------

  // How one character is written inside a string literal.
  function Piece(c: byte): string {
    match c
    case 39 => "'"
    case 34 => "\\\""
    case 0 => "\\0"
    case 92 => "\\\\"
    case 7 => "\\a"
    case 8 => "\\b"
    case 12 => "\\f"
    case 10 => "\\n"
    case 13 => "\\r"
    case 9 => "\\t"
    case 11 => "\\v"
    case _ => if IsPrintableAscii(c) then [c as char] else "\\x" + UpperHex(c)
  }

  function FormatOf(c: byte): CharFormat {
    if c in {34, 0, 92, 7, 8, 12, 10, 13, 9, 11} then SpecialEscape
    else if c == 39 || IsPrintableAscii(c) then AsIs
    else HexEscape
  }

  // The rest of the literal: it is broken in two where a hexadecimal escape would otherwise be
  // followed by a further hexadecimal digit.
  function Body(bytes: seq<byte>, previousHex: bool): string {
    if bytes == [] then "\""
    else
      (if previousHex && IsXDigit(bytes[0]) then "\" \"" else "")
      + Piece(bytes[0]) + Body(bytes[1..], FormatOf(bytes[0]) == HexEscape)
  }

  function Printed(bytes: seq<byte>): string { "\"" + Body(bytes, false) }

  // As they are are written the printable characters other than the quotation mark and the backslash;
  // a NUL and what has a simple escape, other than ' and ?, are written as that escape, and
  // everything else in hexadecimal.
  lemma PieceIs(c: byte)
    ensures FormatOf(c) == AsIs <==> 0x20 <= c <= 0x7E && c != 34 && c != 92
    ensures FormatOf(c) == AsIs ==> Piece(c) == [c as char]
    ensures FormatOf(c) == HexEscape ==> Piece(c) == "\\x" + UpperHex(c)
    ensures forall i | 0 <= i < |Piece(c)| :: ' ' <= Piece(c)[i] <= '~'
  {
    hide UpperHex;
    assert forall i | 0 <= i < |UpperHex(c)| :: ' ' <= UpperHex(c)[i] <= '~';
  }

  lemma SpecialIff(c: byte)
    ensures FormatOf(c) == SpecialEscape <==> c == 0 || exists e :: e != '\'' && e != '?' && SimpleEscape(e) == Some(c)
    ensures FormatOf(c) == SpecialEscape ==>
              |Piece(c)| == 2 && Piece(c)[0] == '\\'
              && if c == 0 then Piece(c)[1] == '0' else SimpleEscape(Piece(c)[1]) == Some(c)
  {
    hide UpperHex;
    if FormatOf(c) == SpecialEscape && c != 0 {
      assert SimpleEscape(Piece(c)[1]) == Some(c);
    }
  }

  // A literal is broken only where it must be: each break adds three characters.
  function Breaks(bytes: seq<byte>): nat {
    if |bytes| < 2 then 0
    else (if FormatOf(bytes[0]) == HexEscape && IsXDigit(bytes[1]) then 1 else 0) + Breaks(bytes[1..])
  }

  function PieceLengths(bytes: seq<byte>): nat {
    if bytes == [] then 0 else |Piece(bytes[0])| + PieceLengths(bytes[1..])
  }

  lemma {:induction false} PrintedLength(bytes: seq<byte>)
    ensures |Printed(bytes)| == 2 + PieceLengths(bytes) + 3 * Breaks(bytes)
  {
    BodyLength(bytes, false);
  }

  lemma {:induction false} BodyLength(bytes: seq<byte>, previousHex: bool)
    ensures |Body(bytes, previousHex)| ==
            1 + PieceLengths(bytes) + 3 * Breaks(bytes)
            + (if previousHex && bytes != [] && IsXDigit(bytes[0]) then 3 else 0)
  {
    hide Piece, FormatOf;
    if bytes != [] {
      BodyLength(bytes[1..], FormatOf(bytes[0]) == HexEscape);
    }
  }

  // --------------------------------------------------------------------------
  // What is printed denotes the bytes
  // --------------------------------------------------------------------------

  // A NUL directly followed by an octal digit: the one thing that the printer does not keep apart.
  predicate NulBeforeOctal(bytes: seq<byte>) {
    exists i | 0 <= i < |bytes| - 1 :: bytes[i] == 0 && IsOctal(bytes[i + 1])
  }

  lemma NulBeforeOctalSplits(bytes: seq<byte>)
    requires bytes != []
    ensures NulBeforeOctal(bytes) <==>
            (bytes[0] == 0 && |bytes| > 1 && IsOctal(bytes[1])) || NulBeforeOctal(bytes[1..])
  {
    var rest := bytes[1..];
    if NulBeforeOctal(rest) {
      var i :| 0 <= i < |rest| - 1 && rest[i] == 0 && IsOctal(rest[i + 1]);
      assert bytes[i + 1] == 0 && IsOctal(bytes[i + 1 + 1]);
    }
    if NulBeforeOctal(bytes) {
      var i :| 0 <= i < |bytes| - 1 && bytes[i] == 0 && IsOctal(bytes[i + 1]);
      if i > 0 {
        assert rest[i - 1] == 0 && IsOctal(rest[i - 1 + 1]);
      }
    }
  }

  // What a literal's rest begins with.
  lemma BodyStart(bytes: seq<byte>, previousHex: bool)
    ensures Body(bytes, previousHex) != ""
    ensures previousHex ==> HexValue(Body(bytes, previousHex)[0]) == -1
    ensures IsOctalChar(Body(bytes, false)[0]) <==> bytes != [] && IsOctal(bytes[0])
    ensures bytes != [] && IsOctal(bytes[0]) ==> Body(bytes, false) == [bytes[0] as char] + Body(bytes[1..], false)
  {
    hide UpperHex;
  }

  lemma HexNumberStep(front: string, digit: char)
    requires forall i | 0 <= i < |front| :: HexValue(front[i]) != -1
    requires HexValue(digit) != -1
    ensures forall i | 0 <= i < |front + [digit]| :: HexValue((front + [digit])[i]) != -1
    ensures HexNumber(front + [digit]) == HexNumber(front) * 16 + HexValue(digit)
  {
    hide HexValue;
    assert (front + [digit])[..|front|] == front;
  }

  lemma NoHexNumber()
    ensures HexNumber("") == 0
  {
  }

  lemma HexDigitValue(d: int)
    requires 0 <= d < 16
    ensures HexValue(UpperHexDigit(d)) == d
  {
  }

  lemma OneHexDigit(c: byte)
    requires c < 16
    ensures UpperHex(c) == [UpperHexDigit(c)] && HexNumber([UpperHexDigit(c)]) == c
  {
    hide HexNumber, HexValue, UpperHexDigit;
    HexDigitValue(c);
    NoHexNumber();
    HexNumberStep("", UpperHexDigit(c));
    assert "" + [UpperHexDigit(c)] == [UpperHexDigit(c)];
  }

  lemma TwoHexDigits(c: byte)
    requires c >= 16
    ensures var digits := [UpperHexDigit(c / 16), UpperHexDigit(c % 16)];
            UpperHex(c) == digits && HexNumber(digits) == c
  {
    hide HexNumber, HexValue, UpperHexDigit;
    var front, digit := [UpperHexDigit(c / 16)], UpperHexDigit(c % 16);
    OneHexDigit(c / 16);
    HexDigitValue(c / 16);
    HexDigitValue(c % 16);
    HexNumberStep(front, digit);
    assert front + [digit] == [UpperHexDigit(c / 16), digit];
  }

  lemma {:induction false} RunOfDigits(digits: string, rest: string)
    requires forall i | 0 <= i < |digits| :: HexValue(digits[i]) != -1
    requires rest != "" && HexValue(rest[0]) == -1
    ensures HexRun(digits + rest) == |digits| && (digits + rest)[..|digits|] == digits
  {
    if digits == "" {
      assert digits + rest == rest;
    } else {
      assert (digits + rest)[1..] == digits[1..] + rest;
      RunOfDigits(digits[1..], rest);
    }
  }

  lemma HexOfByte(c: byte)
    ensures var digits := UpperHex(c);
            digits != "" && (forall i | 0 <= i < |digits| :: HexValue(digits[i]) != -1) && HexNumber(digits) == c
  {
    hide HexNumber, UpperHex;
    if c < 16 {
      OneHexDigit(c);
    } else {
      TwoHexDigits(c);
    }
  }

  // --------------------------------------------------------------------------
  // Reading one piece
  // --------------------------------------------------------------------------

  lemma LexHex(s: string, n: nat)
    requires |s| >= 2 && s[0] == '\\' && s[1] == 'x'
    requires n == HexRun(s[2..]) && n > 0 && HexNumber(s[2..][..n]) < 256
    ensures LexBody(s) == Prepend(HexNumber(s[2..][..n]), LexBody(s[2 + n..]))
  {
    hide HexNumber, HexRun, HexValue, OctalRun, OctalNumber, SimpleEscape, LexAfter;
  }

  lemma HexEscapeIs(c: byte)
    requires FormatOf(c) == HexEscape
    ensures Piece(c) == "\\x" + UpperHex(c)
  {
    hide UpperHex;
  }

  lemma HexPiece(c: byte, rest: string)
    requires FormatOf(c) == HexEscape && rest != "" && HexValue(rest[0]) == -1
    ensures LexBody(Piece(c) + rest) == Prepend(c, LexBody(rest))
  {
    hide HexNumber, HexRun, HexValue, UpperHex, LexBody, Piece, FormatOf;
    var digits := UpperHex(c);
    HexOfByte(c);
    HexEscapeIs(c);
    RunOfDigits(digits, rest);
    var s := "\\x" + digits + rest;
    assert s[2..] == digits + rest && s[2 + |digits|..] == rest;
    LexHex(s, |digits|);
  }

  lemma PlainPiece(c: byte, rest: string)
    requires FormatOf(c) == AsIs
    ensures LexBody(Piece(c) + rest) == Prepend(c, LexBody(rest))
  {
    hide HexNumber, HexRun, OctalRun, OctalNumber, SimpleEscape, LexAfter;
    assert (Piece(c) + rest)[1..] == rest;
  }

  lemma SpecialPiece(c: byte, rest: string)
    requires FormatOf(c) == SpecialEscape && c != 0
    ensures LexBody(Piece(c) + rest) == Prepend(c, LexBody(rest))
  {
    hide HexNumber, HexRun, OctalRun, OctalNumber, LexAfter;
    assert (Piece(c) + rest)[2..] == rest;
  }

  // NUL is written as an octal escape, which takes up to two octal digits that follow it.
  lemma NulPiece(rest: string)
    requires rest != ""
    ensures !IsOctalChar(rest[0]) ==> LexBody("\\0" + rest) == Prepend(0, LexBody(rest))
    ensures IsOctalChar(rest[0]) && (|rest| < 2 || !IsOctalChar(rest[1])) ==>
              exists b: byte :: LexBody("\\0" + rest) == Prepend(b, LexBody(rest[1..]))
    ensures IsOctalChar(rest[0]) && |rest| >= 2 && IsOctalChar(rest[1]) ==>
              exists b: byte :: LexBody("\\0" + rest) == Prepend(b, LexBody(rest[2..]))
  {
    hide HexNumber, HexRun, SimpleEscape, LexAfter, LexBody, OctalNumber;
    var s := "\\0" + rest;
    var n := OctalRun(s[1..]);
    assert s[1] == '0' && s[1..][0] == '0' && s[1..][1..] == rest && s[1 + n..] == rest[n - 1..];
    var digits := s[1..][..n];
    assert digits[0] == '0';
    SmallOctal(digits);
    LexOctal(s, n);
    assert n == 1 ==> digits == "0" && rest[0..] == rest;
    var b: byte := OctalNumber(digits);
  }

  lemma LexOctal(s: string, n: nat)
    requires |s| >= 2 && s[0] == '\\' && IsOctalChar(s[1])
    requires n == OctalRun(s[1..]) && OctalNumber(s[1..][..n]) < 256
    ensures LexBody(s) == Prepend(OctalNumber(s[1..][..n]), LexBody(s[1 + n..]))
  {
    hide HexNumber, HexRun, HexValue, OctalRun, OctalNumber, SimpleEscape, LexAfter;
  }

  lemma SmallOctal(digits: string)
    requires 1 <= |digits| <= 3 && digits[0] == '0' && forall i | 0 <= i < |digits| :: IsOctalChar(digits[i])
    ensures OctalNumber(digits) < 64 && (|digits| == 1 ==> OctalNumber(digits) == 0)
  {
    assert OctalNumber("") == 0;
    var first := digits[..1];
    assert first[..0] == "";
    assert OctalNumber(first) == 0;
    if |digits| > 1 {
      var second := digits[..2];
      assert second[..1] == first && second[1] == digits[1];
      assert OctalNumber(second) < 8;
      if |digits| > 2 {
        assert digits[..2] == second;
      } else {
        assert digits == second;
      }
    } else {
      assert digits == first;
    }
  }

  // --------------------------------------------------------------------------
  // The round trip
  // --------------------------------------------------------------------------

  // Reading yields no more bytes than were printed, and exactly those unless a NUL swallows a digit.
  ghost predicate ReadsBack(text: string, bytes: seq<byte>) {
    var r := LexBody(text);
    r.Some? && |r.value| <= |bytes| && (r.value == bytes <==> !NulBeforeOctal(bytes))
  }

  // The body is broken in front of a digit, or begins with the piece for the first byte.
  lemma BodyStep(bytes: seq<byte>, previousHex: bool)
    requires bytes != []
    ensures Body(bytes, previousHex) ==
            (if previousHex && IsXDigit(bytes[0]) then "\" \"" else "")
            + (Piece(bytes[0]) + Body(bytes[1..], FormatOf(bytes[0]) == HexEscape))
  {
    hide Piece, FormatOf;
    var broken := if previousHex && IsXDigit(bytes[0]) then "\" \"" else "";
    var after := Body(bytes[1..], FormatOf(bytes[0]) == HexEscape);
    assert broken + Piece(bytes[0]) + after == broken + (Piece(bytes[0]) + after);
  }

  lemma ReadsBackMore(text: string, after: string, bytes: seq<byte>)
    requires bytes != [] && bytes[0] != 0 && ReadsBack(after, bytes[1..])
    requires LexBody(text) == Prepend(bytes[0], LexBody(after))
    ensures ReadsBack(text, bytes)
  {
    hide LexBody, NulBeforeOctal;
    NulBeforeOctalSplits(bytes);
    var r := LexBody(after).value;
    assert [bytes[0]] + bytes[1..] == bytes && ([bytes[0]] + r)[1..] == r;
  }

  lemma {:induction false} BodyReadsBack(bytes: seq<byte>, previousHex: bool)
    ensures ReadsBack(Body(bytes, previousHex), bytes)
    decreases |bytes|, if previousHex then 2 else 1
  {
    hide LexBody, LexAfter, Piece, FormatOf, Body, ReadsBack;
    if bytes == [] {
      EndReadsBack(previousHex);
    } else if previousHex && IsXDigit(bytes[0]) {
      BodyReadsBack(bytes, false);
      BrokenLiteral(bytes);
      SameReading(Body(bytes, true), Body(bytes, false), bytes);
    } else {
      var c, rest := bytes[0], bytes[1..];
      var after := Body(rest, FormatOf(c) == HexEscape);
      BodyReadsBack(rest, FormatOf(c) == HexEscape);
      BodyStart(rest, FormatOf(c) == HexEscape);
      BodyStep(bytes, previousHex);
      assert Body(bytes, previousHex) == Piece(c) + after;
      if c == 0 {
        NulIsSpecial();
        NulReadsBack(bytes);
      } else {
        PieceReadsBack(c, after);
        ReadsBackMore(Piece(c) + after, after, bytes);
      }
    }
  }

  lemma SameReading(text: string, text': string, bytes: seq<byte>)
    requires LexBody(text) == LexBody(text') && ReadsBack(text', bytes)
    ensures ReadsBack(text, bytes)
  {
    hide LexBody;
  }

  lemma PieceReadsBack(c: byte, rest: string)
    requires c != 0 && rest != "" && (FormatOf(c) == HexEscape ==> HexValue(rest[0]) == -1)
    ensures LexBody(Piece(c) + rest) == Prepend(c, LexBody(rest))
  {
    hide LexBody, Piece, FormatOf;
    match FormatOf(c) {
      case HexEscape => HexPiece(c, rest);
      case AsIs => PlainPiece(c, rest);
      case SpecialEscape => SpecialPiece(c, rest);
    }
  }

  lemma NulIsSpecial()
    ensures Piece(0) == "\\0" && FormatOf(0) == SpecialEscape
  {
  }

  lemma EndReadsBack(previousHex: bool)
    ensures ReadsBack(Body([], previousHex), [])
  {
    assert "\""[1..] == "";
  }

  // Closing the literal and opening the next one denotes nothing.
  lemma BrokenLiteral(bytes: seq<byte>)
    requires bytes != [] && IsXDigit(bytes[0])
    ensures LexBody(Body(bytes, true)) == LexBody(Body(bytes, false))
  {
    hide Piece, FormatOf, Body, LexBody, LexAfter;
    BodyStep(bytes, true);
    BodyStep(bytes, false);
    var after := Piece(bytes[0]) + Body(bytes[1..], FormatOf(bytes[0]) == HexEscape);
    assert "" + after == after;
    LexBroken(after);
  }

  lemma LexBroken(after: string)
    ensures LexBody("\" \"" + after) == LexBody(after)
  {
    hide LexBody, LexAfter;
    var text := "\" \"" + after;
    assert text[1..] == " \"" + after && (" \"" + after)[1..] == "\"" + after && ("\"" + after)[1..] == after;
    QuoteEnds(text);
    AfterQuote(" \"" + after);
    AfterQuote("\"" + after);
  }

  lemma QuoteEnds(s: string)
    requires s != "" && s[0] == '"'
    ensures LexBody(s) == LexAfter(s[1..])
  {
  }

  lemma AfterQuote(s: string)
    requires s != ""
    ensures s[0] == ' ' ==> LexAfter(s) == LexAfter(s[1..])
    ensures s[0] == '"' ==> LexAfter(s) == LexBody(s[1..])
  {
  }

  lemma {:induction false} NulReadsBack(bytes: seq<byte>)
    requires bytes != [] && bytes[0] == 0
    requires ReadsBack(Body(bytes[1..], false), bytes[1..])
    ensures ReadsBack("\\0" + Body(bytes[1..], false), bytes)
    decreases |bytes|, 0
  {
    hide LexBody, LexAfter, Piece, FormatOf, Body;
    var rest := bytes[1..];
    var after := Body(rest, false);
    BodyStart(rest, false);
    NulBeforeOctalSplits(bytes);
    NulPiece(after);
    assert [bytes[0]] + rest == bytes;
    if rest == [] || !IsOctal(rest[0]) {
      var r := LexBody(after).value;
      assert ([bytes[0]] + r)[1..] == r;
    } else {
      // the digit rest[0], and possibly the next one, is swallowed
      var after' := Body(rest[1..], false);
      BodyStart(rest[1..], false);
      assert after[1..] == after' && after[0] == rest[0] as char;
      if rest[1..] != [] && IsOctal(rest[1]) {
        assert after'[0] == after[1] && after[2..] == after'[1..] == Body(rest[2..], false);
        BodyReadsBack(rest[2..], false);
      } else {
        assert |after| < 2 || !IsOctalChar(after[1]);
        BodyReadsBack(rest[1..], false);
      }
    }
  }

  // Exactly when the printed literal denotes the bytes that were printed.
  lemma RoundTripIff(bytes: seq<byte>)
    ensures Lex(Printed(bytes)) == Some(bytes) <==> !NulBeforeOctal(bytes)
  {
    BodyReadsBack(bytes, false);
    assert Printed(bytes)[1..] == Body(bytes, false);
  }

  // A NUL before the digit 1 is printed as "\01", which denotes the one byte 1.
  lemma NulSwallowsDigit()
    ensures Printed([0, 49]) == "\"\\01\"" && Lex(Printed([0, 49])) == Some([1])
  {
    hide LexBody, OctalNumber;
    var inside := "\\01\"";
    assert [0, 49][1..] == [49] && [49][1..] == [];
    assert Body([49], false) == "1\"";
    assert Printed([0, 49]) == "\"" + inside && ("\"" + inside)[1..] == inside;
    assert OctalRun(inside[1..]) == 2 && inside[1..][..2] == "01" && inside[3..] == "\"";
    TwoOctalDigits();
    LexOctal(inside, 2);
    ClosingQuote();
    assert Printed([0, 49])[1..] == inside;
    var none: seq<byte>, one: byte := [], 1;
    assert LexBody(inside) == Prepend(one, Some(none));
    assert [one] + none == [one];
  }

  lemma ClosingQuote()
    ensures LexBody("\"") == Some([])
  {
    assert "\""[1..] == "";
  }

  lemma TwoOctalDigits()
    ensures OctalNumber("01") == 1
  {
    assert "01"[..1] == "0" && "0"[..0] == "" && OctalNumber("0") == 0;
  }

  // --------------------------------------------------------------------------
  // The printer
  // --------------------------------------------------------------------------

  // A character literal escapes ' where a string literal escapes ".
  method PrintAsCharLiteralTo(c: byte, os: string) returns (os': string, format: CharFormat)
    ensures c != 34 && c != 39 ==> os' == os + Piece(c) && format == FormatOf(c)
    ensures c == 34 ==> os' == os + "\"" && format == AsIs
    ensures c == 39 ==> os' == os + "\\'" && format == SpecialEscape
  {
    match c {
      case 0 => os' := os + "\\0";
      case 39 => os' := os + "\\'";
      case 92 => os' := os + "\\\\";
      case 7 => os' := os + "\\a";
      case 8 => os' := os + "\\b";
      case 12 => os' := os + "\\f";
      case 10 => os' := os + "\\n";
      case 13 => os' := os + "\\r";
      case 9 => os' := os + "\\t";
      case 11 => os' := os + "\\v";
      case _ =>
        if IsPrintableAscii(c) {
          return os + [c as char], AsIs;
        } else {
          return os + ("\\x" + UpperHex(c)), HexEscape;
        }
    }
    return os', SpecialEscape;
  }

  method PrintAsStringLiteralTo(c: byte, os: string) returns (os': string, format: CharFormat)
    ensures os' == os + Piece(c) && format == FormatOf(c)
  {
    match c {
      case 39 => return os + "'", AsIs;
      case 34 => return os + "\\\"", SpecialEscape;
      case _ => os', format := PrintAsCharLiteralTo(c, os);
    }
  }

  lemma NothingLeft(previousHex: bool)
    ensures Body([], previousHex) == "\""
  {
  }

  // Prints the bytes as one or more adjacent literals; tells whether any needed a hexadecimal escape.
  method PrintCharsAsStringTo(begin: seq<byte>, os0: string) returns (os: string, printFormat: CharFormat)
    ensures os == os0 + Printed(begin)
    ensures printFormat == HexEscape <==> exists i | 0 <= i < |begin| :: FormatOf(begin[i]) == HexEscape
  {
    hide Piece, FormatOf, Body;
    os := os0 + "\"";
    var isPreviousHex := false;
    printFormat := AsIs;
    assert begin[0..] == begin && os0 + "\"" + Body(begin, false) == os0 + Printed(begin);
    for index := 0 to |begin|
      invariant os + Body(begin[index..], isPreviousHex) == os0 + Printed(begin)
      invariant printFormat == HexEscape <==> exists i | 0 <= i < index :: FormatOf(begin[i]) == HexEscape
    {
      var cur := begin[index];
      ghost var start := os;
      assert begin[index..][0] == cur && begin[index..][1..] == begin[index + 1..];
      if isPreviousHex && IsXDigit(cur) {
        // Break string to disambiguate.
        os := os + "\" \"";
      }
      var format;
      os, format := PrintAsStringLiteralTo(cur, os);
      ghost var rest := Body(begin[index + 1..], format == HexEscape);
      ghost var gap := if isPreviousHex && IsXDigit(cur) then "\" \"" else "";
      BodyStep(begin[index..], isPreviousHex);
      assert os + rest == start + (gap + (Piece(cur) + rest));
      isPreviousHex := format == HexEscape;
      // Remember if any characters required hex escaping.
      if isPreviousHex {
        printFormat := HexEscape;
      }
    }
    assert begin[|begin|..] == [];
    NothingLeft(isPreviousHex);
    os := os + "\"";
  }
}
