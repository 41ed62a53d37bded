/**
 UTF-8 as Google Test prints and encodes it: the validator of byte strings and the encoder of code
 points, against the definition of RFC 3629 (sections 3 and 4).
 */
module Utf8 {
  import opened Common

  // A Unicode scalar value: a code point up to 0x10FFFF that is not a surrogate.
  predicate IsScalar(cp: int) {
    0 <= cp <= 0x10FFFF && !(0xD800 <= cp <= 0xDFFF)
  }

  const MAX_CODE_POINT_1 := 0x7F
  const MAX_CODE_POINT_2 := 0x7FF
  const MAX_CODE_POINT_3 := 0xFFFF
  const MAX_CODE_POINT_4 := 0x1FFFFF

  // The encoding, for all values that fit into 21 bits.
  function Encode(cp: int): seq<byte>
    requires 0 <= cp <= MAX_CODE_POINT_4
  {
    if cp <= MAX_CODE_POINT_1 then [cp]
    else if cp <= MAX_CODE_POINT_2 then [0xC0 + cp / 64, 0x80 + cp % 64]
    else if cp <= MAX_CODE_POINT_3 then [0xE0 + cp / 64 / 64, 0x80 + cp / 64 % 64, 0x80 + cp % 64]
    else [0xF0 + cp / 64 / 64 / 64, 0x80 + cp / 64 / 64 % 64, 0x80 + cp / 64 % 64, 0x80 + cp % 64]
  }

  ghost function EncodeAll(cps: seq<int>): seq<byte>
    requires forall cp | cp in cps :: IsScalar(cp)
  {
    if cps == [] then [] else assert IsScalar(cps[0]); Encode(cps[0]) + EncodeAll(cps[1..])
  }

  // s is a concatenation of encodings of scalar values.
  ghost predicate IsEncoding(s: seq<byte>) {
    exists cps: seq<int> :: (forall cp | cp in cps :: IsScalar(cp)) && s == EncodeAll(cps)
  }

  // --------------------------------------------------------------------------
  // The first character
  // --------------------------------------------------------------------------

  predicate IsTrailByte(t: byte) { 0x80 <= t <= 0xBF }

  // How many bytes the first character takes, or 0 if there is no well-formed character.
  function FirstLength(s: seq<byte>): (n: nat)
    ensures n <= |s|
  {
    if s == [] then 0
    else
      var lead := s[0];
      if lead <= 0x7F then 1
      else if lead < 0xC2 then 0
      else if lead <= 0xDF && |s| >= 2 && IsTrailByte(s[1]) then 2
      else if && 0xE0 <= lead <= 0xEF && |s| >= 3 && IsTrailByte(s[1]) && IsTrailByte(s[2])
              && (lead != 0xE0 || s[1] >= 0xA0) && (lead != 0xED || s[1] < 0xA0) then 3
      else if && 0xF0 <= lead <= 0xF4 && |s| >= 4 && IsTrailByte(s[1]) && IsTrailByte(s[2]) && IsTrailByte(s[3])
              && (lead != 0xF0 || s[1] >= 0x90) && (lead != 0xF4 || s[1] < 0x90) then 4
      else 0
  }

  predicate IsValid(s: seq<byte>) {
    s == [] || (FirstLength(s) > 0 && IsValid(s[FirstLength(s)..]))
  }

  // The code point that a well-formed first character encodes.
  function Decode(s: seq<byte>): int
    requires FirstLength(s) > 0
  {
    match FirstLength(s)
    case 1 => s[0]
    case 2 => Append(s[0] as int - 0xC0, s[1])
    case 3 => Append(Append(s[0] as int - 0xE0, s[1]), s[2])
    case _ => Append(Append(Append(s[0] as int - 0xF0, s[1]), s[2]), s[3])
  }

  // Six more bits from a trail byte.
  function Append(high: int, trail: byte): int {
    high * 64 + (trail as int - 0x80)
  }

  lemma AppendSplits(high: int, trail: byte)
    requires IsTrailByte(trail)
    ensures Append(high, trail) / 64 == high && 0x80 + Append(high, trail) % 64 == trail
  {
  }

  // A well-formed first character is the encoding of a scalar value ...
  lemma FirstIsEncoding(s: seq<byte>)
    requires FirstLength(s) > 0
    ensures IsScalar(Decode(s)) && Encode(Decode(s)) == s[..FirstLength(s)]
  {
    var n := FirstLength(s);
    if n == 2 {
      AppendSplits(s[0] as int - 0xC0, s[1]);
    } else if n == 3 {
      var high := s[0] as int - 0xE0;
      AppendSplits(high, s[1]);
      AppendSplits(Append(high, s[1]), s[2]);
    } else if n == 4 {
      var high := s[0] as int - 0xF0;
      AppendSplits(high, s[1]);
      AppendSplits(Append(high, s[1]), s[2]);
      AppendSplits(Append(Append(high, s[1]), s[2]), s[3]);
    }
  }

  // ... and the encoding of a value is a well-formed first character exactly for scalar values.
  lemma EncodingIsFirst(cp: int, rest: seq<byte>)
    requires 0 <= cp <= MAX_CODE_POINT_4
    ensures FirstLength(Encode(cp) + rest) == if IsScalar(cp) then |Encode(cp)| else 0
  {
  }

  // --------------------------------------------------------------------------
  // Whole strings
  // --------------------------------------------------------------------------

  lemma EncodeAllMore(cp: int, rest: seq<int>)
    requires IsScalar(cp) && forall x | x in rest :: IsScalar(x)
    ensures forall x | x in [cp] + rest :: IsScalar(x)
    ensures EncodeAll([cp] + rest) == Encode(cp) + EncodeAll(rest)
  {
    hide Encode;
    assert ([cp] + rest)[1..] == rest;
  }

  lemma {:induction false} ValidIsEncoding(s: seq<byte>) returns (cps: seq<int>)
    requires IsValid(s)
    ensures (forall cp | cp in cps :: IsScalar(cp)) && s == EncodeAll(cps)
  {
    hide FirstLength, Encode, Decode, EncodeAll, IsScalar;
    if s == [] {
      cps := [];
      NoneEncoded();
    } else {
      var n := FirstLength(s);
      FirstIsEncoding(s);
      var rest := ValidIsEncoding(s[n..]);
      cps := [Decode(s)] + rest;
      EncodeAllMore(Decode(s), rest);
      assert s == s[..n] + s[n..];
    }
  }

  lemma NoneEncoded()
    ensures EncodeAll([]) == []
  {
  }

  lemma {:induction false} EncodingIsValid(cps: seq<int>)
    requires forall cp | cp in cps :: IsScalar(cp)
    ensures IsValid(EncodeAll(cps))
  {
    hide FirstLength, Encode, IsScalar, EncodeAll;
    if cps == [] {
      NoneEncoded();
    } else {
      var first, others := cps[0], cps[1..];
      assert first in cps && cps == [first] + others;
      EncodeAllMore(first, others);
      ScalarFits(first);
      EncodingIsFirst(first, EncodeAll(others));
      EncodeIsNonempty(first);
      assert (Encode(first) + EncodeAll(others))[|Encode(first)|..] == EncodeAll(others);
      EncodingIsValid(others);
    }
  }

  lemma ScalarFits(cp: int)
    requires IsScalar(cp)
    ensures 0 <= cp <= MAX_CODE_POINT_4
  {
  }

  lemma EncodeIsNonempty(cp: int)
    requires 0 <= cp <= MAX_CODE_POINT_4
    ensures Encode(cp) != []
  {
  }

  // The validator accepts exactly the concatenations of encodings of scalar values.
  lemma ValidIffEncoding(s: seq<byte>)
    ensures IsValid(s) <==> IsEncoding(s)
  {
    if IsValid(s) {
      var cps := ValidIsEncoding(s);
    }
    if IsEncoding(s) {
      var cps: seq<int> :| (forall cp | cp in cps :: IsScalar(cp)) && s == EncodeAll(cps);
      EncodingIsValid(cps);
    }
  }

  method IsValidUTF8(s: seq<byte>) returns (valid: bool)
    ensures valid <==> IsEncoding(s)
  {
    ValidIffEncoding(s);
    var i := 0;
    assert s[0..] == s;
    while i < |s|
      invariant 0 <= i <= |s| && (IsValid(s) <==> IsValid(s[i..]))
    {
      ghost var first, start := FirstLength(s[i..]), i;
      assert forall k | 0 <= k < |s| - i :: s[i..][k] == s[i + k];
      var lead := s[i];
      i := i + 1;
      if lead <= 0x7F {
        // single-byte character (ASCII) 0..7F
      } else if lead < 0xC2 {
        return false;  // trail byte or non-shortest form
      } else if lead <= 0xDF && i + 1 <= |s| && IsTrailByte(s[i]) {
        i := i + 1;  // 2-byte character
      } else if && 0xE0 <= lead <= 0xEF && i + 2 <= |s| && IsTrailByte(s[i]) && IsTrailByte(s[i + 1])
                // check for non-shortest form and surrogate
                && (lead != 0xE0 || s[i] >= 0xA0) && (lead != 0xED || s[i] < 0xA0) {
        i := i + 2;  // 3-byte character
      } else if && 0xF0 <= lead <= 0xF4 && i + 3 <= |s|
                && IsTrailByte(s[i]) && IsTrailByte(s[i + 1]) && IsTrailByte(s[i + 2])
                // check for non-shortest form
                && (lead != 0xF0 || s[i] >= 0x90) && (lead != 0xF4 || s[i] < 0x90) {
        i := i + 3;  // 4-byte character
      } else {
        return false;
      }
      assert i == start + first && s[start..][first..] == s[i..];
    }
    return true;
  }

  // --------------------------------------------------------------------------
  // The encoder
  // --------------------------------------------------------------------------

  function Ascii(t: string): (s: seq<byte>)
    requires forall i | 0 <= i < |t| :: t[i] < 128 as char
    ensures |s| == |t| && forall i | 0 <= i < |s| :: s[i] == t[i] as int < 128
  {
    seq<byte>(|t|, i requires 0 <= i < |t| => t[i] as int)
  }

  function Message(cp: nat): seq<byte> {
    Ascii("(Invalid Unicode 0x") + Ascii(UpperHex(cp)) + Ascii(")")
  }

  // What the encoder returns: the encoding up to the first NUL, or a message for what has none.
  function Utf8Of(cp: nat): seq<byte> {
    if cp > MAX_CODE_POINT_4 then Message(cp)
    else if cp == 0 then []
    else Encode(cp)
  }

  // The n lowest bits (here as a power of two), chopped off the bit pattern.
  method ChopLowBits(bits: nat, power: nat) returns (lowBits: nat, rest: nat)
    requires power > 0
    ensures lowBits == bits % power && rest == bits / power
  {
    lowBits := bits % power;
    rest := bits / power;
  }

  // The bytes of a C string in the buffer, up to its NUL.
  method ToBytes(str: array<byte>, ghost n: nat) returns (s: seq<byte>)
    requires n < str.Length && str[n] == 0 && forall i | 0 <= i < n :: str[i] != 0
    ensures s == str[..n]
  {
    var i := 0;
    while str[i] != 0
      invariant 0 <= i <= n
      decreases n - i
    {
      i := i + 1;
    }
    s := str[..i];
  }

  // The encoding by its length, with bytes that are neither NUL nor too large.
  lemma EncodeByLength(cp: nat)
    requires 0 < cp <= MAX_CODE_POINT_4
    ensures Utf8Of(cp) == Encode(cp)
    ensures cp <= MAX_CODE_POINT_1 ==> Encode(cp) == [cp]
    ensures MAX_CODE_POINT_1 < cp <= MAX_CODE_POINT_2 ==>
              var a, b := 0xC0 + cp / 64, 0x80 + cp % 64;
              0 < a < 256 && 0 < b < 256 && Encode(cp) == [a, b]
    ensures MAX_CODE_POINT_2 < cp <= MAX_CODE_POINT_3 ==>
              var a, b, c := 0xE0 + cp / 64 / 64, 0x80 + cp / 64 % 64, 0x80 + cp % 64;
              0 < a < 256 && 0 < b < 256 && 0 < c < 256 && Encode(cp) == [a, b, c]
    ensures MAX_CODE_POINT_3 < cp ==>
              var a, b, c, d := 0xF0 + cp / 64 / 64 / 64, 0x80 + cp / 64 / 64 % 64, 0x80 + cp / 64 % 64, 0x80 + cp % 64;
              0 < a < 256 && 0 < b < 256 && 0 < c < 256 && 0 < d < 256 && Encode(cp) == [a, b, c, d]
  {
  }

  // Bitwise or is written as addition: the operands have no bit in common.
  method CodePointToUtf8(codePoint0: nat) returns (s: seq<byte>)
    ensures s == Utf8Of(codePoint0)
  {
    var codePoint := codePoint0;
    if codePoint > MAX_CODE_POINT_4 {
      return Ascii("(Invalid Unicode 0x") + Ascii(UpperHex(codePoint)) + Ascii(")");
    }
    var str := new byte[5](_ => 0);  // Big enough for the largest valid code point.
    if codePoint <= MAX_CODE_POINT_1 {
      str[1] := 0;
      str[0] := codePoint;
    } else {
      EncodeLong(codePoint, str);
    }
    if codePoint > 0 {
      EncodeByLength(codePoint);
    }
    s := ToBytes(str, |Utf8Of(codePoint)|);
  }

  // The branches of the encoder for more than one byte.
  method EncodeLong(codePoint0: nat, str: array<byte>)
    requires MAX_CODE_POINT_1 < codePoint0 <= MAX_CODE_POINT_4 && str.Length == 5
    modifies str
    ensures var n := |Encode(codePoint0)|;
            n < 5 && str[..n] == Encode(codePoint0) && str[n] == 0 && forall i | 0 <= i < n :: str[i] != 0
  {
    hide Encode;
    EncodeByLength(codePoint0);
    var codePoint, low := codePoint0, 0;
    if codePoint <= MAX_CODE_POINT_2 {
      str[2] := 0;
      low, codePoint := ChopLowBits(codePoint, 64);
      str[1] := 0x80 + low;
      str[0] := 0xC0 + codePoint;
    } else if codePoint <= MAX_CODE_POINT_3 {
      str[3] := 0;
      low, codePoint := ChopLowBits(codePoint, 64);
      str[2] := 0x80 + low;
      low, codePoint := ChopLowBits(codePoint, 64);
      str[1] := 0x80 + low;
      str[0] := 0xE0 + codePoint;
    } else {
      str[4] := 0;
      low, codePoint := ChopLowBits(codePoint, 64);
      str[3] := 0x80 + low;
      low, codePoint := ChopLowBits(codePoint, 64);
      str[2] := 0x80 + low;
      low, codePoint := ChopLowBits(codePoint, 64);
      str[1] := 0x80 + low;
      str[0] := 0xF0 + codePoint;
    }
  }

  lemma {:induction false} AsciiIsValid(s: seq<byte>)
    requires forall i | 0 <= i < |s| :: s[i] < 128
    ensures IsValid(s)
  {
    if s != [] {
      assert FirstLength(s) == 1;
      AsciiIsValid(s[1..]);
    }
  }

  lemma SingleIsValidIffScalar(cp: nat)
    requires cp <= MAX_CODE_POINT_4
    ensures Encode(cp) != [] && (IsValid(Encode(cp)) <==> IsScalar(cp))
  {
    hide FirstLength;
    EncodingIsFirst(cp, []);
    var s := Encode(cp);
    assert s + [] == s && s[|s|..] == [];
  }

  // Which code points come out as well-formed UTF-8: the scalar values, and those that are so large
  // that a message is returned instead.
  lemma EncoderIsValidIffScalar(cp: nat)
    ensures IsValid(Utf8Of(cp)) <==> IsScalar(cp) || cp > MAX_CODE_POINT_4
  {
    hide FirstLength, Encode, UpperHex;
    if cp > MAX_CODE_POINT_4 {
      AsciiIsValid(Utf8Of(cp));
    } else if cp > 0 {
      SingleIsValidIffScalar(cp);
    }
  }

  // The message is promised for exactly the code points above 0x10FFFF; the promise is kept except
  // for those that still fit into 21 bits.
  lemma MessageAsPromisedIff(cp: nat)
    ensures (Utf8Of(cp) == Message(cp) <==> cp > 0x10FFFF) <==> !(0x110000 <= cp <= MAX_CODE_POINT_4)
  {
    hide UpperHex;
    assert |Message(cp)| > 4;
    assert cp <= MAX_CODE_POINT_4 ==> |Utf8Of(cp)| <= 4;
  }

  // The first such number comes out as four bytes that are not UTF-8.
  lemma FirstBeyondUnicode()
    ensures Utf8Of(0x110000) == [0xF4, 0x90, 0x80, 0x80] && !IsValid(Utf8Of(0x110000))
  {
    EncoderIsValidIffScalar(0x110000);
  }

  // What the encoder returns for a scalar value other than 0 decodes to that value.
  lemma EncoderRoundTrip(cp: nat)
    requires IsScalar(cp) && cp > 0
    ensures FirstLength(Utf8Of(cp)) == |Utf8Of(cp)| && Decode(Utf8Of(cp)) == cp
  {
    EncodingIsFirst(cp, []);
    assert Encode(cp) + [] == Encode(cp);
  }
}
