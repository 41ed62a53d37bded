/**
 The part of ECMAScript regular expressions that the Renamer's templates compile to: characters,
 escaped characters, `\d`, character classes, `+` and capture groups (section 15.10.1 of ECMA-262,
 3rd edition; a backslash before any other character than a letter or digit is an identity escape).
 */
module EcmaRegex {
  import opened Text

  datatype Term =
    | Char(c: char)
    | Class(negated: bool, ranges: seq<(char, char)>)
    | Plus(item: Term)
    | Group(terms: seq<Term>)

  const DIGIT := Class(false, [('0', '9')])

  // --------------------------------------------------------------------------
  // Parsing
  // --------------------------------------------------------------------------

  datatype Parse<T> = Fail | Ok(value: T, rest: string)

  // The terms up to the end or a closing parenthesis.
  function ParseTerms(s: string): (p: Parse<seq<Term>>)
    ensures p.Ok? ==> |p.rest| <= |s|
    decreases |s|, 1
  {
    if s == "" || s[0] == ')' then Ok([], s)
    else
      match ParseAtom(s)
      case Fail => Fail
      case Ok(atom, rest) =>
        var quantified := rest != "" && rest[0] == '+';
        match ParseTerms(if quantified then rest[1..] else rest)
        case Fail => Fail
        case Ok(terms, rest') => Ok([if quantified then Plus(atom) else atom] + terms, rest')
  }

  function ParseAtom(s: string): (p: Parse<Term>)
    requires s != ""
    ensures p.Ok? ==> |p.rest| < |s|
    decreases |s|, 0
  {
    match s[0]
    case '\\' =>
      if |s| < 2 then Fail
      else if s[1] == 'd' then Ok(DIGIT, s[2..])
      else if IsAlnum(s[1]) then Fail
      else Ok(Char(s[1]), s[2..])
    case '(' =>
      (match ParseTerms(s[1..])
       case Fail => Fail
       case Ok(terms, rest) => if rest != "" && rest[0] == ')' then Ok(Group(terms), rest[1..]) else Fail)
    case '[' =>
      var negated := |s| > 1 && s[1] == '^';
      (match ParseRanges(if negated then s[2..] else s[1..])
       case Fail => Fail
       case Ok(ranges, rest) => Ok(Class(negated, ranges), rest))
    case c => if c in "^$.*+?)]{}|" then Fail else Ok(Char(c), s[1..])
  }

  // The ranges of a class, up to and including its closing bracket.
  function ParseRanges(s: string): (p: Parse<seq<(char, char)>>)
    ensures p.Ok? ==> |p.rest| < |s|
    decreases |s|
  {
    if s == "" || s[0] == '\\' then Fail
    else if s[0] == ']' then Ok([], s[1..])
    else
      var isRange := |s| > 2 && s[1] == '-' && s[2] != ']';
      if isRange && (s[2] == '\\' || s[2] < s[0]) then Fail
      else
        match ParseRanges(if isRange then s[3..] else s[1..])
        case Fail => Fail
        case Ok(ranges, rest) => Ok([(s[0], if isRange then s[2] else s[0])] + ranges, rest)
  }

  // --------------------------------------------------------------------------
  // Matching
  // --------------------------------------------------------------------------

  predicate InRanges(ranges: seq<(char, char)>, c: char) {
    exists i | 0 <= i < |ranges| :: ranges[i].0 <= c <= ranges[i].1
  }

  // The terms match all of the text, capturing `caps`, one for each group in order.
  ghost predicate MatchTerms(terms: seq<Term>, text: string, caps: seq<string>)
    decreases terms, 0, 0
  {
    if terms == [] then text == "" && caps == []
    else
      exists k, m | 0 <= k <= |text| && 0 <= m <= |caps| ::
        MatchTerm(terms[0], text[..k], caps[..m]) && MatchTerms(terms[1..], text[k..], caps[m..])
  }

  ghost predicate MatchTerm(term: Term, text: string, caps: seq<string>)
    decreases term, 0, 0
  {
    match term
    case Char(c) => text == [c] && caps == []
    case Class(negated, ranges) => |text| == 1 && InRanges(ranges, text[0]) != negated && caps == []
    case Plus(item) => Repeats(item, text) && caps == []
    case Group(terms) => caps != [] && caps[0] == text && MatchTerms(terms, text, caps[1..])
  }

  // One or more matches of a term without groups, one after the other.
  ghost predicate Repeats(item: Term, text: string)
    decreases item, 1, |text|
  {
    exists k | 0 < k <= |text| :: MatchTerm(item, text[..k], []) && (k == |text| || Repeats(item, text[k..]))
  }

  // A repeated class matches the nonempty texts of its characters.
  lemma {:induction false} PlusOfClass(item: Term, text: string)
    requires item.Class?
    ensures Repeats(item, text) <==>
            text != "" && forall i | 0 <= i < |text| :: InRanges(item.ranges, text[i]) != item.negated
    decreases |text|
  {
    if |text| == 1 {
      assert text[..1] == text;
      assert MatchTerm(item, text[..1], []) <==> InRanges(item.ranges, text[0]) != item.negated;
    } else if text != "" {
      PlusOfClass(item, text[1..]);
      assert forall i | 0 < i < |text| :: text[i] == text[1..][i - 1];
      if Repeats(item, text) {
        var k :| 0 < k <= |text| && MatchTerm(item, text[..k], []) && (k == |text| || Repeats(item, text[k..]));
        assert |text[..k]| == 1 && text[..k][0] == text[0];
      }
      if InRanges(item.ranges, text[0]) != item.negated && Repeats(item, text[1..]) {
        assert MatchTerm(item, text[..1], []);
      }
    }
  }
}
