/**
 The Renamer's templates: text with `<name>` variables, compiled to a regular expression that file
 names are matched against, and rendered from the captured texts.
 */
module Renamer {
  import opened Text
  import opened EcmaRegex
  import opened IniReader

  datatype Code = Success | InvalidVariableName | MissingVariableBrackets | DuplicateVariableName | InvalidVariableType

  // The types a variable may have: string, alpha, digit and float.
  datatype Kind = AnyText | Alpha | Digits | Float

  datatype Token = Literal(c: char) | Variable(name: string, kind: Kind)

  // --------------------------------------------------------------------------
  // The rule file
  // --------------------------------------------------------------------------

  // A value in angle brackets, without them.
  function GetIni(rule: Values, section: string, key: string, defaultValue: string): string {
    var ans := Get(rule, section, "<" + key + ">", defaultValue);
    if ans == "" || ans[0] != '<' || ans[|ans| - 1] != '>' then defaultValue
    else ans[1..|ans| - 1]
  }

  // The text is what the entry for the key holds in angle brackets; without such an entry the
  // default value, or what that holds in brackets if there is no entry at all.
  ghost predicate Gives(rule: Values, section: string, key: string, defaultValue: string, text: string) {
    var k := MakeKey(section, "<" + key + ">");
    var v := if k in rule then rule[k] else defaultValue;
    v == "<" + text + ">" || (text == defaultValue && forall t: string :: v != "<" + t + ">")
  }

  lemma GetIniGives(rule: Values, section: string, key: string, defaultValue: string, text: string)
    ensures text == GetIni(rule, section, key, defaultValue) <==> Gives(rule, section, key, defaultValue, text)
  {
    hide MakeKey;
    var k := MakeKey(section, "<" + key + ">");
    var v := if k in rule then rule[k] else defaultValue;
    forall t: string
      ensures v == "<" + t + ">" ==> t == v[1..|v| - 1] && v[0] == '<' && v[|v| - 1] == '>'
    {
    }
    if |v| > 1 && v[0] == '<' && v[|v| - 1] == '>' {
      assert v == "<" + v[1..|v| - 1] + ">";
    }
  }

  datatype MaybeKind = NoKind | OfKind(kind: Kind)

  // The declared type of a variable: the value at key "<>" of its map section.
  function KindOf(rule: Values, name: string): MaybeKind {
    var t := GetIni(rule, "Map." + name, "", "");
    if t == "string" then OfKind(AnyText)
    else if t == "alpha" then OfKind(Alpha)
    else if t == "digit" then OfKind(Digits)
    else if t == "float" then OfKind(Float)
    else NoKind
  }

  // The four types are declared by an entry for the empty text.
  lemma KindIff(rule: Values, name: string)
    ensures var k := MakeKey("Map." + name, "<>");
            && (KindOf(rule, name) == OfKind(AnyText) <==> k in rule && rule[k] == "<string>")
            && (KindOf(rule, name) == OfKind(Alpha) <==> k in rule && rule[k] == "<alpha>")
            && (KindOf(rule, name) == OfKind(Digits) <==> k in rule && rule[k] == "<digit>")
            && (KindOf(rule, name) == OfKind(Float) <==> k in rule && rule[k] == "<float>")
  {
    hide MakeKey, GetIni;
    assert "<" + "" + ">" == "<>";
    assert "<" + "string" + ">" == "<string>" && "<" + "alpha" + ">" == "<alpha>";
    assert "<" + "digit" + ">" == "<digit>" && "<" + "float" + ">" == "<float>";
    GetIniGives(rule, "Map." + name, "", "", "string");
    GetIniGives(rule, "Map." + name, "", "", "alpha");
    GetIniGives(rule, "Map." + name, "", "", "digit");
    GetIniGives(rule, "Map." + name, "", "", "float");
  }

  // --------------------------------------------------------------------------
  // What a template means
  // --------------------------------------------------------------------------

  function NamesOf(tokens: seq<Token>): seq<string> {
    if tokens == [] then []
    else (if tokens[0].Variable? then [tokens[0].name] else []) + NamesOf(tokens[1..])
  }

  function TemplateText(tokens: seq<Token>): string {
    if tokens == [] then ""
    else (if tokens[0].Variable? then "<" + tokens[0].name + ">" else [tokens[0].c]) + TemplateText(tokens[1..])
  }

  predicate NoBrackets(s: string) { '<' !in s && '>' !in s }

  // Literals are no brackets, and variables have proper names and their declared type.
  ghost predicate TokenFits(rule: Values, token: Token) {
    match token
    case Literal(c) => c != '<' && c != '>'
    case Variable(name, kind) => name != "" && NoBrackets(name) && KindOf(rule, name) == OfKind(kind)
  }

  ghost predicate DistinctNames(names: seq<string>) {
    forall i, j | 0 <= i < j < |names| :: names[i] != names[j]
  }

  // An unterminated '<' at the end of a template, with what follows it.
  predicate IsDangling(s: string) { s == "" || (s[0] == '<' && NoBrackets(s[1..])) }

  ghost predicate IsTemplate(rule: Values, s: string, tokens: seq<Token>) {
    && AllFit(rule, tokens) && DistinctNames(NamesOf(tokens))
    && exists dangling :: IsDangling(dangling) && s == TemplateText(tokens) + dangling
  }

  // --------------------------------------------------------------------------
  // Reading a template
  // --------------------------------------------------------------------------

  datatype Reading = Bad(code: Code) | Good(tokens: seq<Token>) {
    function Behind(token: Token): Reading {
      if Bad? then this else Good([token] + tokens)
    }
  }

  // From outside a variable; `seen` are the variables so far.
  function ReadText(rule: Values, s: string, seen: seq<string>): Reading
    decreases |s|
  {
    if s == "" then Good([])
    else if s[0] == '<' then ReadVariable(rule, s[1..], "", seen)
    else if s[0] == '>' then Bad(MissingVariableBrackets)
    else ReadText(rule, s[1..], seen).Behind(Literal(s[0]))
  }

  // From inside a variable whose name begins with `name`.
  function ReadVariable(rule: Values, s: string, name: string, seen: seq<string>): Reading
    decreases |s|
  {
    if s == "" then Good([])
    else if s[0] == '<' then Bad(InvalidVariableName)
    else if s[0] == '>' then
      if name == "" then Bad(InvalidVariableName)
      else if name in seen then Bad(DuplicateVariableName)
      else
        match KindOf(rule, name)
        case NoKind => Bad(InvalidVariableType)
        case OfKind(kind) => ReadText(rule, s[1..], seen + [name]).Behind(Variable(name, kind))
    else ReadVariable(rule, s[1..], name + [s[0]], seen)
  }

  ghost predicate AllFit(rule: Values, tokens: seq<Token>) {
    forall token | token in tokens :: TokenFits(rule, token)
  }

  lemma FitsMore(rule: Values, token: Token, rest: seq<Token>, seen: seq<string>)
    requires TokenFits(rule, token) && AllFit(rule, rest)
    requires DistinctNames((if token.Variable? then seen + [token.name] else seen) + NamesOf(rest))
    ensures AllFit(rule, [token] + rest) && DistinctNames(seen + NamesOf([token] + rest))
    ensures seen + NamesOf([token] + rest) == (if token.Variable? then seen + [token.name] else seen) + NamesOf(rest)
  {
    assert ([token] + rest)[1..] == rest;
    if token.Variable? {
      assert seen + ([token.name] + NamesOf(rest)) == seen + [token.name] + NamesOf(rest);
    } else {
      assert [] + NamesOf(rest) == NamesOf(rest);
    }
  }

  lemma TextOfMore(token: Token, rest: seq<Token>, tail: string)
    ensures TemplateText([token] + rest) + tail ==
            (if token.Variable? then "<" + token.name + ">" else [token.c]) + (TemplateText(rest) + tail)
    ensures NamesOf([token] + rest) == (if token.Variable? then [token.name] else []) + NamesOf(rest)
  {
    assert ([token] + rest)[1..] == rest;
  }

  lemma NoTokens(rule: Values, s: string, seen: seq<string>)
    ensures AllFit(rule, []) && NamesOf([]) == [] && seen + NamesOf([]) == seen
    ensures TemplateText([]) + s == s
  {
  }

  // A name opened and ended by this character.
  ghost predicate Opens(s: string, name: string, end: char, rest: string) {
    NoBrackets(name) && s == "<" + name + [end] + rest
  }

  // What can be wrong with the rest of a template: a '>' outside of a variable; a '<' inside of one
  // or a name that is empty; a name that was seen before; a name without a type.
  ghost predicate IsFault(rule: Values, seen: seq<string>, s: string, code: Code) {
    match code
    case Success => false
    case MissingVariableBrackets => s != "" && s[0] == '>'
    case InvalidVariableName =>
      exists name, rest :: Opens(s, name, '<', rest) || (name == "" && Opens(s, name, '>', rest))
    case DuplicateVariableName => exists name, rest :: name != "" && name in seen && Opens(s, name, '>', rest)
    case InvalidVariableType =>
      exists name, rest :: name != "" && name !in seen && KindOf(rule, name).NoKind? && Opens(s, name, '>', rest)
  }

  lemma {:induction false} SplitName(s: string) returns (name: string, rest: string)
    ensures s == name + rest && NoBrackets(name) && (rest != "" ==> rest[0] == '<' || rest[0] == '>')
  {
    if s == "" || s[0] == '<' || s[0] == '>' {
      name, rest := "", s;
    } else {
      name, rest := SplitName(s[1..]);
      assert s == [s[0]] + s[1..];
      name := [s[0]] + name;
    }
  }

  lemma OpensWith(s: string, name: string, rest: string)
    requires s != "" && s[0] == '<' && s[1..] == name + rest && NoBrackets(name)
    ensures rest == "" ==> IsDangling(s)
    ensures rest != "" ==> Opens(s, name, rest[0], rest[1..])
    ensures rest != "" && rest[0] == '>' ==> s == "<" + name + ">" + rest[1..]
  {
    assert s == "<" + s[1..];
    assert rest != "" ==> rest == [rest[0]] + rest[1..];
    assert rest == "" ==> name + rest == name;
  }

  // Every text is a template up to its first fault.
  lemma {:induction false} Decompose(rule: Values, s: string, seen: seq<string>)
    returns (tokens: seq<Token>, tail: string, code: Code)
    requires DistinctNames(seen)
    ensures s == TemplateText(tokens) + tail && AllFit(rule, tokens) && DistinctNames(seen + NamesOf(tokens))
    ensures if code == Success then IsDangling(tail) else IsFault(rule, seen + NamesOf(tokens), tail, code)
    decreases |s|
  {
    hide KindOf, DistinctNames, AllFit, TemplateText, NamesOf, Opens, NoBrackets, TokenFits;
    tokens, tail, code := [], s, Success;
    NoTokens(rule, s, seen);
    if s == "" {
    } else if s[0] == '>' {
      code := MissingVariableBrackets;
    } else if s[0] == '<' {
      var name, rest := SplitName(s[1..]);
      OpensWith(s, name, rest);
      if rest == "" {
      } else if rest[0] == '<' || name == "" {
        code := InvalidVariableName;
      } else if name in seen {
        code := DuplicateVariableName;
      } else if KindOf(rule, name).NoKind? {
        code := InvalidVariableType;
      } else {
        var token := Variable(name, KindOf(rule, name).kind);
        NewName(rule, name, seen);
        tokens, tail, code := Decompose(rule, rest[1..], seen + [name]);
        FitsMore(rule, token, tokens, seen);
        TextOfMore(token, tokens, tail);
        tokens := [token] + tokens;
      }
    } else {
      tokens, tail, code := Decompose(rule, s[1..], seen);
      LiteralFits(rule, s[0]);
      FitsMore(rule, Literal(s[0]), tokens, seen);
      TextOfMore(Literal(s[0]), tokens, tail);
      tokens := [Literal(s[0])] + tokens;
    }
  }

  lemma LiteralFits(rule: Values, c: char)
    requires c != '<' && c != '>'
    ensures TokenFits(rule, Literal(c))
  {
  }

  lemma NewName(rule: Values, name: string, seen: seq<string>)
    requires DistinctNames(seen) && name !in seen && NoBrackets(name) && name != "" && KindOf(rule, name).OfKind?
    ensures DistinctNames(seen + [name]) && TokenFits(rule, Variable(name, KindOf(rule, name).kind))
  {
  }

  lemma {:induction false} NameIsRead(rule: Values, name: string, begun: string, rest: string, seen: seq<string>)
    requires NoBrackets(name)
    ensures ReadVariable(rule, name + rest, begun, seen) == ReadVariable(rule, rest, begun + name, seen)
    decreases |name|
  {
    if name == "" {
      assert name + rest == rest && begun + name == begun;
    } else {
      assert (name + rest)[1..] == name[1..] + rest && begun + [name[0]] + name[1..] == begun + name;
      assert name[0] in name && forall c | c in name[1..] :: c in name;
      NameIsRead(rule, name[1..], begun + [name[0]], rest, seen);
    }
  }

  lemma VariableIsRead(rule: Values, name: string, kind: Kind, after: string, seen: seq<string>)
    requires TokenFits(rule, Variable(name, kind)) && name !in seen
    ensures ReadText(rule, "<" + name + ">" + after, seen) ==
        ReadText(rule, after, seen + [name]).Behind(Variable(name, kind))
  {
    hide KindOf;
    var s := "<" + name + ">" + after;
    assert s[1..] == name + (">" + after) && (">" + after)[1..] == after;
    NameIsRead(rule, name, "", ">" + after, seen);
    assert "" + name == name;
  }

  lemma DanglingIsDropped(rule: Values, dangling: string, seen: seq<string>)
    requires IsDangling(dangling)
    ensures ReadText(rule, dangling, seen) == Good([])
  {
    hide KindOf;
    if dangling != "" {
      assert dangling[1..] + "" == dangling[1..] && "" + dangling[1..] == dangling[1..];
      NameIsRead(rule, dangling[1..], "", "", seen);
    }
  }

  lemma NewNameIsNotSeen(seen: seq<string>, name: string, rest: seq<string>)
    requires DistinctNames(seen + ([name] + rest))
    ensures name !in seen && DistinctNames(seen + [name] + rest)
  {
    var names := seen + ([name] + rest);
    assert names == seen + [name] + rest;
    assert names[|seen|] == name && forall i | 0 <= i < |seen| :: names[i] == seen[i];
  }

  lemma LiteralIsRead(rule: Values, c: char, after: string, seen: seq<string>)
    requires TokenFits(rule, Literal(c))
    ensures ReadText(rule, [c] + after, seen) == ReadText(rule, after, seen).Behind(Literal(c))
  {
    hide KindOf;
    assert ([c] + after)[1..] == after;
  }

  // A fault at the front is reported.
  lemma FaultIsReported(rule: Values, s: string, seen: seq<string>, code: Code)
    requires IsFault(rule, seen, s, code)
    ensures ReadText(rule, s, seen) == Bad(code)
  {
    hide KindOf;
    if code != MissingVariableBrackets {
      var name, end, rest := OpenedName(rule, s, seen, code);
      assert s[1..] == name + ([end] + rest);
      NameIsRead(rule, name, "", [end] + rest, seen);
      assert "" + name == name;
    }
  }

  lemma OpenedName(rule: Values, s: string, seen: seq<string>, code: Code)
    returns (name: string, end: char, rest: string)
    requires IsFault(rule, seen, s, code) && code != MissingVariableBrackets
    ensures Opens(s, name, end, rest)
    ensures match code
            case InvalidVariableName => end == '<' || (end == '>' && name == "")
            case DuplicateVariableName => end == '>' && name != "" && name in seen
            case _ => end == '>' && name != "" && name !in seen && KindOf(rule, name).NoKind?
  {
    hide KindOf, Opens;
    end := '>';
    if code == InvalidVariableName {
      name, rest :| Opens(s, name, '<', rest) || (name == "" && Opens(s, name, '>', rest));
      end := if Opens(s, name, '<', rest) then '<' else '>';
    } else if code == DuplicateVariableName {
      name, rest :| name != "" && name in seen && Opens(s, name, '>', rest);
    } else {
      name, rest :| name != "" && name !in seen && KindOf(rule, name).NoKind? && Opens(s, name, '>', rest);
    }
  }

  function Behind(tokens: seq<Token>, r: Reading): Reading {
    if r.Bad? then r else Good(tokens + r.tokens)
  }

  lemma BehindMore(token: Token, tokens: seq<Token>, r: Reading)
    ensures Behind(tokens, r).Behind(token) == Behind([token] + tokens, r)
    ensures Behind([], r) == r
  {
    if r.Good? {
      assert [token] + (tokens + r.tokens) == [token] + tokens + r.tokens;
    }
  }

  // Whatever follows it, a template is read token by token.
  lemma {:induction false} TemplateIsRead(rule: Values, tokens: seq<Token>, tail: string, seen: seq<string>)
    requires AllFit(rule, tokens) && DistinctNames(seen + NamesOf(tokens))
    ensures ReadText(rule, TemplateText(tokens) + tail, seen) ==
            Behind(tokens, ReadText(rule, tail, seen + NamesOf(tokens)))
    decreases |tokens|
  {
    hide KindOf, TokenFits, ReadText, ReadVariable, DistinctNames, NoBrackets, TemplateText, NamesOf, Behind;
    if tokens == [] {
      NoTokens(rule, tail, seen);
      BehindMore(Literal(' '), [], ReadText(rule, tail, seen));
    } else {
      var token, rest := tokens[0], tokens[1..];
      var after := TemplateText(rest) + tail;
      assert tokens == [token] + rest && TokenFits(rule, token);
      TextOfMore(token, rest, tail);
      match token {
        case Literal(c) =>
          LiteralIsRead(rule, c, after, seen);
          assert [] + NamesOf(rest) == NamesOf(rest);
          TemplateIsRead(rule, rest, tail, seen);
          BehindMore(token, rest, ReadText(rule, tail, seen + NamesOf(rest)));
        case Variable(name, kind) =>
          NewNameIsNotSeen(seen, name, NamesOf(rest));
          assert seen + ([name] + NamesOf(rest)) == seen + [name] + NamesOf(rest);
          TemplateIsRead(rule, rest, tail, seen + [name]);
          VariableIsRead(rule, name, kind, after, seen);
          BehindMore(token, rest, ReadText(rule, tail, seen + NamesOf(tokens)));
      }
    }
  }

  // Both ways of going on behind a template.
  lemma TailIsRead(rule: Values, tokens: seq<Token>, tail: string, code: Code)
    requires AllFit(rule, tokens) && DistinctNames(NamesOf(tokens))
    ensures IsDangling(tail) ==> ReadText(rule, TemplateText(tokens) + tail, []) == Good(tokens)
    ensures IsFault(rule, NamesOf(tokens), tail, code) ==> ReadText(rule, TemplateText(tokens) + tail, []) == Bad(code)
  {
    hide ReadText, TokenFits, TemplateText, NamesOf, IsDangling, IsFault;
    assert [] + NamesOf(tokens) == NamesOf(tokens) && tokens + [] == tokens;
    TemplateIsRead(rule, tokens, tail, []);
    if IsDangling(tail) {
      DanglingIsDropped(rule, tail, NamesOf(tokens));
    }
    if IsFault(rule, NamesOf(tokens), tail, code) {
      FaultIsReported(rule, tail, NamesOf(tokens), code);
    }
  }

  // A template is accepted exactly when it follows the grammar, and then its tokens are what is read.
  lemma AcceptedIffTemplate(rule: Values, s: string, tokens: seq<Token>)
    ensures ReadText(rule, s, []) == Good(tokens) <==> IsTemplate(rule, s, tokens)
  {
    hide ReadText, AllFit, TemplateText, NamesOf, IsDangling, IsFault;
    var tokens', tail, code := Decompose(rule, s, []);
    assert [] + NamesOf(tokens') == NamesOf(tokens');
    TailIsRead(rule, tokens', tail, code);
    if IsTemplate(rule, s, tokens) {
      var dangling :| IsDangling(dangling) && s == TemplateText(tokens) + dangling;
      TailIsRead(rule, tokens, dangling, Success);
    }
  }

  // Otherwise the error is that of the first fault, behind a part that follows the grammar.
  lemma RejectedIffFault(rule: Values, s: string, code: Code)
    ensures ReadText(rule, s, []) == Bad(code)
            <==> exists tokens, fault ::
              && AllFit(rule, tokens) && DistinctNames(NamesOf(tokens)) && s == TemplateText(tokens) + fault
              && IsFault(rule, NamesOf(tokens), fault, code)
  {
    hide ReadText, AllFit, TemplateText, NamesOf, IsDangling, IsFault;
    var tokens', tail, code' := Decompose(rule, s, []);
    assert [] + NamesOf(tokens') == NamesOf(tokens');
    TailIsRead(rule, tokens', tail, code');
    if tokens, fault :|
      && AllFit(rule, tokens) && DistinctNames(NamesOf(tokens)) && s == TemplateText(tokens) + fault
      && IsFault(rule, NamesOf(tokens), fault, code)
    {
      TailIsRead(rule, tokens, fault, code);
    }
  }

  // --------------------------------------------------------------------------
  // The regular expression
  // --------------------------------------------------------------------------

  function KindRegex(kind: Kind): string {
    match kind
    case AnyText => "([^<]+)"
    case Alpha => "([A-Za-z]+)"
    case Digits => "(\\d+)"
    case Float => "(\\d+\\.\\d+)"
  }

  function TokenRegex(token: Token): string {
    match token
    case Literal(c) => if IsAlnum(c) then [c] else ['\\', c]
    case Variable(_, kind) => KindRegex(kind)
  }

  function RegexOf(tokens: seq<Token>): string {
    if tokens == [] then "" else TokenRegex(tokens[0]) + RegexOf(tokens[1..])
  }

  // What each token should match.
  function KindTerms(kind: Kind): seq<Term> {
    match kind
    case AnyText => [Plus(Class(true, [('<', '<')]))]
    case Alpha => [Plus(Class(false, [('A', 'Z'), ('a', 'z')]))]
    case Digits => [Plus(DIGIT)]
    case Float => [Plus(DIGIT), Char('.'), Plus(DIGIT)]
  }

  function TermOf(token: Token): Term {
    match token
    case Literal(c) => Char(c)
    case Variable(_, kind) => Group(KindTerms(kind))
  }

  function TermsOf(tokens: seq<Token>): seq<Term> {
    if tokens == [] then [] else [TermOf(tokens[0])] + TermsOf(tokens[1..])
  }

  // Parsed as an ECMAScript pattern, the expression is the sequence of the template's tokens.
  lemma {:induction false} RegexParses(tokens: seq<Token>)
    ensures ParseTerms(RegexOf(tokens)) == Ok(TermsOf(tokens), "")
  {
    hide ParseTerms, ParseAtom, TokenRegex;
    if tokens == [] {
      EmptyParses();
    } else {
      var rest := RegexOf(tokens[1..]);
      RegexParses(tokens[1..]);
      RegexDoesNotStartWithPlus(tokens[1..]);
      TokenParses(tokens[0], rest);
      AtomThenTerms(RegexOf(tokens), rest);
    }
  }

  lemma EmptyParses()
    ensures ParseTerms("") == Ok([], "")
  {
  }

  // An atom with no quantifier, then the other terms.
  lemma AtomThenTerms(s: string, rest: string)
    requires s != "" && s[0] != ')' && ParseAtom(s).Ok? && ParseAtom(s).rest == rest
    requires rest == "" || rest[0] != '+'
    ensures ParseTerms(s) ==
            match ParseTerms(rest)
            case Fail => Fail
            case Ok(terms, r) => Ok([ParseAtom(s).value] + terms, r)
  {
    hide ParseAtom;
  }

  lemma PlusThenTerms(s: string, rest: string)
    requires s != "" && s[0] != ')' && ParseAtom(s).Ok? && ParseAtom(s).rest == "+" + rest
    ensures ParseTerms(s) ==
            match ParseTerms(rest)
            case Fail => Fail
            case Ok(terms, r) => Ok([Plus(ParseAtom(s).value)] + terms, r)
  {
    hide ParseAtom;
    assert ("+" + rest)[1..] == rest;
  }

  lemma RegexDoesNotStartWithPlus(tokens: seq<Token>)
    ensures RegexOf(tokens) == "" || RegexOf(tokens)[0] !in ")+"
  {
  }

  lemma LiteralParses(c: char, rest: string)
    ensures var s := TokenRegex(Literal(c)) + rest;
            s != "" && s[0] != ')' && ParseAtom(s) == Ok(Char(c), rest)
  {
    hide ParseTerms, ParseRanges;
    var s := TokenRegex(Literal(c)) + rest;
    assert IsAlnum(c) ==> s[1..] == rest;
    assert !IsAlnum(c) ==> s[2..] == rest;
  }

  lemma GroupParses(s: string, terms: seq<Term>, rest: string)
    requires s != "" && s[0] == '(' && ParseTerms(s[1..]) == Ok(terms, ")" + rest)
    ensures ParseAtom(s) == Ok(Group(terms), rest)
  {
    hide ParseTerms, ParseRanges;
    assert (")" + rest)[1..] == rest;
  }

  lemma TokenParses(token: Token, rest: string)
    ensures var s := TokenRegex(token) + rest;
            s != "" && s[0] != ')' && ParseAtom(s) == Ok(TermOf(token), rest)
  {
    hide ParseTerms, ParseRanges, ParseAtom, KindTerms;
    match token {
      case Literal(c) =>
        LiteralParses(c, rest);
      case Variable(_, kind) =>
        var s := TokenRegex(token) + rest;
        KindParses(kind, rest);
        assert s[1..] == KindRegex(kind)[1..] + rest;
        GroupParses(s, KindTerms(kind), rest);
    }
  }

  lemma GroupEnds(rest: string)
    ensures ParseTerms(")" + rest) == Ok([], ")" + rest)
  {
  }

  lemma NotLessParses(rest: string)
    ensures ParseAtom("[^<]" + rest) == Ok(Class(true, [('<', '<')]), rest)
  {
    var s := "[^<]" + rest;
    assert s[2..] == "<]" + rest && ("<]" + rest)[1..] == "]" + rest && ("]" + rest)[1..] == rest;
    assert ParseRanges("]" + rest) == Ok([], rest);
    assert [('<', '<')] + [] == [('<', '<')];
    assert ParseRanges("<]" + rest) == Ok([('<', '<')], rest);
  }

  lemma LettersParse(rest: string)
    ensures ParseAtom("[A-Za-z]" + rest) == Ok(Class(false, [('A', 'Z'), ('a', 'z')]), rest)
  {
    var s := "[A-Za-z]" + rest;
    assert s[1..] == "A-Za-z]" + rest && ("A-Za-z]" + rest)[3..] == "a-z]" + rest;
    assert ("a-z]" + rest)[3..] == "]" + rest && ("]" + rest)[1..] == rest;
    assert ParseRanges("]" + rest) == Ok([], rest);
    assert [('a', 'z')] + [] == [('a', 'z')] && [('A', 'Z')] + [('a', 'z')] == [('A', 'Z'), ('a', 'z')];
    assert ParseRanges("a-z]" + rest) == Ok([('a', 'z')], rest);
    assert ParseRanges("A-Za-z]" + rest) == Ok([('A', 'Z'), ('a', 'z')], rest);
  }

  lemma DigitsParse(rest: string)
    requires ParseTerms(rest).Ok?
    ensures ParseTerms("\\d+" + rest) == Ok([Plus(DIGIT)] + ParseTerms(rest).value, ParseTerms(rest).rest)
  {
    hide ParseTerms;
    var s := "\\d+" + rest;
    assert s[2..] == "+" + rest;
    PlusThenTerms(s, rest);
  }

  lemma DotParses(rest: string)
    requires ParseTerms(rest).Ok? && (rest == "" || rest[0] != '+')
    ensures ParseTerms("\\." + rest) == Ok([Char('.')] + ParseTerms(rest).value, ParseTerms(rest).rest)
  {
    hide ParseTerms;
    var s := "\\." + rest;
    assert s[2..] == rest;
    AtomThenTerms(s, rest);
  }

  // The inside of a group, up to its closing parenthesis.
  lemma KindParses(kind: Kind, rest: string)
    ensures ParseTerms(KindRegex(kind)[1..] + rest) == Ok(KindTerms(kind), ")" + rest)
  {
    hide ParseTerms, ParseAtom, ParseRanges, KindRegex, KindTerms;
    match kind {
      case AnyText => AnyTextParses(rest);
      case Alpha => AlphaParses(rest);
      case Digits => DigitsGroupParses(rest);
      case Float => FloatGroupParses(rest);
    }
  }

  lemma ClosesGroup(atom: string, rest: string)
    ensures atom + "+)" + rest == atom + ("+" + (")" + rest))
  {
  }

  lemma AnyTextParses(rest: string)
    ensures ParseTerms(KindRegex(AnyText)[1..] + rest) == Ok(KindTerms(AnyText), ")" + rest)
  {
    hide ParseTerms, ParseAtom, ParseRanges;
    GroupEnds(rest);
    NotLessParses("+" + (")" + rest));
    ClassPlusParses("[^<]", Class(true, [('<', '<')]), ")" + rest);
    ClosesGroup("[^<]", rest);
    assert KindRegex(AnyText)[1..] == "[^<]" + "+)";
  }

  lemma AlphaParses(rest: string)
    ensures ParseTerms(KindRegex(Alpha)[1..] + rest) == Ok(KindTerms(Alpha), ")" + rest)
  {
    hide ParseTerms, ParseAtom, ParseRanges;
    GroupEnds(rest);
    LettersParse("+" + (")" + rest));
    ClassPlusParses("[A-Za-z]", Class(false, [('A', 'Z'), ('a', 'z')]), ")" + rest);
    ClosesGroup("[A-Za-z]", rest);
    assert KindRegex(Alpha)[1..] == "[A-Za-z]" + "+)";
  }

  lemma DigitsGroupParses(rest: string)
    ensures ParseTerms(KindRegex(Digits)[1..] + rest) == Ok(KindTerms(Digits), ")" + rest)
  {
    hide ParseTerms, ParseAtom, ParseRanges;
    GroupEnds(rest);
    DigitsParse(")" + rest);
    assert [Plus(DIGIT)] + [] == KindTerms(Digits);
    assert KindRegex(Digits)[1..] + rest == "\\d+" + (")" + rest);
  }

  lemma FloatGroupParses(rest: string)
    ensures ParseTerms(KindRegex(Float)[1..] + rest) == Ok(KindTerms(Float), ")" + rest)
  {
    hide ParseTerms, ParseAtom, ParseRanges;
    GroupEnds(rest);
    FloatParses(")" + rest);
    assert KindRegex(Float)[1..] + rest == "\\d+" + ("\\." + ("\\d+" + (")" + rest)));
  }

  lemma ClassPlusParses(atom: string, term: Term, end: string)
    requires atom != "" && atom[0] != ')' && ParseAtom(atom + ("+" + end)) == Ok(term, "+" + end)
    requires ParseTerms(end) == Ok([], end)
    ensures ParseTerms(atom + ("+" + end)) == Ok([Plus(term)], end)
  {
    hide ParseTerms, ParseAtom, ParseRanges;
    PlusThenTerms(atom + ("+" + end), end);
    assert [Plus(term)] + [] == [Plus(term)];
  }

  lemma FloatParses(end: string)
    requires ParseTerms(end) == Ok([], end)
    ensures ParseTerms("\\d+" + ("\\." + ("\\d+" + end))) == Ok(KindTerms(Float), end)
  {
    hide ParseTerms, ParseAtom, ParseRanges;
    DigitsParse(end);
    DotParses("\\d+" + end);
    DigitsParse("\\." + ("\\d+" + end));
    assert [Plus(DIGIT)] + ([Char('.')] + ([Plus(DIGIT)] + [])) == KindTerms(Float);
  }

  // --------------------------------------------------------------------------
  // What the expression matches
  // --------------------------------------------------------------------------

  predicate IsLetter(c: char) { 'A' <= c <= 'Z' || 'a' <= c <= 'z' }

  predicate IsDigits(t: string) { t != "" && forall c | c in t :: IsDigit(c) }

  ghost predicate InKind(kind: Kind, t: string) {
    match kind
    case AnyText => t != "" && '<' !in t
    case Alpha => t != "" && forall c | c in t :: IsLetter(c)
    case Digits => IsDigits(t)
    case Float => exists k :: IsFloatAt(t, k)
  }

  // The decimal point is at position k.
  predicate IsFloatAt(t: string, k: int) {
    0 < k < |t| && t[k] == '.' && IsDigits(t[..k]) && IsDigits(t[k + 1..])
  }

  // The four kinds, each with the group it is compiled to.
  lemma KindsMean(t: string)
    ensures KindRegex(AnyText) == "([^<]+)" && (InKind(AnyText, t) <==> t != "" && '<' !in t)
    ensures KindRegex(Alpha) == "([A-Za-z]+)" && KindRegex(Digits) == "(\\d+)" && KindRegex(Float) == "(\\d+\\.\\d+)"
    ensures InKind(Alpha, t) <==> t != "" && forall i | 0 <= i < |t| :: 'A' <= t[i] <= 'Z' || 'a' <= t[i] <= 'z'
    ensures InKind(Digits, t) <==> t != "" && forall i | 0 <= i < |t| :: '0' <= t[i] <= '9'
    ensures InKind(Float, t) <==> exists a, b :: IsPointed(t, a, b)
  {
    assert forall i | 0 <= i < |t| :: t[i] in t;
    if InKind(Float, t) {
      var k :| IsFloatAt(t, k);
      assert t == t[..k] + "." + t[k + 1..];
      assert IsPointed(t, t[..k], t[k + 1..]);
    }
    if a, b :| IsPointed(t, a, b) {
      assert t[..|a|] == a && t[|a| + 1..] == b;
      assert IsFloatAt(t, |a|);
    }
  }

  ghost predicate IsPointed(t: string, a: string, b: string) {
    t == a + "." + b && InKind(Digits, a) && InKind(Digits, b)
  }

  // The template with the captured texts in place of its variables.
  function Render(tokens: seq<Token>, caps: seq<string>): string
    decreases |tokens|
  {
    if tokens == [] then ""
    else
      match tokens[0]
      case Literal(c) => [c] + Render(tokens[1..], caps)
      case Variable(_, _) => if caps == [] then "" else caps[0] + Render(tokens[1..], caps[1..])
  }

  // One text for each variable, of its type.
  ghost predicate CapsFit(tokens: seq<Token>, caps: seq<string>)
    decreases |tokens|
  {
    if tokens == [] then caps == []
    else
      match tokens[0]
      case Literal(c) => CapsFit(tokens[1..], caps)
      case Variable(_, kind) => caps != [] && InKind(kind, caps[0]) && CapsFit(tokens[1..], caps[1..])
  }

  lemma SingleTerm(term: Term, text: string, caps: seq<string>)
    ensures MatchTerms([term], text, caps) <==> MatchTerm(term, text, caps)
  {
    assert [term][1..] == [];
    if MatchTerms([term], text, caps) {
      var k, m :| 0 <= k <= |text| && 0 <= m <= |caps| && MatchTerm(term, text[..k], caps[..m]) &&
          MatchTerms([], text[k..], caps[m..]);
      assert text[..k] == text && caps[..m] == caps;
    }
    if MatchTerm(term, text, caps) {
      assert text[..|text|] == text && caps[..|caps|] == caps;
      assert MatchTerms([], text[|text|..], caps[|caps|..]);
    }
  }

  lemma PlusMatches(item: Term, text: string)
    requires item.Class?
    ensures MatchTerm(Plus(item), text, []) <==>
            text != "" && forall c | c in text :: InRanges(item.ranges, c) != item.negated
  {
    PlusOfClass(item, text);
    assert forall i | 0 <= i < |text| :: text[i] in text;
  }

  lemma DigitRange(c: char)
    ensures InRanges(DIGIT.ranges, c) <==> IsDigit(c)
    ensures InRanges([('<', '<')], c) <==> c == '<'
    ensures InRanges([('A', 'Z'), ('a', 'z')], c) <==> IsLetter(c)
  {
    assert DIGIT.ranges[0] == ('0', '9') && [('<', '<')][0] == ('<', '<');
    var letters := [('A', 'Z'), ('a', 'z')];
    assert letters[0] == ('A', 'Z') && letters[1] == ('a', 'z');
  }

  lemma DigitsMatch(text: string)
    ensures MatchTerm(Plus(DIGIT), text, []) <==> IsDigits(text)
  {
    hide MatchTerm, InRanges;
    PlusMatches(DIGIT, text);
    forall c
      ensures InRanges(DIGIT.ranges, c) <==> IsDigit(c)
    {
      DigitRange(c);
    }
  }

  lemma KindMatches(kind: Kind, text: string)
    ensures MatchTerms(KindTerms(kind), text, []) <==> InKind(kind, text)
  {
    hide MatchTerms, MatchTerm, InRanges, IsDigits, IsFloatAt;
    match kind {
      case Digits =>
        SingleTerm(Plus(DIGIT), text, []);
        DigitsMatch(text);
      case Float =>
        FloatMatches(text);
      case _ =>
        var item := KindTerms(kind)[0].item;
        SingleTerm(Plus(item), text, []);
        PlusMatches(item, text);
        forall c
          ensures InRanges(item.ranges, c) <==> if kind == AnyText then c == '<' else IsLetter(c)
        {
          DigitRange(c);
        }
    }
  }

  // A character and then the rest.
  lemma CharThen(c: char, terms: seq<Term>, text: string, caps: seq<string>)
    ensures MatchTerms([Char(c)] + terms, text, caps) <==> text != "" && text[0] == c && MatchTerms(terms, text[1..], caps)
  {
    var all := [Char(c)] + terms;
    assert all[1..] == terms;
    if MatchTerms(all, text, caps) {
      var k, m :| 0 <= k <= |text| && 0 <= m <= |caps| && MatchTerm(all[0], text[..k], caps[..m]) &&
          MatchTerms(all[1..], text[k..], caps[m..]);
      assert k == |text[..k]| == 1 && text[0] == text[..k][0] && m == |caps[..m]| == 0 && caps[0..] == caps;
    }
    if text != "" && text[0] == c && MatchTerms(terms, text[1..], caps) {
      assert text[..1] == [c] && caps[..0] == [] && caps[0..] == caps;
      assert MatchTerm(all[0], text[..1], caps[..0]) && MatchTerms(all[1..], text[1..], caps[0..]);
    }
  }

  lemma FloatMatches(text: string)
    ensures MatchTerms(KindTerms(Float), text, []) <==> exists k :: IsFloatAt(text, k)
  {
    hide MatchTerm, IsDigits;
    var terms := KindTerms(Float);
    var tail := [Char('.'), Plus(DIGIT)];
    assert terms[1..] == tail && tail == [Char('.')] + [Plus(DIGIT)];
    forall k | 0 <= k <= |text|
      ensures MatchTerm(Plus(DIGIT), text[..k], []) && MatchTerms(tail, text[k..], []) <==> IsFloatAt(text, k)
    {
      DigitsMatch(text[..k]);
      NotEmptyDigits(text[..k]);
      CharThen('.', [Plus(DIGIT)], text[k..], []);
      if k < |text| {
        assert text[k..][1..] == text[k + 1..] && text[k..][0] == text[k];
        SingleTerm(Plus(DIGIT), text[k + 1..], []);
        DigitsMatch(text[k + 1..]);
      }
    }
    NoCaptures(terms, text);
  }

  lemma NotEmptyDigits(t: string)
    ensures IsDigits(t) ==> t != ""
  {
  }

  lemma NoCaptures(terms: seq<Term>, text: string)
    requires terms != []
    ensures MatchTerms(terms, text, []) <==>
            exists k | 0 <= k <= |text| :: MatchTerm(terms[0], text[..k], []) && MatchTerms(terms[1..], text[k..], [])
  {
    var none: seq<string> := [];
    assert none[..0] == none && none[0..] == none;
    if MatchTerms(terms, text, none) {
      var k, m :| 0 <= k <= |text| && 0 <= m <= |none| && MatchTerm(terms[0], text[..k], none[..m]) &&
          MatchTerms(terms[1..], text[k..], none[m..]);
      assert m == 0;
    }
    if exists k | 0 <= k <= |text| :: MatchTerm(terms[0], text[..k], []) && MatchTerms(terms[1..], text[k..], []) {
      var k :| 0 <= k <= |text| && MatchTerm(terms[0], text[..k], []) && MatchTerms(terms[1..], text[k..], []);
      assert MatchTerm(terms[0], text[..k], none[..0]) && MatchTerms(terms[1..], text[k..], none[0..]);
    }
  }

  // A group and then the rest: its text is the first capture.
  lemma GroupThen(kind: Kind, terms: seq<Term>, text: string, caps: seq<string>)
    ensures MatchTerms([Group(KindTerms(kind))] + terms, text, caps) <==>
            && caps != [] && IsPrefix(caps[0], text) && InKind(kind, caps[0])
            && MatchTerms(terms, text[|caps[0]|..], caps[1..])
  {
    hide InKind;
    var group := Group(KindTerms(kind));
    var all := [group] + terms;
    assert all[1..] == terms;
    if MatchTerms(all, text, caps) {
      var k, m :| 0 <= k <= |text| && 0 <= m <= |caps| && MatchTerm(group, text[..k], caps[..m]) &&
          MatchTerms(all[1..], text[k..], caps[m..]);
      FlatTerms(KindTerms(kind), text[..k], caps[..m][1..]);
      assert m == 1 && caps[..m][0] == caps[0] == text[..k];
      KindMatches(kind, caps[0]);
    }
    if caps != [] && IsPrefix(caps[0], text) && InKind(kind, caps[0]) && MatchTerms(terms, text[|caps[0]|..], caps[1..]) {
      KindMatches(kind, caps[0]);
      var k := |caps[0]|;
      assert caps[..1][0] == caps[0] == text[..k] && caps[..1][1..] == [];
      assert MatchTerm(group, text[..k], caps[..1]) && MatchTerms(all[1..], text[k..], caps[1..]);
    }
  }

  lemma CapturesNothing(term: Term, text: string, caps: seq<string>)
    requires MatchTerm(term, text, caps) && !term.Group?
    ensures caps == []
  {
  }

  lemma AfterFirst(terms: seq<Term>, text: string, caps: seq<string>) returns (k: nat)
    requires MatchTerms(terms, text, caps) && terms != [] && !terms[0].Group?
    ensures k <= |text| && MatchTerms(terms[1..], text[k..], caps)
  {
    hide MatchTerm;
    var m;
    k, m :| 0 <= k <= |text| && 0 <= m <= |caps| && MatchTerm(terms[0], text[..k], caps[..m]) &&
        MatchTerms(terms[1..], text[k..], caps[m..]);
    CapturesNothing(terms[0], text[..k], caps[..m]);
    assert m == |caps[..m]| && caps[0..] == caps;
  }

  // The inside of a variable's group captures nothing itself.
  lemma {:induction false} FlatTerms(terms: seq<Term>, text: string, caps: seq<string>)
    requires MatchTerms(terms, text, caps) && forall i | 0 <= i < |terms| :: !terms[i].Group?
    ensures caps == []
    decreases |terms|
  {
    hide MatchTerms, MatchTerm;
    if terms == [] {
      NoTerms(text, caps);
    } else {
      var k := AfterFirst(terms, text, caps);
      FlatTerms(terms[1..], text[k..], caps);
    }
  }

  // The compiled expression accepts exactly the texts that the template renders, and its captures
  // are the texts of the variables in order.
  lemma {:induction false} MatchesIffRenders(tokens: seq<Token>, name: string, caps: seq<string>)
    ensures MatchTerms(TermsOf(tokens), name, caps) <==> CapsFit(tokens, caps) && name == Render(tokens, caps)
    decreases |tokens|
  {
    hide MatchTerm, InKind, MatchTerms;
    if tokens == [] {
      NoTerms(name, caps);
    } else {
      var rest := tokens[1..];
      match tokens[0] {
        case Literal(c) =>
          CharThen(c, TermsOf(rest), name, caps);
          if name != "" {
            MatchesIffRenders(rest, name[1..], caps);
          }
          assert name != "" ==> name == [name[0]] + name[1..];
          assert ([c] + Render(rest, caps))[1..] == Render(rest, caps);
        case Variable(_, kind) =>
          GroupThen(kind, TermsOf(rest), name, caps);
          if caps != [] {
            if IsPrefix(caps[0], name) {
              MatchesIffRenders(rest, name[|caps[0]|..], caps[1..]);
              assert name == caps[0] + name[|caps[0]|..];
            }
            var shown := caps[0] + Render(rest, caps[1..]);
            assert shown[..|caps[0]|] == caps[0] && shown[|caps[0]|..] == Render(rest, caps[1..]);
          }
      }
    }
  }

  lemma NoTerms(text: string, caps: seq<string>)
    ensures MatchTerms([], text, caps) <==> text == "" && caps == []
  {
  }

  // --------------------------------------------------------------------------
  // Compiling
  // --------------------------------------------------------------------------

  // mp numbers the names 1, 2, ... in order, and holds no other names.
  ghost predicate Numbers(mp: map<string, int>, names: seq<string>) {
    && (forall name :: name in mp <==> name in names)
    && (forall i | 0 <= i < |names| :: mp[names[i]] == i + 1)
  }

  lemma {:induction false} OneTokenMore(tokens: seq<Token>, token: Token)
    ensures RegexOf(tokens + [token]) == RegexOf(tokens) + TokenRegex(token)
    ensures NamesOf(tokens + [token]) == NamesOf(tokens) + if token.Variable? then [token.name] else []
  {
    hide TokenRegex;
    if tokens == [] {
      assert tokens + [token] == [token] && [token][1..] == [];
    } else {
      assert (tokens + [token])[1..] == tokens[1..] + [token];
      OneTokenMore(tokens[1..], token);
    }
  }

  // Where the loop stands: `tokens` are read, and the rest of the template is still to be.
  ghost predicate Compiling(rule: Values, s: string, i: nat, inVar: bool, varName: string, tokens: seq<Token>,
                            mp: map<string, int>, cnt: nat, ans: string)
  {
    && i <= |s| && ans == RegexOf(tokens) && Numbers(mp, NamesOf(tokens)) && cnt == |NamesOf(tokens)|
    && ReadText(rule, s, []) == Behind(tokens, ReadRest(rule, s[i..], inVar, varName, NamesOf(tokens)))
  }

  function ReadRest(rule: Values, s: string, inVar: bool, varName: string, seen: seq<string>): Reading {
    if inVar then ReadVariable(rule, s, varName, seen) else ReadText(rule, s, seen)
  }

  lemma BeginCompiling(rule: Values, s: string)
    ensures Compiling(rule, s, 0, false, "", [], map[], 0, "")
  {
    assert s[0..] == s;
    var r := ReadText(rule, s, []);
    assert r.Good? ==> [] + r.tokens == r.tokens;
  }

  lemma NextToken(rule: Values, s: string, i: nat, inVar: bool, varName: string, tokens: seq<Token>,
                  mp: map<string, int>, cnt: nat, ans: string, token: Token, mp': map<string, int>)
    requires Compiling(rule, s, i, inVar, varName, tokens, mp, cnt, ans) && i < |s|
    requires ReadRest(rule, s[i..], inVar, varName, NamesOf(tokens)) ==
             ReadRest(rule, s[i + 1..], false, "", NamesOf(tokens + [token])).Behind(token)
    requires Numbers(mp', NamesOf(tokens + [token]))
    ensures Compiling(rule, s, i + 1, false, varName, tokens + [token], mp',
                      if token.Variable? then cnt + 1 else cnt, ans + TokenRegex(token))
  {
    hide ReadText, ReadVariable, RegexOf, NamesOf, TokenRegex, Numbers;
    OneTokenMore(tokens, token);
    var r := ReadRest(rule, s[i + 1..], false, "", NamesOf(tokens + [token]));
    if r.Good? {
      assert tokens + ([token] + r.tokens) == tokens + [token] + r.tokens;
    }
  }

  lemma NumbersMore(mp: map<string, int>, names: seq<string>, name: string)
    requires Numbers(mp, names) && name !in names
    ensures Numbers(mp[name := |names| + 1], names + [name])
  {
    var more := names + [name];
    forall n
      ensures n in mp[name := |names| + 1] <==> n in more
    {
      assert more[|names|] == name;
    }
    assert forall k | 0 <= k < |names| :: more[k] == names[k] && names[k] in names;
  }

  // One more character of a variable's name.
  lemma NextNameCharacter(rule: Values, s: string, i: nat, varName: string, tokens: seq<Token>,
                          mp: map<string, int>, cnt: nat, ans: string)
    requires Compiling(rule, s, i, true, varName, tokens, mp, cnt, ans) && i < |s| && s[i] != '<' && s[i] != '>'
    ensures Compiling(rule, s, i + 1, true, varName + [s[i]], tokens, mp, cnt, ans)
  {
    hide KindOf, ReadText, RegexOf, NamesOf, Numbers;
    assert s[i..][1..] == s[i + 1..];
  }

  lemma NextOpening(rule: Values, s: string, i: nat, varName: string, tokens: seq<Token>,
                    mp: map<string, int>, cnt: nat, ans: string)
    requires Compiling(rule, s, i, false, varName, tokens, mp, cnt, ans) && i < |s| && s[i] == '<'
    ensures Compiling(rule, s, i + 1, true, "", tokens, mp, cnt, ans)
  {
    hide KindOf, ReadVariable, RegexOf, NamesOf, Numbers;
    assert s[i..][1..] == s[i + 1..];
  }

  lemma NextLiteral(rule: Values, s: string, i: nat, varName: string, tokens: seq<Token>,
                    mp: map<string, int>, cnt: nat, ans: string)
    requires Compiling(rule, s, i, false, varName, tokens, mp, cnt, ans) && i < |s| && s[i] != '<' && s[i] != '>'
    ensures Compiling(rule, s, i + 1, false, varName, tokens + [Literal(s[i])], mp, cnt, ans + TokenRegex(Literal(s[i])))
  {
    assert s[i..][1..] == s[i + 1..];
    OneTokenMore(tokens, Literal(s[i]));
    assert NamesOf(tokens) + [] == NamesOf(tokens);
    LiteralReads(rule, s[i..], varName, NamesOf(tokens));
    NextToken(rule, s, i, false, varName, tokens, mp, cnt, ans, Literal(s[i]), mp);
  }

  lemma LiteralReads(rule: Values, s: string, varName: string, seen: seq<string>)
    requires s != "" && s[0] != '<' && s[0] != '>'
    ensures ReadRest(rule, s, false, varName, seen) == ReadRest(rule, s[1..], false, "", seen).Behind(Literal(s[0]))
  {
    hide KindOf, ReadVariable;
  }

  lemma VariableReads(rule: Values, s: string, varName: string, seen: seq<string>, kind: Kind)
    requires s != "" && s[0] == '>' && varName != "" && varName !in seen && KindOf(rule, varName) == OfKind(kind)
    ensures ReadRest(rule, s, true, varName, seen) ==
            ReadRest(rule, s[1..], false, "", seen + [varName]).Behind(Variable(varName, kind))
  {
    hide KindOf, ReadText;
  }

  lemma NextVariable(rule: Values, s: string, i: nat, varName: string, tokens: seq<Token>,
                     mp: map<string, int>, cnt: nat, ans: string, kind: Kind)
    requires Compiling(rule, s, i, true, varName, tokens, mp, cnt, ans) && i < |s| && s[i] == '>'
    requires varName != "" && varName !in mp && KindOf(rule, varName) == OfKind(kind)
    ensures Compiling(rule, s, i + 1, false, varName, tokens + [Variable(varName, kind)], mp[varName := cnt + 1],
                      cnt + 1, ans + KindRegex(kind))
  {
    hide KindOf, ReadText, ReadVariable, RegexOf, NamesOf;
    assert s[i..][1..] == s[i + 1..];
    OneTokenMore(tokens, Variable(varName, kind));
    VariableReads(rule, s[i..], varName, NamesOf(tokens), kind);
    NumbersMore(mp, NamesOf(tokens), varName);
    NextToken(rule, s, i, true, varName, tokens, mp, cnt, ans, Variable(varName, kind), mp[varName := cnt + 1]);
  }

  // The loop ends with this error.
  lemma CompileError(rule: Values, s: string, i: nat, inVar: bool, varName: string, tokens: seq<Token>,
                     mp: map<string, int>, cnt: nat, ans: string)
    requires Compiling(rule, s, i, inVar, varName, tokens, mp, cnt, ans) && i < |s|
    ensures s[i] == '<' && inVar ==> ReadText(rule, s, []) == Bad(InvalidVariableName)
    ensures s[i] == '>' && !inVar ==> ReadText(rule, s, []) == Bad(MissingVariableBrackets)
    ensures s[i] == '>' && inVar && varName == "" ==> ReadText(rule, s, []) == Bad(InvalidVariableName)
    ensures s[i] == '>' && inVar && varName != "" && varName in mp ==> ReadText(rule, s, []) == Bad(DuplicateVariableName)
    ensures s[i] == '>' && inVar && varName != "" && varName !in mp && KindOf(rule, varName).NoKind? ==>
              ReadText(rule, s, []) == Bad(InvalidVariableType)
  {
    hide KindOf, RegexOf, NamesOf;
  }

  lemma CompileEnd(rule: Values, s: string, inVar: bool, varName: string, tokens: seq<Token>,
                   mp: map<string, int>, cnt: nat, ans: string)
    requires Compiling(rule, s, |s|, inVar, varName, tokens, mp, cnt, ans)
    ensures ReadText(rule, s, []) == Good(tokens) && ans == RegexOf(tokens) && Numbers(mp, NamesOf(tokens))
  {
    hide KindOf, RegexOf, NamesOf, Numbers;
    assert s[|s|..] == "" && tokens + [] == tokens;
  }

  method String2Re(rule: Values, s: string) returns (code: Code, mp: map<string, int>, ans: string)
    ensures match ReadText(rule, s, [])
            case Bad(error) => code == error
            case Good(tokens) => code == Success && ans == RegexOf(tokens) && Numbers(mp, NamesOf(tokens))
  {
    hide Compiling, ReadText, KindOf, KindRegex;
    mp, ans := map[], "";
    var cnt, inVar, varName := 0, false, "";
    ghost var tokens := [];
    BeginCompiling(rule, s);
    for n := 0 to |s|
      invariant cnt >= 0 && Compiling(rule, s, n, inVar, varName, tokens, mp, cnt, ans)
    {
      var i := s[n];
      CompileError(rule, s, n, inVar, varName, tokens, mp, cnt, ans);
      if i == '<' {
        if inVar {
          return InvalidVariableName, mp, ans;
        }
        NextOpening(rule, s, n, varName, tokens, mp, cnt, ans);
        inVar, varName := true, "";
      } else if i == '>' {
        if !inVar {
          return MissingVariableBrackets, mp, ans;
        }
        inVar := false;
        if varName == "" {
          return InvalidVariableName, mp, ans;
        } else if varName in mp {
          return DuplicateVariableName, mp, ans;
        }
        var declared := KindOf(rule, varName);
        if declared.NoKind? {
          return InvalidVariableType, mp, ans;
        }
        NextVariable(rule, s, n, varName, tokens, mp, cnt, ans, declared.kind);
        tokens := tokens + [Variable(varName, declared.kind)];
        ans := ans + KindRegex(declared.kind);
        cnt := cnt + 1;
        mp := mp[varName := cnt];
      } else if inVar {
        NextNameCharacter(rule, s, n, varName, tokens, mp, cnt, ans);
        varName := varName + [i];
      } else {
        NextLiteral(rule, s, n, varName, tokens, mp, cnt, ans);
        tokens := tokens + [Literal(i)];
        ans := ans + if IsAlnum(i) then [i] else ['\\', i];
      }
    }
    CompileEnd(rule, s, inVar, varName, tokens, mp, cnt, ans);
    return Success, mp, ans;
  }

  // --------------------------------------------------------------------------
  // Rendering
  // --------------------------------------------------------------------------

  datatype Filling = BadFilling(code: Code) | Filled(text: string) {
    function Front(t: string): Filling {
      if BadFilling? then this else Filled(t + text)
    }
  }

  // What is shown for a captured text: its entry in the variable's map, or the text itself.
  function Shown(rule: Values, name: string, cap: string): string {
    GetIni(rule, "Map." + name, cap, cap)
  }

  ghost predicate IndexesCaps(mp: map<string, int>, caps: seq<string>) {
    forall name | name in mp :: 1 <= mp[name] <= |caps|
  }

  function FillRest(rule: Values, s: string, inVar: bool, varName: string, mp: map<string, int>, caps: seq<string>): Filling
    requires IndexesCaps(mp, caps)
    decreases |s|
  {
    if s == "" then Filled("")
    else if s[0] == '<' then
      if inVar then BadFilling(InvalidVariableName) else FillRest(rule, s[1..], true, "", mp, caps)
    else if s[0] == '>' then
      if !inVar then BadFilling(MissingVariableBrackets)
      else if varName == "" || varName !in mp then BadFilling(InvalidVariableName)
      else FillRest(rule, s[1..], false, "", mp, caps).Front(Shown(rule, varName, caps[mp[varName] - 1]))
    else if inVar then FillRest(rule, s[1..], true, varName + [s[0]], mp, caps)
    else FillRest(rule, s[1..], false, varName, mp, caps).Front([s[0]])
  }

  lemma {:induction false} NameOutsideIsIgnored(rule: Values, s: string, a: string, b: string, mp: map<string, int>,
          caps: seq<string>)
    requires IndexesCaps(mp, caps)
    ensures FillRest(rule, s, false, a, mp, caps) == FillRest(rule, s, false, b, mp, caps)
    decreases |s|
  {
    hide Shown;
    if s != "" && s[0] != '<' && s[0] != '>' {
      NameOutsideIsIgnored(rule, s[1..], a, b, mp, caps);
    }
  }

  // Renders a template from the captures: caps[k - 1] is the text of group k.
  method Re2String(rule: Values, s: string, caps: seq<string>, mp: map<string, int>) returns (code: Code, ans: string)
    requires IndexesCaps(mp, caps)
    ensures match FillRest(rule, s, false, "", mp, caps)
            case BadFilling(error) => code == error
            case Filled(text) => code == Success && ans == text
  {
    hide Shown;
    ans := "";
    var inVar, varName := false, "";
    ghost var all := FillRest(rule, s, false, "", mp, caps);
    assert s[0..] == s && all == all.Front("");
    for n := 0 to |s|
      invariant all == FillRest(rule, s[n..], inVar, varName, mp, caps).Front(ans)
    {
      var i := s[n];
      assert s[n..][0] == i && s[n..][1..] == s[n + 1..];
      if i == '<' {
        if inVar {
          return InvalidVariableName, ans;
        }
        inVar, varName := true, "";
      } else if i == '>' {
        if !inVar {
          return MissingVariableBrackets, ans;
        }
        inVar := false;
        if varName == "" || varName !in mp {
          return InvalidVariableName, ans;
        }
        NameOutsideIsIgnored(rule, s[n + 1..], "", varName, mp, caps);
        FrontTwice(FillRest(rule, s[n + 1..], false, "", mp, caps), ans, Shown(rule, varName, caps[mp[varName] - 1]));
        ans := ans + Shown(rule, varName, caps[mp[varName] - 1]);
      } else if inVar {
        varName := varName + [i];
      } else {
        FrontTwice(FillRest(rule, s[n + 1..], false, varName, mp, caps), ans, [i]);
        ans := ans + [i];
      }
    }
    assert s[|s|..] == "";
    return Success, ans;
  }

  lemma FrontTwice(f: Filling, a: string, b: string)
    ensures f.Front(b).Front(a) == f.Front(a + b)
  {
    if f.Filled? {
      assert a + (b + f.text) == a + b + f.text;
    }
  }

  // --------------------------------------------------------------------------
  // Rendering and renaming
  // --------------------------------------------------------------------------

  // Variables of a template that is rendered need only have captures.
  ghost predicate Renderable(mp: map<string, int>, tokens: seq<Token>) {
    forall token | token in tokens ::
      match token
      case Literal(c) => c != '<' && c != '>'
      case Variable(name, _) => name != "" && NoBrackets(name) && name in mp
  }

  lemma RenderableParts(mp: map<string, int>, tokens: seq<Token>)
    requires Renderable(mp, tokens) && tokens != []
    ensures Renderable(mp, [tokens[0]]) && Renderable(mp, tokens[1..])
    ensures tokens[0].Variable? ==> tokens[0].name in mp
  {
    assert tokens[0] in tokens && forall token | token in tokens[1..] :: token in tokens;
  }

  // What can be wrong with the rest of such a template.
  ghost predicate IsRenderFault(mp: map<string, int>, s: string, code: Code) {
    match code
    case MissingVariableBrackets => s != "" && s[0] == '>'
    case InvalidVariableName =>
      exists name, rest :: Opens(s, name, '<', rest) || ((name == "" || name !in mp) && Opens(s, name, '>', rest))
    case _ => false
  }

  lemma {:induction false} NameIsFilled(rule: Values, name: string, begun: string, rest: string, mp: map<string, int>,
                                        caps: seq<string>)
    requires NoBrackets(name) && IndexesCaps(mp, caps)
    ensures FillRest(rule, name + rest, true, begun, mp, caps) == FillRest(rule, rest, true, begun + name, mp, caps)
    decreases |name|
  {
    hide Shown;
    if name == "" {
      assert name + rest == rest && begun + name == begun;
    } else {
      assert (name + rest)[1..] == name[1..] + rest && begun + [name[0]] + name[1..] == begun + name;
      assert name[0] in name && forall c | c in name[1..] :: c in name;
      NameIsFilled(rule, name[1..], begun + [name[0]], rest, mp, caps);
    }
  }

  lemma TokenIsFilled(rule: Values, token: Token, after: string, mp: map<string, int>, caps: seq<string>)
    requires Renderable(mp, [token]) && IndexesCaps(mp, caps)
    ensures token.Literal? ==>
              FillRest(rule, [token.c] + after, false, "", mp, caps) ==
              FillRest(rule, after, false, "", mp, caps).Front([token.c])
    ensures token.Variable? ==>
              && token.name in mp
              && FillRest(rule, "<" + token.name + ">" + after, false, "", mp, caps) ==
                 FillRest(rule, after, false, "", mp, caps).Front(Shown(rule, token.name, caps[mp[token.name] - 1]))
  {
    hide Shown, FillRest;
    assert token in [token];
    match token {
      case Literal(c) => LiteralIsFilled(rule, c, after, mp, caps);
      case Variable(name, _) => VariableIsFilled(rule, name, after, mp, caps);
    }
  }

  lemma LiteralIsFilled(rule: Values, c: char, after: string, mp: map<string, int>, caps: seq<string>)
    requires c != '<' && c != '>' && IndexesCaps(mp, caps)
    ensures FillRest(rule, [c] + after, false, "", mp, caps) == FillRest(rule, after, false, "", mp, caps).Front([c])
  {
    hide Shown, IndexesCaps;
    assert ([c] + after)[1..] == after;
  }

  lemma VariableIsFilled(rule: Values, name: string, after: string, mp: map<string, int>, caps: seq<string>)
    requires name != "" && NoBrackets(name) && name in mp && IndexesCaps(mp, caps)
    ensures FillRest(rule, "<" + name + ">" + after, false, "", mp, caps) ==
            FillRest(rule, after, false, "", mp, caps).Front(Shown(rule, name, caps[mp[name] - 1]))
  {
    hide Shown, FillRest;
    NameIsFilled(rule, name, "", ">" + after, mp, caps);
    assert "" + name == name && (">" + after)[1..] == after;
    assert "<" + name + ">" + after == "<" + (name + (">" + after));
    OpeningFills(rule, name + (">" + after), mp, caps);
    ClosingFills(rule, ">" + after, name, mp, caps);
  }

  lemma OpeningFills(rule: Values, s: string, mp: map<string, int>, caps: seq<string>)
    requires IndexesCaps(mp, caps)
    ensures FillRest(rule, "<" + s, false, "", mp, caps) == FillRest(rule, s, true, "", mp, caps)
  {
    hide Shown, IndexesCaps;
    assert ("<" + s)[1..] == s;
  }

  lemma ClosingFills(rule: Values, s: string, name: string, mp: map<string, int>, caps: seq<string>)
    requires IndexesCaps(mp, caps) && s != "" && s[0] == '>'
    ensures FillRest(rule, s, true, name, mp, caps) ==
            if name == "" || name !in mp then BadFilling(InvalidVariableName)
            else FillRest(rule, s[1..], false, "", mp, caps).Front(Shown(rule, name, caps[mp[name] - 1]))
  {
    hide Shown;
  }

  lemma BracketFills(rule: Values, s: string, name: string, mp: map<string, int>, caps: seq<string>)
    requires IndexesCaps(mp, caps)
    ensures s != "" && s[0] == '<' ==> FillRest(rule, s, true, name, mp, caps) == BadFilling(InvalidVariableName)
    ensures s != "" && s[0] == '>' ==> FillRest(rule, s, false, name, mp, caps) == BadFilling(MissingVariableBrackets)
    ensures FillRest(rule, "", true, name, mp, caps) == FillRest(rule, "", false, "", mp, caps) == Filled("")
  {
    hide Shown, IndexesCaps;
  }

  lemma TailIsFilled(rule: Values, tail: string, mp: map<string, int>, caps: seq<string>, code: Code)
    requires IndexesCaps(mp, caps)
    ensures IsDangling(tail) ==> FillRest(rule, tail, false, "", mp, caps) == Filled("")
    ensures IsRenderFault(mp, tail, code) ==> FillRest(rule, tail, false, "", mp, caps) == BadFilling(code)
  {
    hide Shown, FillRest, NoBrackets, IndexesCaps;
    BracketFills(rule, tail, "", mp, caps);
    if IsDangling(tail) && tail != "" {
      var name := tail[1..];
      assert tail == "<" + name && name + "" == name && "" + name == name;
      OpeningFills(rule, name, mp, caps);
      NameIsFilled(rule, name, "", "", mp, caps);
      BracketFills(rule, "", name, mp, caps);
    }
    if IsRenderFault(mp, tail, code) && code == InvalidVariableName {
      BadNameFills(rule, tail, mp, caps);
    }
  }

  lemma BadNameFills(rule: Values, tail: string, mp: map<string, int>, caps: seq<string>)
    requires IndexesCaps(mp, caps) && IsRenderFault(mp, tail, InvalidVariableName)
    ensures FillRest(rule, tail, false, "", mp, caps) == BadFilling(InvalidVariableName)
  {
    hide Shown, FillRest, NoBrackets, IndexesCaps;
    var name, rest :| Opens(tail, name, '<', rest) || ((name == "" || name !in mp) && Opens(tail, name, '>', rest));
    var end := if Opens(tail, name, '<', rest) then '<' else '>';
    var s := [end] + rest;
    assert tail == "<" + (name + s) && "" + name == name;
    OpeningFills(rule, name + s, mp, caps);
    NameIsFilled(rule, name, "", s, mp, caps);
    BracketFills(rule, s, name, mp, caps);
    if end == '>' {
      ClosingFills(rule, s, name, mp, caps);
    }
  }

  // texts[k] is what the rule gives for the capture of variable number k: the entry for it in the
  // variable's map, or the capture itself.
  ghost predicate AllGiven(rule: Values, names: seq<string>, mp: map<string, int>, caps: seq<string>, texts: seq<string>)
    requires IndexesCaps(mp, caps)
  {
    && |texts| == |names|
    && forall k | 0 <= k < |names| ::
         && names[k] in mp
         && var cap := caps[mp[names[k]] - 1];
            Gives(rule, "Map." + names[k], cap, cap, texts[k])
  }

  lemma FirstGiven(rule: Values, name: string, names: seq<string>, mp: map<string, int>, caps: seq<string>,
                   texts: seq<string>)
    requires IndexesCaps(mp, caps) && AllGiven(rule, [name] + names, mp, caps, texts)
    ensures texts != [] && name in mp && AllGiven(rule, names, mp, caps, texts[1..])
    ensures texts[0] == Shown(rule, name, caps[mp[name] - 1])
  {
    hide Gives, GetIni;
    var all := [name] + names;
    assert all[0] == name;
    assert forall k | 0 <= k < |names| :: names[k] == all[k + 1] && texts[1..][k] == texts[k + 1];
    var cap := caps[mp[name] - 1];
    GetIniGives(rule, "Map." + name, cap, cap, texts[0]);
  }

  lemma OneMoreGiven(rule: Values, name: string, names: seq<string>, mp: map<string, int>, caps: seq<string>,
                     texts: seq<string>)
    requires IndexesCaps(mp, caps) && AllGiven(rule, names, mp, caps, texts) && name in mp
    ensures AllGiven(rule, [name] + names, mp, caps, [Shown(rule, name, caps[mp[name] - 1])] + texts)
  {
    hide Gives, GetIni;
    var cap := caps[mp[name] - 1];
    GetIniGives(rule, "Map." + name, cap, cap, Shown(rule, name, cap));
  }

  // Any template is rendered with the texts given for its variables.
  lemma {:induction false} FillRenders(rule: Values, tokens: seq<Token>, tail: string, mp: map<string, int>,
                                       caps: seq<string>, texts: seq<string>)
    requires IndexesCaps(mp, caps) && Renderable(mp, tokens) && AllGiven(rule, NamesOf(tokens), mp, caps, texts)
    ensures FillRest(rule, TemplateText(tokens) + tail, false, "", mp, caps) ==
            FillRest(rule, tail, false, "", mp, caps).Front(Render(tokens, texts))
    decreases |tokens|
  {
    hide AllGiven, FillRest, Render, NamesOf, TemplateText, Renderable, Shown, IndexesCaps;
    if tokens == [] {
      NoTokens(rule, tail, []);
      RenderNothing(texts);
      FrontNothing(FillRest(rule, tail, false, "", mp, caps));
    } else {
      var token, rest := tokens[0], tokens[1..];
      assert tokens == [token] + rest;
      RenderableParts(mp, tokens);
      TextOfMore(token, rest, tail);
      RestOfToken(token, rest, texts);
      TokenIsFilled(rule, token, TemplateText(rest) + tail, mp, caps);
      match token {
        case Literal(c) =>
          assert [] + NamesOf(rest) == NamesOf(rest);
          FillRenders(rule, rest, tail, mp, caps, texts);
          FrontTwice(FillRest(rule, tail, false, "", mp, caps), [c], Render(rest, texts));
        case Variable(name, _) =>
          FirstGiven(rule, name, NamesOf(rest), mp, caps, texts);
          FillRenders(rule, rest, tail, mp, caps, texts[1..]);
          FrontTwice(FillRest(rule, tail, false, "", mp, caps), texts[0], Render(rest, texts[1..]));
      }
    }
  }

  lemma RenderNothing(texts: seq<string>)
    ensures Render([], texts) == "" && NamesOf([]) == []
  {
  }

  lemma FrontNothing(f: Filling)
    ensures f.Front("") == f
  {
    if f.Filled? {
      assert "" + f.text == f.text;
    }
  }

  lemma {:induction false} RenderDecompose(mp: map<string, int>, s: string)
    returns (tokens: seq<Token>, tail: string, code: Code)
    ensures s == TemplateText(tokens) + tail && Renderable(mp, tokens)
    ensures if code == Success then IsDangling(tail) else IsRenderFault(mp, tail, code)
    decreases |s|
  {
    hide TemplateText, NamesOf, Opens, NoBrackets;
    tokens, tail, code := [], s, Success;
    NoTokens(map[], s, []);
    if s == "" {
    } else if s[0] == '>' {
      code := MissingVariableBrackets;
    } else if s[0] == '<' {
      var name, rest := SplitName(s[1..]);
      OpensWith(s, name, rest);
      if rest == "" {
      } else if rest[0] == '<' || name == "" || name !in mp {
        code := InvalidVariableName;
      } else {
        tokens, tail, code := RenderDecompose(mp, rest[1..]);
        TextOfMore(Variable(name, AnyText), tokens, tail);
        tokens := [Variable(name, AnyText)] + tokens;
      }
    } else {
      tokens, tail, code := RenderDecompose(mp, s[1..]);
      TextOfMore(Literal(s[0]), tokens, tail);
      tokens := [Literal(s[0])] + tokens;
    }
  }

  lemma {:induction false} TextsOf(rule: Values, tokens: seq<Token>, mp: map<string, int>, caps: seq<string>)
    returns (texts: seq<string>)
    requires IndexesCaps(mp, caps) && Renderable(mp, tokens)
    ensures AllGiven(rule, NamesOf(tokens), mp, caps, texts)
    decreases |tokens|
  {
    hide Gives, Shown, Renderable, NamesOf, AllGiven;
    if tokens == [] {
      NoneGiven(rule, mp, caps);
      return [];
    }
    var token, rest := tokens[0], tokens[1..];
    assert tokens == [token] + rest;
    RenderableParts(mp, tokens);
    TextOfMore(token, rest, "");
    texts := TextsOf(rule, rest, mp, caps);
    if token.Variable? {
      OneMoreGiven(rule, token.name, NamesOf(rest), mp, caps, texts);
      texts := [Shown(rule, token.name, caps[mp[token.name] - 1])] + texts;
    } else {
      assert [] + NamesOf(rest) == NamesOf(rest);
    }
  }

  lemma NoneGiven(rule: Values, mp: map<string, int>, caps: seq<string>)
    requires IndexesCaps(mp, caps)
    ensures AllGiven(rule, NamesOf([]), mp, caps, [])
  {
  }

  // A template is rendered exactly when it follows the grammar ...
  lemma RenderedIff(rule: Values, s: string, mp: map<string, int>, caps: seq<string>)
    requires IndexesCaps(mp, caps)
    ensures FillRest(rule, s, false, "", mp, caps).Filled?
            <==> exists tokens, dangling ::
              Renderable(mp, tokens) && IsDangling(dangling) && s == TemplateText(tokens) + dangling
  {
    hide Gives, FillRest, TemplateText, NamesOf, Renderable, IsDangling, IsRenderFault;
    var tokens', tail, code := RenderDecompose(mp, s);
    var texts' := TextsOf(rule, tokens', mp, caps);
    FillRenders(rule, tokens', tail, mp, caps, texts');
    TailIsFilled(rule, tail, mp, caps, code);
    if tokens, dangling :| Renderable(mp, tokens) && IsDangling(dangling) && s == TemplateText(tokens) + dangling {
      var texts := TextsOf(rule, tokens, mp, caps);
      FillRenders(rule, tokens, dangling, mp, caps, texts);
      TailIsFilled(rule, dangling, mp, caps, Success);
    }
  }

  // ... and otherwise the error is that of the first fault.
  lemma NotRenderedIff(rule: Values, s: string, mp: map<string, int>, caps: seq<string>, code: Code)
    requires IndexesCaps(mp, caps)
    ensures FillRest(rule, s, false, "", mp, caps) == BadFilling(code)
            <==> exists tokens, fault ::
              Renderable(mp, tokens) && s == TemplateText(tokens) + fault && IsRenderFault(mp, fault, code)
  {
    hide Gives, FillRest, TemplateText, NamesOf, Renderable, IsDangling, IsRenderFault;
    var tokens', tail, code' := RenderDecompose(mp, s);
    var texts' := TextsOf(rule, tokens', mp, caps);
    FillRenders(rule, tokens', tail, mp, caps, texts');
    TailIsFilled(rule, tail, mp, caps, code');
    if tokens, fault :| Renderable(mp, tokens) && s == TemplateText(tokens) + fault && IsRenderFault(mp, fault, code) {
      var texts := TextsOf(rule, tokens, mp, caps);
      FillRenders(rule, tokens, fault, mp, caps, texts);
      TailIsFilled(rule, fault, mp, caps, code);
    }
  }

  lemma RestOfToken(token: Token, rest: seq<Token>, shown: seq<string>)
    ensures NamesOf([token] + rest) == (if token.Variable? then [token.name] else []) + NamesOf(rest)
    ensures token.Literal? ==> Render([token] + rest, shown) == [token.c] + Render(rest, shown)
    ensures token.Variable? && shown != [] ==> Render([token] + rest, shown) == shown[0] + Render(rest, shown[1..])
  {
    assert ([token] + rest)[1..] == rest;
  }

  lemma {:induction false} CapsFitCount(tokens: seq<Token>, caps: seq<string>)
    requires CapsFit(tokens, caps)
    ensures |caps| == |NamesOf(tokens)|
    ensures forall cap | cap in caps :: cap != "" && cap[0] != '<'
    decreases |tokens|
  {
    if tokens != [] {
      match tokens[0] {
        case Literal(c) =>
          CapsFitCount(tokens[1..], caps);
        case Variable(_, kind) =>
          CapsFitCount(tokens[1..], caps[1..]);
          CapturesAreText(kind, caps[0]);
          assert caps == [caps[0]] + caps[1..];
      }
    }
  }

  lemma CapturesAreText(kind: Kind, cap: string)
    requires InKind(kind, cap)
    ensures cap != "" && cap[0] != '<'
  {
    match kind {
      case AnyText => assert cap[0] in cap;
      case Alpha => assert cap[0] in cap;
      case Digits => assert cap[0] in cap;
      case Float =>
        var k :| IsFloatAt(cap, k);
        assert cap[..k][0] == cap[0] && cap[..k][0] in cap[..k];
    }
  }

  // A compiled template: its expression parses to one term for each token, it matches exactly the
  // texts the template renders, and it has one capture group for each numbered name.
  lemma CompiledTemplate(rule: Values, s: string, tokens: seq<Token>, mp: map<string, int>)
    requires ReadText(rule, s, []) == Good(tokens) && Numbers(mp, NamesOf(tokens))
    ensures ParseTerms(RegexOf(tokens)) == Ok(TermsOf(tokens), "")
    ensures forall name, caps :: MatchTerms(TermsOf(tokens), name, caps) <==>
              CapsFit(tokens, caps) && name == Render(tokens, caps)
    ensures forall caps | CapsFit(tokens, caps) :: |caps| == |mp|
    ensures IsTemplate(rule, s, tokens)
  {
    hide ReadText, TokenFits, TemplateText, NamesOf, ParseTerms, MatchTerms, CapsFit, Render, RegexOf, TermsOf;
    RegexParses(tokens);
    AcceptedIffTemplate(rule, s, tokens);
    forall name, caps
      ensures MatchTerms(TermsOf(tokens), name, caps) <==> CapsFit(tokens, caps) && name == Render(tokens, caps)
    {
      MatchesIffRenders(tokens, name, caps);
    }
    NumberedCount(mp, NamesOf(tokens));
    forall caps | CapsFit(tokens, caps)
      ensures |caps| == |mp|
    {
      CapsFitCount(tokens, caps);
    }
  }

  lemma NumberedCount(mp: map<string, int>, names: seq<string>)
    requires Numbers(mp, names) && DistinctNames(names)
    ensures |mp| == |names|
  {
    DistinctCount(names);
    assert mp.Keys == set name | name in names;
  }

  lemma {:induction false} DistinctCount(names: seq<string>)
    requires DistinctNames(names)
    ensures |set name | name in names| == |names|
    decreases |names|
  {
    if names != [] {
      var last, rest := names[|names| - 1], names[..|names| - 1];
      DistinctCount(rest);
      assert names == rest + [last] && last !in rest;
      assert (set name | name in names) == (set name | name in rest) + {last};
    }
  }

  // A name that matched a template, rendered with the template itself: every captured text is
  // replaced by the entry for it in the variable's map.
  lemma RenamingTranslates(rule: Values, s: string, tokens: seq<Token>, mp: map<string, int>, name: string,
                           caps: seq<string>, texts: seq<string>)
    requires ReadText(rule, s, []) == Good(tokens) && Numbers(mp, NamesOf(tokens))
    requires MatchTerms(TermsOf(tokens), name, caps) && |texts| == |caps|
    requires forall k | 0 <= k < |caps| && k < |NamesOf(tokens)| ::
               Gives(rule, "Map." + NamesOf(tokens)[k], caps[k], caps[k], texts[k])
    ensures IndexesCaps(mp, caps) && FillRest(rule, s, false, "", mp, caps) == Filled(Render(tokens, texts))
  {
    hide ReadText, NamesOf, MatchTerms, CapsFit, Render, TermsOf, Gives, FillRest, TemplateText, IsDangling, Renderable,
         AllFit, AllGiven, Numbers, IndexesCaps;
    CapturesPerName(tokens, name, caps);
    GivenInOrder(rule, NamesOf(tokens), mp, caps, texts);
    var dangling := DanglingOf(rule, s, tokens);
    NamesAreNumbered(rule, tokens, mp);
    FillRenders(rule, tokens, dangling, mp, caps, texts);
    TailIsFilled(rule, dangling, mp, caps, Success);
    assert Render(tokens, texts) + "" == Render(tokens, texts);
  }

  lemma CapturesPerName(tokens: seq<Token>, name: string, caps: seq<string>)
    requires MatchTerms(TermsOf(tokens), name, caps)
    ensures |caps| == |NamesOf(tokens)|
  {
    hide MatchTerms, CapsFit, Render, TermsOf, NamesOf;
    MatchesIffRenders(tokens, name, caps);
    CapsFitCount(tokens, caps);
  }

  lemma DanglingOf(rule: Values, s: string, tokens: seq<Token>) returns (dangling: string)
    requires ReadText(rule, s, []) == Good(tokens)
    ensures AllFit(rule, tokens) && IsDangling(dangling) && s == TemplateText(tokens) + dangling
  {
    hide ReadText, AllFit, IsDangling, TemplateText, NamesOf;
    AcceptedIffTemplate(rule, s, tokens);
    dangling :| IsDangling(dangling) && s == TemplateText(tokens) + dangling;
  }

  lemma GivenInOrder(rule: Values, names: seq<string>, mp: map<string, int>, caps: seq<string>, texts: seq<string>)
    requires Numbers(mp, names) && |names| == |caps| == |texts|
    requires forall k | 0 <= k < |caps| && k < |names| :: Gives(rule, "Map." + names[k], caps[k], caps[k], texts[k])
    ensures IndexesCaps(mp, caps) && AllGiven(rule, names, mp, caps, texts)
  {
    hide Gives;
  }

  lemma {:induction false} NamesAreNumbered(rule: Values, tokens: seq<Token>, mp: map<string, int>)
    requires AllFit(rule, tokens) && Numbers(mp, NamesOf(tokens))
    ensures Renderable(mp, tokens)
  {
    forall token | token in tokens
      ensures token.Variable? ==> token.name in mp
    {
      if token.Variable? {
        NameOfToken(tokens, token);
      }
      assert TokenFits(rule, token);
    }
  }

  lemma {:induction false} NameOfToken(tokens: seq<Token>, token: Token)
    requires token in tokens && token.Variable?
    ensures token.name in NamesOf(tokens)
  {
    if tokens[0] != token {
      NameOfToken(tokens[1..], token);
    }
  }

  // So the name is kept when no entry matches a captured text: the entry that declares the type never does.
  lemma RenamingWithSameTemplate(rule: Values, s: string, tokens: seq<Token>, mp: map<string, int>, name: string,
                                 caps: seq<string>)
    requires ReadText(rule, s, []) == Good(tokens) && Numbers(mp, NamesOf(tokens))
    requires MatchTerms(TermsOf(tokens), name, caps)
    requires forall k | 0 <= k < |caps| && k < |NamesOf(tokens)| ::
               !HasValue(rule, "Map." + NamesOf(tokens)[k], "<" + caps[k] + ">")
    ensures IndexesCaps(mp, caps) && FillRest(rule, s, false, "", mp, caps) == Filled(name)
    ensures forall k | 0 <= k < |caps| && k < |NamesOf(tokens)| ::
              MakeKey("Map." + NamesOf(tokens)[k], "<" + caps[k] + ">") != MakeKey("Map." + NamesOf(tokens)[k], "<>")
  {
    hide ReadText, NamesOf, MatchTerms, CapsFit, Render, TermsOf, Gives, HasValue, MakeKey;
    MatchesIffRenders(tokens, name, caps);
    CapsFitCount(tokens, caps);
    forall k | 0 <= k < |caps| && k < |NamesOf(tokens)|
      ensures Gives(rule, "Map." + NamesOf(tokens)[k], caps[k], caps[k], caps[k])
      ensures MakeKey("Map." + NamesOf(tokens)[k], "<" + caps[k] + ">") != MakeKey("Map." + NamesOf(tokens)[k], "<>")
    {
      assert caps[k] in caps;
      WithoutEntry(rule, NamesOf(tokens)[k], caps[k]);
    }
    RenamingTranslates(rule, s, tokens, mp, name, caps, caps);
  }

  lemma WithoutEntry(rule: Values, name: string, cap: string)
    requires cap != "" && cap[0] != '<'
    ensures !HasValue(rule, "Map." + name, "<" + cap + ">") ==> Gives(rule, "Map." + name, cap, cap, cap)
    ensures MakeKey("Map." + name, "<" + cap + ">") != MakeKey("Map." + name, "<>")
  {
    assert |MakeKey("Map." + name, "<" + cap + ">")| > |MakeKey("Map." + name, "<>")|;
    assert forall t: string :: ("<" + t + ">")[0] == '<';
  }
}
