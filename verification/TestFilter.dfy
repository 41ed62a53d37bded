/**
 Test filters: lists of glob patterns separated by ':', with a negative list after the first '-'.
 */
module TestFilter {
  import opened Text
  import opened Glob

  // --------------------------------------------------------------------------
  // What a filter means
  // --------------------------------------------------------------------------

  function Split(s: string, delimiter: char): (parts: seq<string>)
    ensures parts != []
    decreases |s|
  {
    var i := FindChar(s, delimiter);
    if i == -1 then [s] else [s[..i]] + Split(s[i + 1..], delimiter)
  }

  ghost predicate MatchesAny(patterns: set<string>, name: string) {
    exists p <- patterns :: Matches(p, name)
  }

  ghost function Elements(parts: seq<string>): set<string> {
    set p | p in parts
  }

  lemma ElementsOfPush(parts: seq<string>, p: string)
    ensures Elements(parts + [p]) == Elements(parts) + {p}
  {
    assert (parts + [p])[|parts|] == p;
    assert forall q <- parts :: q in parts + [p];
  }

  ghost function Patterns(filter: string): set<string> {
    Elements(Split(filter, ':'))
  }

  ghost predicate MatchesFilter(filter: string, name: string) {
    MatchesAny(Patterns(filter), name)
  }

  // The part before the first '-' selects, the part after it excludes.
  ghost predicate Selected(filter: string, name: string) {
    var i := FindChar(filter, '-');
    if i == -1 then MatchesFilter(filter, name)
    else MatchesFilter(if i == 0 then "*" else filter[..i], name) && !MatchesFilter(filter[i + 1..], name)
  }

  function Join(parts: seq<string>, delimiter: char): string
    requires parts != []
  {
    if |parts| == 1 then parts[0] else parts[0] + [delimiter] + Join(parts[1..], delimiter)
  }

  lemma {:induction false} JoinSplit(s: string, delimiter: char)
    ensures Join(Split(s, delimiter), delimiter) == s
    decreases |s|
  {
    hide FindChar;
    var i := FindChar(s, delimiter);
    if i != -1 {
      var rest := Split(s[i + 1..], delimiter);
      JoinSplit(s[i + 1..], delimiter);
      assert ([s[..i]] + rest)[1..] == rest;
      assert s == s[..i] + [delimiter] + s[i + 1..];
    }
  }

  // Splitting takes joined parts apart again, and its own parts are free of the delimiter.
  lemma {:induction false} SplitJoin(parts: seq<string>, delimiter: char)
    requires parts != [] && forall p <- parts :: delimiter !in p
    ensures Split(Join(parts, delimiter), delimiter) == parts
  {
    hide FindChar;
    if |parts| == 1 {
      SplitAlone(parts[0], delimiter);
    } else {
      var rest := Join(parts[1..], delimiter);
      SplitJoin(parts[1..], delimiter);
      SplitFirst(parts[0], rest, delimiter);
      assert parts == [parts[0]] + parts[1..];
    }
  }

  lemma {:induction false} PartsAreFree(s: string, delimiter: char)
    ensures forall p <- Split(s, delimiter) :: delimiter !in p
    decreases |s|
  {
    var i := FindChar(s, delimiter);
    if i != -1 {
      PartsAreFree(s[i + 1..], delimiter);
    }
  }

  lemma SplitAlone(s: string, delimiter: char)
    requires delimiter !in s
    ensures Split(s, delimiter) == [s]
  {
  }

  lemma SplitFirst(a: string, rest: string, delimiter: char)
    requires delimiter !in a
    ensures Split(a + [delimiter] + rest, delimiter) == [a] + Split(rest, delimiter)
  {
    var s := a + [delimiter] + rest;
    assert s[..|a|] == a && s[|a| + 1..] == rest;
    FirstChar(s, delimiter, |a|);
  }

  // A list of patterns joined by colons matches what one of them matches.
  lemma ListMatches(patterns: seq<string>, name: string)
    requires patterns != [] && forall p <- patterns :: ':' !in p
    ensures MatchesFilter(Join(patterns, ':'), name) <==> exists p <- patterns :: Matches(p, name)
  {
    SplitJoin(patterns, ':');
  }

  // A filter selects what its part before the first dash matches, everything if that is empty, and
  // not what its part behind the dash matches.
  lemma SelectedIff(positive: string, negative: string, name: string)
    requires '-' !in positive
    ensures Selected(positive, name) <==> MatchesFilter(positive, name)
    ensures Selected(positive + "-" + negative, name)
            <==> (positive == "" || MatchesFilter(positive, name)) && !MatchesFilter(negative, name)
  {
    hide MatchesAny;
    var filter := positive + "-" + negative;
    assert filter[..|positive|] == positive && filter[|positive| + 1..] == negative;
    FirstChar(filter, '-', |positive|);
    EverythingMatches(name);
  }

  lemma EverythingMatches(name: string)
    ensures MatchesFilter("*", name)
  {
    SplitAlone("*", ':');
    StarMatchesAll(name);
    assert "*" in Patterns("*");
  }

  // --------------------------------------------------------------------------
  // Patterns without wildcards
  // --------------------------------------------------------------------------

  predicate IsGlobPattern(pattern: string) { '?' in pattern || '*' in pattern }

  lemma {:induction false} ExactPatternMatchesItself(pattern: string, name: string)
    requires !IsGlobPattern(pattern)
    ensures Matches(pattern, name) <==> pattern == name
  {
    if pattern != "" && name != "" {
      assert pattern[0] in pattern;
      assert forall c <- pattern[1..] :: c in pattern;
      ExactPatternMatchesItself(pattern[1..], name[1..]);
      assert pattern == [pattern[0]] + pattern[1..] && name == [name[0]] + name[1..];
    }
  }

  // --------------------------------------------------------------------------
  // The filters of the test runner
  // --------------------------------------------------------------------------

  lemma SplitFrom(str: string, delimiter: char, pos: nat)
    requires pos <= |str|
    ensures var i := FindChar(str[pos..], delimiter);
            i != -1 ==> Split(str[pos..], delimiter) == [str[pos..][..i]] + Split(str[pos + i + 1..], delimiter)
  {
    hide FindChar;
    var i := FindChar(str[pos..], delimiter);
    if i != -1 {
      assert str[pos..][i + 1..] == str[pos + i + 1..];
    }
  }

  lemma SplitLast(str: string, delimiter: char, pos: nat)
    requires pos <= |str| && FindChar(str[pos..], delimiter) == -1
    ensures Split(str[pos..], delimiter) == [str[pos..]]
  {
    hide FindChar;
  }

  method SplitString(str: string, delimiter: char) returns (parsed: seq<string>)
    ensures parsed == Split(str, delimiter)
  {
    hide Split, FindChar;
    parsed := [];
    var pos := 0;
    assert str[0..] == str;
    while true
      invariant 0 <= pos <= |str|
      invariant parsed + Split(str[pos..], delimiter) == Split(str, delimiter)
      decreases |str| - pos
    {
      var colon := FindChar(str[pos..], delimiter);
      if colon == -1 {
        SplitLast(str, delimiter, pos);
        return parsed + [str[pos..]];
      }
      SplitFrom(str, delimiter, pos);
      ghost var rest := Split(str[pos + colon + 1..], delimiter);
      assert parsed + ([str[pos..][..colon]] + rest) == parsed + [str[pos..][..colon]] + rest;
      parsed := parsed + [str[pos..][..colon]];
      pos := pos + colon + 1;
    }
  }

  method PartitionPatterns(allPatterns: seq<string>) returns (globs: seq<string>, exact: set<string>)
    ensures forall p <- exact :: !IsGlobPattern(p)
    ensures exact + Elements(globs) == Elements(allPatterns)
  {
    hide Elements;
    globs, exact := [], {};
    assert allPatterns[..0] == [];
    for i := 0 to |allPatterns|
      invariant forall p <- exact :: !IsGlobPattern(p)
      invariant exact + Elements(globs) == {} + Elements(allPatterns[..i])
    {
      assert allPatterns[..i + 1] == allPatterns[..i] + [allPatterns[i]];
      ElementsOfPush(allPatterns[..i], allPatterns[i]);
      ElementsOfPush(globs, allPatterns[i]);
      if IsGlobPattern(allPatterns[i]) {
        globs := globs + [allPatterns[i]];
      } else {
        exact := exact + {allPatterns[i]};
      }
    }
    assert allPatterns[..|allPatterns|] == allPatterns;
  }

  // Keeps patterns without wildcards in a set, where a name is looked up without matching.
  class UnitTestFilter {
    var globPatterns: seq<string>
    var exactMatchPatterns: set<string>

    ghost predicate Valid()
      reads this
    {
      forall p <- exactMatchPatterns :: !IsGlobPattern(p)
    }

    ghost function AllPatterns(): set<string>
      reads this
    {
      exactMatchPatterns + Elements(globPatterns)
    }

    // Matches nothing.
    constructor Empty()
      ensures Valid() && AllPatterns() == {}
    {
      globPatterns, exactMatchPatterns := [], {};
    }

    constructor (filter: string)
      ensures Valid() && AllPatterns() == Patterns(filter)
    {
      var allPatterns := SplitString(filter, ':');
      var globs, exact := PartitionPatterns(allPatterns);
      globPatterns, exactMatchPatterns := globs, exact;
    }

    method MatchesName(name: string) returns (b: bool)
      requires Valid()
      ensures b <==> MatchesAny(AllPatterns(), name)
    {
      if name in exactMatchPatterns {
        ExactPatternMatchesItself(name, name);
        return true;
      }
      for i := 0 to |globPatterns|
        invariant forall j | 0 <= j < i :: !Matches(globPatterns[j], name)
      {
        var matches, _ := PatternMatchesString(name, globPatterns[i]);
        if matches {
          return true;
        }
      }
      forall p <- exactMatchPatterns
        ensures !Matches(p, name)
      {
        ExactPatternMatchesItself(p, name);
      }
      return false;
    }
  }

  // Every further '-' belongs to the negative filter.
  method NegativePart(filters: seq<string>) returns (negative: string)
    requires |filters| > 1
    ensures negative == Join(filters[1..], '-')
  {
    negative := filters[1];
    for i := 2 to |filters|
      invariant Join(filters[1..], '-') == if i < |filters| then negative + "-" + Join(filters[i..], '-') else negative
    {
      assert i + 1 < |filters| ==> filters[i..][1..] == filters[i + 1..];
      negative := negative + "-" + filters[i];
    }
  }

  class PositiveAndNegativeUnitTestFilter {
    var positiveFilter: UnitTestFilter
    var negativeFilter: UnitTestFilter

    // This object stands for `filter`.
    ghost predicate Valid(filter: string)
      reads this, positiveFilter, negativeFilter
    {
      && positiveFilter.Valid() && negativeFilter.Valid()
      && var i := FindChar(filter, '-');
         if i == -1 then positiveFilter.AllPatterns() == Patterns(filter) && negativeFilter.AllPatterns() == {}
         else && positiveFilter.AllPatterns() == Patterns(if i == 0 then "*" else filter[..i])
              && negativeFilter.AllPatterns() == Patterns(filter[i + 1..])
    }

    constructor (filter: string)
      ensures Valid(filter)
    {
      var filters := SplitString(filter, '-');
      var positive := filters[0];
      if |filters| > 1 {
        positiveFilter := new UnitTestFilter(if positive == "" then "*" else positive);
        var negative := NegativePart(filters);
        JoinSplit(filter[FindChar(filter, '-') + 1..], '-');
        negativeFilter := new UnitTestFilter(negative);
      } else {
        positiveFilter := new UnitTestFilter(positive);
        negativeFilter := new UnitTestFilter.Empty();
      }
    }

    method MatchesName(ghost filter: string, name: string) returns (b: bool)
      requires Valid(filter)
      ensures b <==> Selected(filter, name)
    {
      b := positiveFilter.MatchesName(name);
      if b {
        var excluded := negativeFilter.MatchesName(name);
        b := !excluded;
      }
    }

    // Whether the test runs under this filter: the names are joined by a dot.
    method MatchesTest(ghost filter: string, testSuiteName: string, testName: string) returns (b: bool)
      requires Valid(filter)
      ensures b <==> Selected(filter, testSuiteName + "." + testName)
    {
      b := MatchesName(filter, testSuiteName + "." + testName);
    }
  }

  // --------------------------------------------------------------------------
  // Death tests
  // --------------------------------------------------------------------------

  const DEATH_TEST_SUITE_FILTER := "*DeathTest:*DeathTest/*"

  // A death test suite is one whose name ends in "DeathTest", or contains it before a '/'.
  ghost predicate IsDeathTestSuite(name: string) {
    || (|name| >= 9 && name[|name| - 9..] == "DeathTest")
    || Contains(name, "DeathTest/")
  }

  lemma StarThen(pattern: string, name: string)
    ensures Matches("*" + pattern, name) <==> exists k | 0 <= k <= |name| :: Matches(pattern, name[k..])
  {
    assert ("*" + pattern)[1..] == pattern;
    if Matches("*" + pattern, name) {
      var k := StarSplits("*" + pattern, name);
      assert Matches(pattern, name[k..]);
    }
    if k: nat :| k <= |name| && Matches(pattern, name[k..]) {
      StarAbsorbs("*" + pattern, name, k);
    }
  }

  lemma {:induction false} WordThenStar(word: string, name: string)
    requires !IsGlobPattern(word)
    ensures Matches(word + "*", name) <==> word <= name
  {
    if word == "" {
      assert word + "*" == "*" + "";
      StarThen("", name);
      assert name[|name|..] == "" && Matches("", name[|name|..]);
    } else if name != "" {
      assert word[0] in word;
      assert forall c <- word[1..] :: c in word;
      assert (word + "*")[1..] == word[1..] + "*";
      WordThenStar(word[1..], name[1..]);
      assert word == [word[0]] + word[1..] && name == [name[0]] + name[1..];
    }
  }

  // That is what the filter says.
  lemma DeathTestSuiteFilterMeans(name: string)
    ensures MatchesFilter(DEATH_TEST_SUITE_FILTER, name) <==> IsDeathTestSuite(name)
  {
    hide Matches, Patterns, Contains;
    DeathPatterns();
    EndsWithWord(name, "DeathTest");
    ContainsWord(name, "DeathTest/");
    assert "*" + "DeathTest" == "*DeathTest" && "*" + "DeathTest/" + "*" == "*DeathTest/*";
    assert "*DeathTest" in Patterns(DEATH_TEST_SUITE_FILTER) && "*DeathTest/*" in Patterns(DEATH_TEST_SUITE_FILTER);
  }

  lemma DeathPatterns()
    ensures Patterns(DEATH_TEST_SUITE_FILTER) == {"*DeathTest", "*DeathTest/*"}
  {
    hide Split;
    var plain, parameterized := "*DeathTest", "*DeathTest/*";
    assert DEATH_TEST_SUITE_FILTER == plain + [':'] + parameterized;
    SplitFirst(plain, parameterized, ':');
    SplitAlone(parameterized, ':');
    ElementsOfPush([], plain);
    ElementsOfPush([plain], parameterized);
    assert [] + [plain] == [plain] && Elements([]) == {};
  }

  lemma EndsWithWord(name: string, word: string)
    requires !IsGlobPattern(word)
    ensures Matches("*" + word, name) <==> |name| >= |word| && name[|name| - |word|..] == word
  {
    StarThen(word, name);
    forall k | 0 <= k <= |name|
      ensures Matches(word, name[k..]) <==> word == name[k..]
    {
      ExactPatternMatchesItself(word, name[k..]);
    }
    if |name| >= |word| && name[|name| - |word|..] == word {
      assert Matches(word, name[|name| - |word|..]);
    }
  }

  lemma ContainsWord(name: string, word: string)
    requires !IsGlobPattern(word)
    ensures Matches("*" + word + "*", name) <==> Contains(name, word)
  {
    assert "*" + word + "*" == "*" + (word + "*");
    StarThen(word + "*", name);
    forall k | 0 <= k <= |name|
      ensures Matches(word + "*", name[k..]) <==> OccursAt(name, word, k)
    {
      WordThenStar(word, name[k..]);
      if OccursAt(name, word, k) {
        assert name[k..][..|word|] == word;
      }
      if word <= name[k..] {
        assert name[k..k + |word|] == name[k..][..|word|];
      }
    }
    if Contains(name, word) {
      var k: nat :| OccursAt(name, word, k);
      assert Matches(word + "*", name[k..]);
    }
  }
}
