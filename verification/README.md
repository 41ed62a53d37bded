# Verified models of the repository's algorithms

This Dafny project models the algorithmic parts of the repository and proves what they are for. Code
that works in loops over changing state is modelled as methods and classes whose contracts tie the
result to a specification; the specifications are functions and predicates, and the properties that
matter are lemmas about them.

- **Matching** (`BipartiteMatching`). Elements and matchers are the two sides of a bipartite graph. A
  depth-first search augments the matching from each left node once. The proof keeps a *dead end*: a
  set of matched right nodes that holds all neighbours of the left nodes that failed and of its own
  mates. Such a set bounds the size of every matching.
- **Test names** (`Glob`, `TestFilter`). The matcher with one point of return decides the recursive
  meaning of a pattern; filters with their lists of patterns are built on it.
- **Test order** (`Shuffle`, `SuiteRegistry`). Suites are registered with death tests in front,
  shuffled within the two groups, and put back. The shuffle is a function of the choices of the
  generator, and choices correspond to orders one to one.
- **Differences of texts** (`EditDistance`, `UnifiedDiff`). The edit table always gives a valid script,
  and an optimal one exactly when every edit along its path is a cheapest way into its cell. The hunks
  made from a script are a patch that rebuilds the right text from the left one and replays the script.
- **Expectations** (`PrerequisiteGraph`, `Expectations`). Mock calls retire expectations along a graph
  of prerequisites; what every call keeps is enough to show that sequences are called in order.
- **The Authorizer** (`Authorizer`). Credentials are inserted behind directives of a configuration
  file. A run can be undone, and for usable credentials a second run changes nothing.
- **The Renamer** (`Renamer`, with `EcmaRegex` and `Text`). Templates are compiled to regular expressions, and target
  names rendered from captures, translated by the map of each variable. A small model of patterns and of matching gives both a meaning.
- **INI files** (`Ini`, `IniSpec`, `IniReader`, `IniRoundTrip`). The pointer code of the parser works
  on buffers of C strings here too; it is proved to compute what a line parser on texts computes, and
  printed files are read back.
- **Smaller algorithms** (`Primes`, `StringLiteral`, `Utf8`), and what the modules share (`Common`, `Text`).

Where the code does not keep a promise, the model follows the code and a lemma says exactly when the
promise holds:

- `CalculateOptimalEdits` is documented to be optimal (`gtest-internal.h`), but a tie between adding and
  removing can hide a cheaper script: `EditDistance.NotAlwaysOptimal`. The script for two lists is optimal
  exactly when its path makes no loose move: `EditDistance.OptimalIffPathTight`. It always is when one way
  into each cell is clearly the cheapest: `EditDistance.ClearIsOptimal`. That all prefixes get optimal
  scripts, too, is a stronger property: `EditDistance.OptimalIffNoMispricedTie`.
- A second run of the Authorizer changes a file if the credential cannot be found again where it was
  inserted: `Authorizer.RunsAreNotIdempotent`, `Authorizer.IdempotentIffReusable`.
- A printed string literal denotes other bytes if a NUL is followed by an octal digit:
  `StringLiteral.RoundTripIff`; the bytes 0, 49 are an example: `StringLiteral.NulSwallowsDigit`.
- `CodePointToUtf8` reports only numbers above 0x1FFFFF as invalid, although everything above 0x10FFFF is
  documented to be: `Utf8.MessageAsPromisedIff`, `Utf8.FirstBeyondUnicode`.
- A diff with context 0 shows nothing even if the texts differ, such as a one-line text a and a one-line
  text b: `UnifiedDiff.CreateUnifiedDiff`.

Suites are to be registered only while nothing is shuffled; that is the caller's duty.
`SuiteRegistry.UnitTestImpl.GetTestSuite` says exactly when death tests stay first without it, and
`SuiteRegistry.RegisteredWhileShuffled` shows a state where they do not.

`dafny verify dfyconfig.toml` checks the project.

## Model

| member | source | states |
|---|---|---|
| `BipartiteMatching.MaxBipartiteMatchState.TryAugment` | googletest/googlemock/src/gmock-matchers.cc:184-208 | A search that succeeds keeps `left` and `right` mutually referent and on edges of the graph, and takes only `left[ilhs]` from unused to used; one that fails changes neither and leaves behind a set of seen right nodes that are all matched and that holds every neighbour of `ilhs` and of their mates; nothing inside an earlier dead end is touched; there are at most as many calls as newly seen right nodes and one more, as when each left node is explored once at most |
| `BipartiteMatching.AugmentThroughTaken` | googletest/googlemock/src/gmock-matchers.cc:168-183 | Linking `ilhs` to a right node whose mate has just found another one restores the mutual reference that is broken while the recursion unwinds |
| `BipartiteMatching.DeadEndExtends` | googletest/googlemock/src/gmock-matchers.cc:135-146 | What a failed search has seen can be added to the dead end without breaking it |
| `BipartiteMatching.AugmentKeepsDeadEnd` | googletest/googlemock/src/gmock-matchers.cc:138-144 | A later success cannot take anything away from the left nodes that failed before: the dead end still traps them |
| `BipartiteMatching.CertificateImpliesMaximum` | googletest/googlemock/src/gmock-matchers.cc:131-146 | A matching with a closed set of right nodes that traps all unmatched left nodes is at least as large as every other matching |
| `BipartiteMatching.MaxBipartiteMatchState.Compute` | googletest/googlemock/src/gmock-matchers.cc:131-163 | Trying each left node once gives a matching of maximum cardinality among all sets of edges with distinct left and distinct right ends |
| `BipartiteMatching.FindMaxBipartiteMatching` | googletest/googlemock/src/gmock-matchers.cc:228-230 | The result is a maximum matching, each edge listed once |
| `BipartiteMatching.CoversIffLarge` | googletest/googlemock/src/gmock-matchers.cc:440-453 | A matching covers all nodes of a side exactly when it has at least as many edges as that side has nodes |
| `BipartiteMatching.FindPairing` | googletest/googlemock/src/gmock-matchers.cc:436-475 | For Superset true exactly when some matching of the matrix covers all right nodes, for Subset all left nodes, for ExactMatch both |
| `BipartiteMatching.VerifyMatchMatrix` | googletest/googlemock/src/gmock-matchers.cc:369-434 | For Superset true exactly when every column of the matrix has an entry, for Subset every row, for ExactMatch both and the sizes agree |
| `BipartiteMatching.PairedNodesAreNotIsolated` | googletest/googlemock/src/gmock-matchers.cc:365-368 | The prefilter is sound: a side that some matching covers has no row or column without an entry |
| `BipartiteMatching.MatchAndExplain` | googletest/googlemock/include/gmock/gmock-matchers.h:3954-3965 | Prefilter and pairing together accept, flag by flag, exactly the matrices with a matching that covers all matchers (Superset), all elements (Subset) or both (ExactMatch) |
| `Glob.LaterStarSubsumes` | googletest/googletest/src/gtest.cc:796-803 | Forgetting all but the last `*` loses no match: what an earlier `*` could still absorb, the later one can |
| `Glob.StarMeansSomeSuffix` | googletest/googletest/src/gtest.cc:796-803 | A `*` matches exactly when the rest of the pattern matches some suffix |
| `Glob.PlainMatches` | googletest/googletest/src/gtest.cc:769-814 | A pattern without `*` matches the texts of its own length that agree with it except where it has `?` |
| `Glob.MatchesInParts` | googletest/googletest/src/gtest.cc:769-814 | A pattern in two parts matches exactly the texts that fall into two parts they match |
| `Glob.PatternMatchesString` | googletest/googletest/src/gtest.cc:769-814 | The single loop with one point of return decides the recursive glob relation, in at most (length of name + 1) * (length of pattern + 1) iterations |
| `TestFilter.ExactPatternMatchesItself` | googletest/googletest/src/gtest.cc:818-842 | A pattern without wildcards matches itself and nothing else, which is why such patterns can be looked up in a set |
| `TestFilter.UnitTestFilter.MatchesName` | googletest/googletest/src/gtest.cc:846-854 | True exactly when one of all the patterns matches, although exact patterns are never matched but looked up |
| `TestFilter.JoinSplit` | googletest/googletest/src/gtest.cc:1321-1336 | Joining the parts of a split text with the delimiter gives the text back |
| `TestFilter.SplitJoin` | googletest/googletest/src/gtest.cc:1321-1336 | Splitting takes joined parts apart again, if they are free of the delimiter; its own parts always are |
| `TestFilter.ListMatches` | googletest/googletest/src/gtest.cc:846-854 | Patterns joined by colons match exactly the names that one of them matches |
| `TestFilter.SelectedIff` | googletest/googletest/src/gtest.cc:868-893 | A filter selects what its part before the first `-` matches, everything if that is empty, except what its part behind it matches |
| `TestFilter.SplitString` | googletest/googletest/src/gtest.cc:1321-1336 | The loop yields the parts between the delimiters, never none |
| `TestFilter.NegativePart` | googletest/googletest/src/gtest.cc:879-886 | The parts behind the first `-` are put together again with `-` between them |
| `TestFilter.PositiveAndNegativeUnitTestFilter.constructor` | googletest/googletest/src/gtest.cc:868-893 | The object stands for the text before the first `-` (everything, if that is empty) and against the whole text behind it |
| `TestFilter.PositiveAndNegativeUnitTestFilter.MatchesTest` | googletest/googletest/src/gtest.cc:898-912 | A test is selected exactly when its dotted name matches a pattern before the first `-` and none behind it |
| `TestFilter.DeathTestSuiteFilterMeans` | googletest/googletest/src/gtest.cc:183-186 | The death test filter accepts exactly the names that end in `DeathTest` or contain `DeathTest/` |
| `Shuffle.Random.Generate` | googletest/googletest/src/gtest.cc:436-450 | The new state is 1103515245 times the old one plus 12345, modulo 2 to the power 31, and the result its remainder by the range |
| `Shuffle.ChoicesAre` | googletest/googletest/src/gtest-internal-inl.h:312-322 | A range of n elements takes n - 1 steps of the generator; choice number k is the number behind step k + 1, modulo n - k |
| `Shuffle.FisherYatesStep` | googletest/googletest/src/gtest-internal-inl.h:314-321 | The chosen element comes last, what was last takes its place, and the others are shuffled |
| `Shuffle.FisherYatesInside` | googletest/googletest/src/gtest-internal-inl.h:301-322 | Shuffling a range inside a vector is shuffling that range alone |
| `Shuffle.FisherYatesRearranges` | googletest/googletest/src/gtest-internal-inl.h:301-322 | Whatever the choices, the range is permuted and everything outside it stays |
| `Shuffle.FisherYatesReaches` | googletest/googletest/src/gtest-internal-inl.h:312-322 | Every rearrangement of the range is the outcome of some choices |
| `Shuffle.FisherYatesIsInjective` | googletest/googletest/src/gtest-internal-inl.h:312-322 | For distinct elements different choices give different orders, so that choices and orders correspond one to one |
| `Shuffle.ShuffleRange` | googletest/googletest/src/gtest-internal-inl.h:301-322 | The loop performs that shuffle with the choices the generator makes, and leaves the generator in the state after them |
| `SuiteRegistry.UnitTestImpl.constructor` | googletest/googletest/src/gtest.cc:5708 | An empty registry is valid and unshuffled |
| `SuiteRegistry.UnitTestImpl.GetTestSuite` | googletest/googletest/src/gtest.cc:5867-5907 | Finds or creates the one suite of this name (the shortcut by the last suite agrees with the map); names stay unique; death test suites stay before the others, each kind in the order of registration; the indices stay a permutation; registering a death test suite while shuffled keeps death tests first exactly when the index it gets stood where it belongs |
| `SuiteRegistry.UnitTestImpl.AddTestInfo` | googletest/googletest/src/gtest-internal-inl.h:672-692 | Registering a test appends its index to the one suite of that name, changes no other suite, and keeps all of that, with the same condition while shuffled |
| `SuiteRegistry.UnitTestImpl.AddSuite` | googletest/googletest/src/gtest.cc:5884-5906 | The same for a suite that is new |
| `SuiteRegistry.RegisteredWhileShuffled` | googletest/googletest/src/gtest.cc:5891-5895 | Two plain suites, shuffled, then a death test suite: death tests are no longer first |
| `SuiteRegistry.InsertKeepsSorted` | googletest/googletest/src/gtest.cc:5889-5903 | A new suite inserted behind the last of its kind gives the registrations sorted stably by kind |
| `SuiteRegistry.LowFirstGrows` | googletest/googletest/src/gtest.cc:5891-5895 | When an index list grows by a death test suite: the exact condition under which death tests still come first |
| `SuiteRegistry.ShuffleIndices` | googletest/googletest/src/gtest.cc:6479-6486 | Both partial shuffles give a permutation that keeps the death test suites in front |
| `SuiteRegistry.BothPartsAreShuffled` | googletest/googletest/src/gtest.cc:6479-6486 | The death test suites are shuffled among themselves and then the others among themselves, with consecutive numbers of the one generator |
| `SuiteRegistry.ShuffleEachSuite` | googletest/googletest/src/gtest.cc:6488-6491 | The tests of each suite are shuffled in turn with the one generator; states the orders and the final state of the generator exactly |
| `SuiteRegistry.EachIsShuffled` | googletest/googletest/src/gtest.cc:6488-6491 | Every suite gets a shuffle of all its tests, with the numbers that follow those used for the suites before it |
| `SuiteRegistry.UnitTestImpl.ShuffleTests` | googletest/googletest/src/gtest.cc:6477-6492 | Keeps the registry valid and death tests first; states the new orders and the final state of the generator exactly |
| `SuiteRegistry.UnitTestImpl.UnshuffleTests` | googletest/googletest/src/gtest.cc:6494-6501 | Restores the order of registration of suites and of tests, whatever was shuffled before |
| `SuiteRegistry.UnitTestImpl.StartIteration` | googletest/googletest/src/gtest.cc:6043-6050 | The order of an iteration is a function of its seed and of the order before it, not of the generator's past |
| `SuiteRegistry.UnitTestImpl.RunIteration` | googletest/googletest/src/gtest.cc:6138-6144 | Each iteration starts from the order of registration and restores it, so that its order can be had again from its seed alone |
| `SuiteRegistry.UnitTestImpl.UnshuffledMeansDeathTestsFirst` | googletest/googletest/src/gtest.cc:5867-5871 | While tests are not shuffled, death tests come first |
| `SuiteRegistry.UnitTestImpl.DeathTestsRunFirst` | googletest/googletest/src/gtest.cc:6477-6478 | A position runs a death test suite exactly when it is among the first as many positions as there are death test suites |
| `SuiteRegistry.UnitTestImpl.EverySuiteRunsOnce` | googletest/googletest/src/gtest-internal-inl.h:588-591 | Each suite is run, and once only |
| `SuiteRegistry.TestSuite.ShuffleTests` | googletest/googletest/src/gtest.cc:3163-3165 | The order of the tests stays a permutation |
| `SuiteRegistry.TestSuite.UnshuffleTests` | googletest/googletest/src/gtest.cc:3168-3172 | The order of the tests becomes that of registration |
| `EditDistance.PathTransforms` | googletest/googletest/src/gtest.cc:1423-1432 | The reconstructed path is a valid script: it turns left into right, joins equal elements by a match and unequal ones by a replacement, ends at the corner, and costs what the last table cell says |
| `EditDistance.CostBound` | googletest/googletest/src/gtest.cc:1405-1419 | The cost of a cell is at most the difference of the lengths plus 1.00001 times the smaller length |
| `EditDistance.NoScriptIsCheaper` | googletest/googletest/src/gtest.cc:1396-1421 | No valid script is cheaper than the plain minimum over the three ways into a cell |
| `EditDistance.SomeScriptIsBest` | googletest/googletest/src/gtest.cc:1396-1421 | Some valid script costs just that minimum |
| `EditDistance.MatchIsTight` | googletest/googletest/src/gtest.cc:1398-1403 | Consuming equal elements without comparing the other two ways is never a mistake |
| `EditDistance.UnequalCell` | googletest/googletest/src/gtest.cc:1405-1419 | For unequal elements: adding or removing exactly where that neighbour is strictly cheaper than both others, at one more than its cost, otherwise replacing at 1.00001 more than the diagonal |
| `EditDistance.ClearIsOptimal` | googletest/googletest/include/gtest/internal/gtest-internal.h:175-182 | If in every cell of unequal elements one neighbour is clearly the cheapest, measured by the cheapest scripts and not by the table, the edits are optimal |
| `EditDistance.MovedByOne` | googletest/googletest/src/gtest.cc:1378-1433 | The lines a, b, c against b, c, d: remove, match, match, add |
| `EditDistance.OptimalIffPathTight` | googletest/googletest/include/gtest/internal/gtest-internal.h:175-182 | The promise "returns the optimal edits": the script returned for two lists is a cheapest of all valid ones exactly when every addition, removal and replacement along its path is a cheapest way into its cell |
| `EditDistance.TieOffThePath` | googletest/googletest/include/gtest/internal/gtest-internal.h:175-182 | A tie that the path does not run through does no harm: a concrete pair with such a tie and an optimal script |
| `EditDistance.OptimalWithoutTies` | googletest/googletest/src/gtest.cc:1405-1419 | No valid script is cheaper than the table says, if no cell up to it falls to a replacement by a tie |
| `EditDistance.TieIsNotOptimal` | googletest/googletest/src/gtest.cc:1408-1418 | A cell that replaces because add and remove tie, although either of them would be cheaper, is not optimal |
| `EditDistance.OptimalIffNoMispricedTie` | googletest/googletest/include/gtest/internal/gtest-internal.h:175-182 | The paths of all pairs of prefixes are optimal at once exactly when no cell has such a tie |
| `EditDistance.NotAlwaysOptimal` | googletest/googletest/include/gtest/internal/gtest-internal.h:175-182 | A concrete pair for which the promise fails: three replacements where removing and adding once would do |
| `EditDistance.FillTables` | googletest/googletest/src/gtest.cc:1380-1421 | The tables hold the cost and the move of the recurrence in every cell |
| `EditDistance.CalculateOptimalEdits` | googletest/googletest/src/gtest.cc:1378-1433 | The loops return the path of the recurrence |
| `EditDistance.InternalStrings.GetId` | googletest/googletest/src/gtest.cc:1440-1445 | Ids stay fixed, and different strings have different ids |
| `EditDistance.PathDependsOnEqualities` | googletest/googletest/src/gtest.cc:1454-1468 | Cost and path depend only on which elements are equal, hence not on interning |
| `EditDistance.CalculateStringEdits` | googletest/googletest/src/gtest.cc:1454-1468 | The edits of two lists of strings are those of the strings themselves, a valid script, optimal exactly when its path is tight and always when every cell is clear |
| `UnifiedDiff.Hunk.PushLine` | googletest/googletest/src/gtest.cc:1485-1501 | A hunk collects context, removals and additions with removals before additions, which changes neither of its two sides |
| `UnifiedDiff.Hunk.PrintTo` | googletest/googletest/src/gtest.cc:1503-1537 | The header announces as many left and right lines as the body has, and between unchanged lines all removals come before all additions |
| `UnifiedDiff.IsChangeNear` | googletest/googletest/src/gtest.cc:1579-1588 | The hunk goes on exactly when the next change is less than `context` matches away |
| `UnifiedDiff.FillHunk` | googletest/googletest/src/gtest.cc:1575-1604 | The body shows the left slice and the right slice it covers, with at most `context` lines before and behind, and stops only far from the next change |
| `UnifiedDiff.PrefixFits` | googletest/googletest/src/gtest.cc:1568-1573 | The lines taken back for the prefix exist on both sides, are equal there, and were not part of the hunk before |
| `UnifiedDiff.NextHunk` | googletest/googletest/src/gtest.cc:1560-1612 | One more hunk extends the patch to the place it ends at; no hunk means that the patch is complete |
| `UnifiedDiff.RebuildsMore` | googletest/googletest/src/gtest.cc:1546-1552 | Appending a hunk that does not overlap the earlier ones extends what the patch rebuilds |
| `UnifiedDiff.CreateUnifiedDiff` | googletest/googletest/src/gtest.cc:1553-1614 | Applying the hunks to left gives right exactly when the context is at least 1 or there is nothing to show; with the left-out lines put back, the lines are those of the edit script: both texts, and joined where it matches; every hunk is well formed; equal texts have no hunks, nor has any diff with context 0 |
| `UnifiedDiff.ChangesAreCounted` | googletest/googletest/src/gtest.cc:1590-1599 | Such a diff has as many lines tagged ` ` as the script has matches, `-` as it has removals and replacements, and `+` as it has additions and replacements |
| `UnifiedDiff.JoinedIff` | googletest/googletest/src/gtest.cc:1590-1599 | Two positions are joined exactly by an unchanged line that stands at both of them |
| `UnifiedDiff.MatchedIff` | googletest/googletest/src/gtest.cc:1601-1603 | Two positions are matched exactly by a match edit behind as many left and right lines |
| `UnifiedDiff.EmptyRangeIff` | googletest/googletest/src/gtest.cc:1521-1537 | A range in a header is empty exactly when that text is empty |
| `Authorizer.ScanOnlyInserts` | Authorizer/Auth.cpp:106-137 | Whatever the answers, a line is changed only by inserting copies of space + credential right behind directives |
| `Authorizer.ScanIsReversible` | Authorizer/Auth.cpp:106-137 | Removing the inserted copies restores the line; each made it longer by the credential and a space |
| `Authorizer.FirstDirectiveIsScanned` | Authorizer/Auth.cpp:106-137 | What is done about the first directive of a text: nothing inside a longer word; where the credential follows somewhere, or appending is refused, the scan resumes behind as many characters as the credential and a space have; otherwise it is inserted and the scan resumes right there |
| `Authorizer.AnswersInOrder` | Authorizer/Auth.cpp:117-134 | The answers are used from the front, and each yes among those used is one insertion |
| `Authorizer.FileIsReversible` | Authorizer/Auth.cpp:92-139 | Removing from each line of the output what was inserted there, and joining, gives the file back |
| `Authorizer.RunUsesAnswers` | Authorizer/Auth.cpp:92-139 | The same over all lines: a run makes the text longer by the credential and a space for each yes it uses |
| `Authorizer.RefusedRunChangesNothing` | Authorizer/Auth.cpp:121-127 | A run in which everything is refused, or without any answer, changes nothing |
| `Authorizer.ScanLine` | Authorizer/Auth.cpp:102-137 | The loop over positions does that scan; it ends because the unseen rest shrinks |
| `Authorizer.JoinSplitLines` | Authorizer/Auth.cpp:82-90 | The lines joined give the text back |
| `Authorizer.LinesEndInNewline` | Authorizer/Auth.cpp:82-90 | Every line but the last ends with its only newline, and the last has none |
| `Authorizer.SplitConfig` | Authorizer/Auth.cpp:82-90 | The loop splits behind each newline, with a last line that may be empty |
| `Authorizer.RewriteInPlace` | Authorizer/Auth.cpp:92-139 | Each line is rewritten in place up to its comment, with the answers used in order; the file counts as updated exactly when some line has changed |
| `Authorizer.Authorize` | Authorizer/Auth.cpp:82-142 | The output is the rewritten text; the file counts as updated exactly when that is another text |
| `Authorizer.FileIsSettled` | Authorizer/Auth.cpp:92-139 | After a run with all insertions confirmed every directive that is looked at has the credential behind it, if the credential can be read back |
| `Authorizer.SettledFileIsUnchanged` | Authorizer/Auth.cpp:114-118 | Such a file is left alone line by line, whatever would be answered |
| `Authorizer.SecondRunIsNoop` | Authorizer/Test.cpp:73-78 | A second run over authorised files changes nothing, as the test of skipping relies on |
| `Authorizer.RunsAreNotIdempotent` | Authorizer/Auth.cpp:114-118 | With any other credential a lone directive is extended by the second run too |
| `Authorizer.IdempotentIffReusable` | Authorizer/Test.cpp:73-78 | Two runs do the same as one, for all files, exactly when the credential is not empty, does not begin with a space, has no `#`, and a newline at most at its end |
| `Renamer.AcceptedIffTemplate` | stdlib/lib.cpp:126-174 | The compiler accepts exactly the texts that are literals and variables with distinct known names, up to an unterminated `<` at the end, which is dropped |
| `Renamer.RejectedIffFault` | stdlib/lib.cpp:126-174 | The error is that of the first fault behind a part that is in order: a `>` outside of a variable, a `<` inside of one or an empty name, a name seen before, a name without a type |
| `Renamer.KindIff` | stdlib/lib.cpp:151-160 | A variable has one of the four types exactly when the entry `<>` of its map section holds `<string>`, `<alpha>`, `<digit>` or `<float>` |
| `Renamer.GetIniGives` | stdlib/lib.cpp:110-117 | A lookup gives what the entry holds in angle brackets; without brackets the default, and without an entry the default or what that holds in brackets |
| `Renamer.RegexParses` | stdlib/lib.cpp:151-172 | The emitted text, read as an ECMAScript pattern, is the sequence of the escaped literals and of one group for each variable |
| `Renamer.KindsMean` | stdlib/lib.cpp:151-172 | The groups for the four types, and the texts each of them stands for |
| `Renamer.MatchesIffRenders` | stdlib/lib.cpp:151-172 | That pattern matches a name with given captures exactly when the captures are of the kinds of the variables and rendering the template with them gives the name |
| `Renamer.String2Re` | stdlib/lib.cpp:119-176 | The loop returns the error that reading the template gives, or the pattern and the numbers 1, 2, ... of the names in order of occurrence |
| `Renamer.CompiledTemplate` | stdlib/lib.cpp:119-176 | All of it together: the pattern means the template, and has as many captures as the map has names |
| `Renamer.Re2String` | stdlib/lib.cpp:178-214 | The loop returns the text that filling in the captures gives, or the first error |
| `Renamer.FillRenders` | stdlib/lib.cpp:178-214 | Any template over numbered names, not only the one that matched, is rendered with the entry for each capture in the map section of the variable, or with the capture itself |
| `Renamer.RenderedIff` | stdlib/lib.cpp:178-214 | A target is rendered exactly when it is literals and variables that have captures, up to an unterminated `<` |
| `Renamer.NotRenderedIff` | stdlib/lib.cpp:178-214 | Otherwise the error is that of the first fault: a `>` outside of a variable, or a `<` inside of one or a name that is empty or has no capture |
| `Renamer.RenamingTranslates` | Renamer/Renamer.cpp:70-94 | A file name that matched is renamed to the template with the map entry of every captured text in its place |
| `Renamer.RenamingWithSameTemplate` | Renamer/Renamer.cpp:70-94 | It keeps its name when no entry matches a captured text; the entry that declares the type never does |
| `Ini.StringStream.Read` | inih/ini.c:295-318 | Returns the text up to the next newline, cut to the size of the buffer |
| `Ini.IniRStrip` | inih/ini.c:47-52 | The C string in the buffer loses the white space at its end; nothing outside it is written |
| `Ini.IniLSkip` | inih/ini.c:55-60 | Points to the first character that is not white space |
| `Ini.IniFindCharsOrComment` | inih/ini.c:65-80 | Points to the first position that holds one of the characters, or a semicolon behind white space; to the end if there is none |
| `Ini.IniStrncpy0` | inih/ini.c:84-92 | Copies the C string, cut to the size, with its NUL |
| `Ini.Discard` | inih/ini.c:165-174 | Chunks of 15 bytes up to one that ends in a newline are exactly the rest of the physical line |
| `Ini.ReadLine` | inih/ini.c:142-174 | One iteration consumes exactly one physical line, however long, keeps its first 199 bytes, and knows whether it was too long |
| `Ini.ProcessLine` | inih/ini.c:176-257 | The pointer code on the buffers does to section, previous name and reader what parsing the line as a text does |
| `Ini.IniParseStream` | inih/ini.c:95-270 | For input without NUL the stream parser computes the run of the line parser, with the default build options |
| `IniSpec.StopIsFirst` | inih/ini.c:65-80 | The same for the search on texts, for any characters sought, none included |
| `IniSpec.StopFinds` | inih/ini.c:65-80 | A delimiter is found exactly when some occurrence of it is not behind the start of a comment |
| `IniSpec.MalformedIff` | inih/ini.c:184-257 | When a line is an error: no `]` behind `[`, or neither `=` nor `:` in another line that is not blank, comment or continuation |
| `IniSpec.ErrorIsFirstFault` | inih/ini.c:167-171 | The recorded error is the first one and stays |
| `IniSpec.ResultIsFirstFaultyLine` | inih/ini.h:78-80 | The result is 0 or the number of the first line that is too long or malformed |
| `IniReader.Reader.ValueHandler` | inih/cpp/INIReader.cpp:190-201 | A value is stored under its key; a further one for the same key is appended behind a newline |
| `IniReader.LowerAgreesIff` | inih/cpp/INIReader.cpp:181-188 | Keys agree exactly up to the case of ASCII letters |
| `IniReader.LessEqIff` | inih/cpp/INIReader.cpp:168 | The order of keys: one is a prefix of the other, or is smaller where they first differ |
| `IniReader.Reader.Keys` | inih/cpp/INIReader.cpp:153-163 | All names of the section, and no others, in ascending order |
| `IniReader.FirstKeyDecides` | inih/cpp/INIReader.cpp:165-173 | Some key has the prefix exactly when the first key that is not less than the prefix has it |
| `IniReader.Reader.HasSection` | inih/cpp/INIReader.cpp:165-173 | True exactly when the section has some name |
| `IniRoundTrip.PrintedIsParsed` | inih/ini.c:95-270 | Parsing printed headers, entries with either delimiter, further lines, inline comments, padding, blank lines and comment lines gives every key the values set for it, without error |
| `IniRoundTrip.CommentIsDropped` | inih/ini.c:229-235 | A line `name = value ;comment` sets name to value |
| `IniRoundTrip.FurtherLineIsAdded` | inih/ini.c:189-200 | An indented line behind an entry adds its text, without the comment, behind a newline |
| `IniRoundTrip.BomIsSkipped` | inih/ini.c:177-182 | A byte order mark in front of a text makes no difference |
| `IniRoundTrip.LineEndsAtNewline` | inih/ini.c:295-318 | A physical line goes up to the first newline, or to the end of the text |
| `IniRoundTrip.LongLineIsCut` | inih/ini.c:164-174 | A line of 200 or more bytes is an error, and only its first 199 bytes are parsed |
| `IniRoundTrip.RoundTrip` | inih/cpp/INIReader.cpp:65-70 | Every key that was set once has its value, one that was set more often all its values, and nothing else is there |
| `IniRoundTrip.Reread` | inih/cpp/INIReader.cpp:190-201 | The same through the stream parser on its buffers and the value handler |
| `Primes.PrimeIffNoSmallPrimeDivisor` | googletest/googletest/samples/prime_tables.h:104-115 | A number is prime exactly when no prime whose square is not above it divides it |
| `Primes.PrimeAbove` | googletest/googletest/samples/prime_tables.h:66-72 | There is a prime above every number |
| `Primes.OnTheFlyIsPrime` | googletest/googletest/samples/prime_tables.h:55-64 | Trial division up to the square root decides primality |
| `Primes.OnTheFlyGetNextPrime` | googletest/googletest/samples/prime_tables.h:66-72 | The unbounded search ends, with the least prime above p |
| `Primes.PreCalculatedPrimeTable.MarkMultiples` | googletest/googletest/samples/prime_tables.h:109-114 | Clearing multiples from the square on is enough to rule out this prime |
| `Primes.PreCalculatedPrimeTable.CalculatePrimesUpTo` | googletest/googletest/samples/prime_tables.h:100-116 | The sieve holds exactly the primes, although it visits only 2 and odd numbers |
| `Primes.PreCalculatedPrimeTable.IsPrime` | googletest/googletest/samples/prime_tables.h:87-89 | Agrees with primality up to the capacity |
| `Primes.PreCalculatedPrimeTable.GetNextPrime` | googletest/googletest/samples/prime_tables.h:91-97 | The least prime above p within the capacity, or -1 if there is none |
| `Primes.HybridPrimeTable.IsPrime` | googletest/googletest/samples/sample8_unittest.cc:61-66 | Decides primality for every number, within the table or beyond it |
| `Primes.HybridPrimeTable.GetNextPrime` | googletest/googletest/samples/sample8_unittest.cc:68-74 | The least prime above p for every p that is not negative |
| `PrerequisiteGraph.TransitiveIsLeast` | googletest/googlemock/src/gmock-spec-builders.cc:103-106 | The transitive prerequisites are the least closed set that holds the immediate ones |
| `PrerequisiteGraph.WithEdgeIsAcyclicIff` | googletest/googlemock/src/gmock-spec-builders.cc:753-761 | A new edge keeps the graph acyclic exactly when it does not lead back to its start |
| `PrerequisiteGraph.PushIsAffordable` | googletest/googlemock/src/gmock-spec-builders.cc:128-147 | A measure on the worklist that drops although nodes are visited again, so that the walk ends on an acyclic graph |
| `PrerequisiteGraph.ThroughUncalledSuffices` | googletest/googlemock/src/gmock-spec-builders.cc:163-169 | Not going past called nodes hides no unsatisfied one, if all that called, satisfied nodes wait for is satisfied |
| `Expectations.Expectation.RetireAllPreRequisites` | googletest/googlemock/src/gmock-spec-builders.cc:102-126 | Retires exactly the transitive prerequisites and restores that retired expectations have only retired prerequisites; also on a graph with cycles |
| `Expectations.Expectation.AllPrerequisitesAreSatisfied` | googletest/googlemock/src/gmock-spec-builders.cc:128-147 | On an acyclic graph it ends and tells whether the calls of every transitive prerequisite are within its bounds |
| `Expectations.Expectation.FindUnsatisfiedPrerequisites` | googletest/googlemock/src/gmock-spec-builders.cc:149-177 | Adds exactly the unsatisfied prerequisites reached through satisfied expectations not yet called |
| `Expectations.UnmetIsEmptyIff` | googletest/googlemock/src/gmock-spec-builders.cc:149-177 | In every reachable state that list is empty exactly when all transitive prerequisites are satisfied |
| `Expectations.Expectation.ShouldHandleArguments` | googletest/googlemock/include/gmock/gmock-spec-builders.h:1124-1134 | True exactly when the expectation is active, its arguments match and all it waits for is satisfied |
| `Expectations.Expectation.GetActionForArguments` | googletest/googlemock/include/gmock/gmock-spec-builders.h:1211-1253 | Every call keeps the order: retired expectations are satisfied and have retired prerequisites, and what was called as expected has only retired prerequisites; states the new state exactly, also for an excessive call |
| `Expectations.FunctionMocker.FindMatchingExpectation` | googletest/googlemock/include/gmock/gmock-spec-builders.h:1677-1692 | The newest expectation that can handle the call, or none if there is none |
| `Expectations.FunctionMocker.UntypedFindMatchingExpectation` | googletest/googlemock/include/gmock/gmock-spec-builders.h:1643-1665 | A call is handled by that expectation only, and keeps the order |
| `Expectations.CallsComeAfterPrerequisites` | googletest/googlemock/src/gmock-spec-builders.cc:103-109 | Once an expectation that allows calls was called, all it waits for has had as many calls as it demands, not too many, and takes no more |
| `Expectations.StartsInOrder` | googletest/googlemock/include/gmock/gmock-spec-builders.h:860-864 | Before any call every acyclic arrangement is in order |
| `Expectations.Expectation.AddPrerequisite` | googletest/googlemock/src/gmock-spec-builders.cc:753-761 | One more prerequisite keeps the graph acyclic exactly when it does not wait for this expectation; also between calls the order is kept, if this expectation was neither called nor retired |
| `Expectations.Sequence.AddExpectation` | googletest/googlemock/src/gmock-spec-builders.cc:753-761 | The new last member waits for the one before; adding the last member again does nothing; acyclicity and order are kept under the same conditions |
| `Expectations.Sequence.MembersAreOrdered` | googletest/googlemock/src/gmock-spec-builders.cc:753-761 | Each member of a sequence waits for every earlier one |
| `Expectations.Sequence.EarlierMembersAreDone` | googletest/googlemock/src/gmock-spec-builders.cc:753-761 | When a member that allows calls was called, the calls of the earlier members are within their bounds and they are retired |
| `StringLiteral.BodyReadsBack` | googletest/googletest/src/gtest-printers.cc:364-385 | From any position on: the printed rest is read as no more bytes than were printed, and as these bytes unless a NUL stands before an octal digit |
| `StringLiteral.BrokenLiteral` | googletest/googletest/src/gtest-printers.cc:371-376 | Closing and reopening the literal changes nothing but where a hexadecimal escape ends |
| `StringLiteral.PieceIs` | googletest/googletest/src/gtest-printers.cc:150-196 | Exactly the printable characters other than quotation mark and backslash are written as they are, escapes without a name in hexadecimal, and all of the output is printable |
| `StringLiteral.SpecialIff` | googletest/googletest/src/gtest-printers.cc:150-196 | Exactly the NUL and the values of simple escapes, other than the apostrophe and the question mark, are written as two-character escapes |
| `StringLiteral.PrintedLength` | googletest/googletest/src/gtest-printers.cc:371-376 | The literal is broken once for each hexadecimal digit behind a hexadecimal escape, and nowhere else |
| `StringLiteral.RoundTripIff` | googletest/googletest/src/gtest-printers.cc:364-385 | The printed literal denotes the printed bytes exactly when no NUL is followed by an octal digit |
| `StringLiteral.NulSwallowsDigit` | googletest/googletest/src/gtest-printers.cc:364-385 | A concrete pair of bytes whose printed literal denotes one other byte |
| `StringLiteral.PrintAsCharLiteralTo` | googletest/googletest/src/gtest-printers.cc:150-196 | Each byte is appended as it is, as a special escape or as a hexadecimal escape |
| `StringLiteral.PrintAsStringLiteralTo` | googletest/googletest/src/gtest-printers.cc:200-211 | The same with the two kinds of quotes treated for a string literal |
| `StringLiteral.PrintCharsAsStringTo` | googletest/googletest/src/gtest-printers.cc:364-385 | The loop appends the printed literal and reports whether a hexadecimal escape was needed |
| `Utf8.ValidIffEncoding` | googletest/googletest/src/gtest-printers.cc:520-551 | A byte string is valid exactly when it is a concatenation of encodings of Unicode scalar values |
| `Utf8.IsValidUTF8` | googletest/googletest/src/gtest-printers.cc:520-551 | The loop decides that |
| `Utf8.CodePointToUtf8` | googletest/googletest/src/gtest.cc:2076-2102 | The buffer holds the encoding, up to its first NUL; larger numbers give a message |
| `Utf8.EncoderIsValidIffScalar` | googletest/googletest/src/gtest.cc:2070-2076 | The result is well-formed UTF-8 exactly for scalar values and for those reported by the message |
| `Utf8.EncoderRoundTrip` | googletest/googletest/src/gtest.cc:2076-2102 | Decoding what the encoder returns for a scalar value other than 0 gives it back |
| `Utf8.MessageAsPromisedIff` | googletest/googletest/src/gtest.cc:2070-2079 | The message promised for all numbers above 0x10FFFF is missing exactly for those that fit into 21 bits |
| `Utf8.FirstBeyondUnicode` | googletest/googletest/src/gtest.cc:2070-2079 | The first of them comes out as four bytes that are not UTF-8 |

## Left out

- Integers are unbounded, except in the pseudo-random generator and in the encoder of code points, where
  the width matters. Bytes are integers below 256. Shifts and masks of the UTF-8 encoder are written as
  division, remainder and addition.
- Costs of edits are real numbers instead of doubles, so that sums of 1.00001 are not rounded.
- The matrix of the matcher is a list of rows instead of one flat vector; the explanations written to the
  listener are not modelled.
- `UnifiedDiff.Hunk.PrintTo`: gives the header as four numbers; the printed text, with a length of 1 omitted, is not modelled.
- `UnifiedDiff.CreateUnifiedDiff`: its hunks are read back as the code writes them, every range starting at the line its
  header names. Other readers of the format count an empty range from the line before; the code prints 1 where
  they expect 0. By `UnifiedDiff.EmptyRangeIff` this happens only if one of the texts is empty.
- Vectors are sequences that are reassigned; a vector that is passed to be changed in place is passed and returned.
- Test suites have a name and the order of their tests; their set-up functions, type parameters and results are not modelled.
- The order in which a set of prerequisites is visited is arbitrary in the model; the original visits it by
  address. Cardinalities are the ranges that the library itself makes, not user-defined ones. Actions, matchers
  and the mutex are not modelled: whether arguments match is a parameter of a call. The clause `After` adds the
  members of a set one by one, each as `Expectation.AddPrerequisite` does; its loop is not modelled.
- Prerequisites are checked on acyclic graphs only, because the original does not end on others.
- The Authorizer's questions are a list of answers; a dry run is a list that refuses everything. Messages, the
  reading of arguments and files, and the choice of the output file are not modelled. Letters and digits are
  those of ASCII.
- The engine of `std::regex` is replaced by a relation of patterns, texts and captures for the patterns that
  the template compiler emits. A backslash before any character that is not alphanumeric, the underscore
  included, is taken to stand for that character. The anchors put around the pattern have no effect beside a match of the whole name.
- The Renamer's search for files, its configuration of pattern and target, and the renaming itself.
- `Primes.PreCalculatedPrimeTable.constructor` asks for a capacity of at least 1, and
  `Primes.PreCalculatedPrimeTable.GetNextPrime` for p >= -1: otherwise the original writes or reads outside its array.
- `Ini.IniParseStream` is the default build: a fixed line buffer of 200 bytes, multi-line values, a byte-order mark, inline
  comments behind `;`, and a handler that succeeds. Input with NUL bytes is not modelled.
- `IniRoundTrip.RoundTrip` is stated for texts that the format can carry: names and values trimmed and without what would
  read as a comment or a delimiter, lines within the limit, and further lines only behind a pair with a name.
- `StringLiteral.PrintCharsAsStringTo` is the instance for `char`; wide characters and their prefixes are not modelled.
- Death tests themselves, threads, reports in XML and JSON, printers of other values, flags, sharding, and the
  console parts of the tools.
