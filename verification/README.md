# Verified models of GoogleTest and GoogleMock algorithms

This project models the algorithms of the vendored GoogleTest and GoogleMock sources under
`ext/googletest` and proves what they promise. `dafny verify dfyconfig.toml` checks all of it.

| module | what it models |
|---|---|
| `Matching` | the match matrix, maximum bipartite matching by augmenting paths, and the pairing test of the unordered-elements matchers |
| `Glob`, `Filters` | the wildcard matcher, pattern lists, and positive and negative test filters |
| `EditDistance`, `UnifiedDiff`, `HunkPrinting` | the edit table, back-tracking, string interning, the hunks of a unified diff, and their text with a reader of it |
| `SimpleRegex` | the validator and matcher of the simple regular expressions, against syntax trees with a language |
| `PrerequisiteGraph`, `Expectations` | the prerequisite graph of mock expectations, its three walks, sequences, and runs of mock calls with the actions they take |
| `Utf8`, `Hexadecimal`, `StringLiteral`, `CData`, `Base64`, `WideInteger` | encoders and printers, each against a reader that inverts it |
| `TestSchedule`, `TestScheduling`, `Sharding` | registration, filtering, sharding, shuffling and unshuffling of tests |
| `PrimeTables` | trial division, a sieve, and a hybrid of the two |
| `Cardinality`, `Decimal`, `Division`, `Text` | counting and division facts, decimal text, and small notions that several modules share |

Specifications are independent of the code: the language of a glob or regular expression, the set of
matchings of a graph, applying a patch, reading a literal, a CDATA section or a UTF-8 string, all orders of
a range. Code that updates state is a class or a method with loops, tied to such a specification.

## Where the code and its documentation differ

The model follows the code, and states exactly when the documented property holds.

- `CalculateOptimalEdits` is documented as optimal (`ext/googletest/googletest/include/gtest/internal/gtest-internal.h`),
  but replaces when adding and removing tie below replacing. The scripts for all prefixes are minimal if
  and only if no cell does that (`EditDistance.OptimalIffNeverFallsThrough`). The result itself is minimal if
  and only if its cost is that of the plain recurrence (`EditDistance.ResultOptimalByDistance`); "aba" and "bab"
  are an example where it is not (`EditDistance.NotAlwaysOptimal`).
- `CreateUnifiedDiff` prints nothing for a context of 0. Its hunks are a patch if and only if the context is
  positive or the files are equal (`UnifiedDiff.CreateUnifiedDiff`). Its text tells the hunks if and only if no
  shown line holds a line break or a NUL (`HunkPrinting.DiffReadsBackExactly`).
- `RE::FullMatch` matches only a prefix when the pattern ends in an escaped dollar sign, and decides
  membership of the whole text for all other patterns (`SimpleRegex.FullMatchIsWholeExactly`).
- The printer of string literals writes NUL as `\0`, which takes up to two octal digits that follow it. The
  output reads back exactly if no NUL is directly followed by an octal digit (`StringLiteral.LiteralReadsBackExactly`).
- `CodePointToUtf8` calls a code point invalid only above 2^21 - 1. The values between U+10FFFF and that
  limit, and surrogates, are written as bytes that are not UTF-8 (`Utf8.EncodesScalarsExactly`).
- `HybridPrimeTable::GetNextPrime(-1)` answers 2 where trial division answers -1, if and only if it holds a
  sieve of at least 2 (`PrimeTables.HybridPrimeTable.GetNextPrime`).
- `UnitTestImpl::GetTestSuite(int) const` (`ext/googletest/googletest/src/gtest-internal-inl.h`, lines 586-589)
  looks the index up in the shuffled order but then uses the place, not the index. It agrees with
  `GetMutableSuiteCase`, which gives the order of the run, if and only if the suites are not shuffled
  (`TestScheduling.AccessorsAgreeUnshuffled`; `TestScheduling.AccessorsDiffer` is a shuffled state where the two
  differ), and always gives the stored order (`TestScheduling.GetTestSuiteAtGivesStoredOrder`). In the model this
  accessor is called `GetTestSuiteAt`, and `GetTestSuite` is the operation that finds or creates a suite by name.

## How the source is represented

- C strings are sequences of characters without NUL where the code stops at NUL. Positions in them
  are indices. `std::vector` members that grow are sequences; in-place tables and link vectors are arrays.
- The edit costs 1 and 1.00001 are the exact integers 100000 and 100001.
- Shifts and masks are written with `/`, `%` and `*`; bits or-ed into zero bits are added.
- 64-bit and 128-bit wrap-around is written out in `WideInteger`. Other integers are unbounded.
- A random number is any value below its range. The numbers drawn are recorded, and every shuffle is proved to
  be the one for exactly those numbers.
- The mutex of GoogleMock makes declarations and calls single steps; a run is any sequence of them.
- Expectations have a lower and an upper call limit, as `Between` gives them
  (`ext/googletest/googlemock/src/gmock-cardinalities.cc`, lines 50-91).
- Some long functions are split into several methods where the source has one body: the loop bodies of
  `CreateUnifiedDiff`, `FilterTests`, `CalculateOptimalEdits`, `TryAugment`, `ValidateRegex`, `WideStringToUtf8`,
  the sieve and the three walks over prerequisites, the loops of `PrintTo`, `Compute` and of the 128-bit printer,
  the anchoring half of `RE::Init`, the counting half of `GetActionForArguments`, and the inserting half of
  `GetTestSuite`. `ghost` parameters of these carry only specifications.
- Helpers that both the code and a specification use have lemmas of their own that state what they mean by
  character codes, literal text or plain counting.

## Model

| member | source | states |
|---|---|---|
| `Matching.MatchMatrix.constructor` | ext/googletest/googlemock/include/gmock/gmock-matchers.h:3497-3500 | a new matrix is the graph of the given size without edges |
| `Matching.MatchMatrix.SetEdge` | ext/googletest/googlemock/include/gmock/gmock-matchers.h:3507-3509 | changes exactly the one edge of the graph; the flattened index of a pair is in range and shared with no other pair |
| `Matching.MatchMatrix.NextGraph` | ext/googletest/googlemock/src/gmock-matchers.cc:247-259 | adds one to the matrix read as a binary number; false exactly on overflow, which leaves it empty |
| `Matching.NumberInjective` | ext/googletest/googlemock/include/gmock/gmock-matchers.h:3511-3514 | equal numbers of equal length are equal matrices |
| `Matching.NumberBound` | ext/googletest/googlemock/include/gmock/gmock-matchers.h:3511-3514 | the number of a matrix stays below two to its number of cells |
| `Matching.EveryMatrixIsVisitedOnce` | ext/googletest/googlemock/include/gmock/gmock-matchers.h:3511-3514 | from the empty matrix on, successive calls visit every matrix of the size exactly once, after as many calls as its number |
| `Matching.RoundEnds` | ext/googletest/googlemock/src/gmock-matchers.cc:247-259 | the call after the last matrix starts again with the empty one |
| `Matching.MaxBipartiteMatchState.constructor` | ext/googletest/googlemock/src/gmock-matchers.cc:126-129 | starts with every node unused |
| `Matching.MaxBipartiteMatchState.TryAugment` | ext/googletest/googlemock/src/gmock-matchers.cc:184-208 | one depth-first search; terminates by the unseen right nodes; failure changes no link and leaves an explored set that all edges of the left node enter; success links that node, keeps both vectors mutually inverse, turns no other left node from unused to used or back, and never touches a set that was dead before |
| `Matching.MaxBipartiteMatchState.AugmentAll` | ext/googletest/googlemock/src/gmock-matchers.cc:148-155 | after one search per left node there is a dead set that takes every edge of every unused left node |
| `Matching.MaximumByDeadSet` | ext/googletest/googlemock/src/gmock-matchers.cc:136-147 | mutually inverse links beside such a dead set are a maximum matching: no matching of the graph is larger |
| `Matching.MaxBipartiteMatchState.Compute` | ext/googletest/googlemock/src/gmock-matchers.cc:132-163 | the returned pairs are the links, in the order of the left nodes, and a matching of maximum size |
| `Matching.FindMaxBipartiteMatching` | ext/googletest/googlemock/src/gmock-matchers.cc:228-230 | for every matrix the pairs are duplicate-free and a maximum matching |
| `Matching.CoversMatchersByCount` | ext/googletest/googlemock/src/gmock-matchers.cc:424-426 | a matching has at most one pair per matcher, and covers all matchers exactly when it has that many |
| `Matching.CoversElementsByCount` | ext/googletest/googlemock/src/gmock-matchers.cc:436-437 | the same for elements |
| `Matching.PairableMeans` | ext/googletest/googlemock/include/gmock/gmock-matchers.h:3541-3547 | Superset asks for an element of its own for every matcher, Subset for a matcher of its own for every element, Exact for as many elements as matchers and an element of its own for every matcher |
| `Matching.TransposedPairable` | ext/googletest/googlemock/include/gmock/gmock-matchers.h:3541-3547 | exchanging elements and matchers exchanges Superset and Subset and keeps Exact |
| `Matching.NoLonerMeans` | ext/googletest/googlemock/src/gmock-matchers.cc:385-418 | the quick check asks for an edge of every matcher (Superset), of every element (Subset), or both (Exact) |
| `Matching.PairableByMaximum` | ext/googletest/googlemock/src/gmock-matchers.cc:424-437 | comparing the size of a maximum matching with the counts decides whether any one-to-one assignment covers what the flags ask for |
| `Matching.FindPairing` | ext/googletest/googlemock/src/gmock-matchers.cc:420-459 | true if and only if a one-to-one assignment covers all matchers (Superset), all elements (Subset), or both |
| `Matching.VerifyMatchMatrix` | ext/googletest/googlemock/src/gmock-matchers.cc:370-418 | true if and only if no matcher (Superset) and no element (Subset) is without an edge |
| `Matching.PairableHasNoLoner` | ext/googletest/googlemock/include/gmock/gmock-matchers.h:3649-3650 | the quick check never rejects a matrix that can be paired |
| `Matching.MatchAndExplain` | ext/googletest/googlemock/include/gmock/gmock-matchers.h:3624-3651 | the size test, the quick check and the pairing together accept exactly the matrices that can be paired |
| `Glob.PatternMatchesString` | ext/googletest/googletest/src/gtest.cc:677-722 | true if and only if the name is in the language of the pattern; the loop runs at most (name length + 1) * (pattern length + 1) times |
| `Glob.LastStarSuffices` | ext/googletest/googletest/src/gtest.cc:703-720 | when a later star is reached, the restart point of the earlier one can be forgotten |
| `Glob.StarRead` | ext/googletest/googletest/src/gtest.cc:703-710 | a star matches if the rest does here or the same star matches one character later |
| `Glob.SymbolsMean` | ext/googletest/googletest/src/gtest.cc:677-722 | a question mark stands for any one character, a star for any string, every other symbol for itself |
| `Filters.SplitString` | ext/googletest/googletest/src/gtest.cc:1209-1224 | the parts joined by the delimiter are the text again, and none contains the delimiter |
| `Filters.SplitUnique` | ext/googletest/googletest/src/gtest.cc:1209-1224 | there is only one such split |
| `Filters.ListMeans` | ext/googletest/googletest/src/gtest.cc:752-762 | a list of patterns matches what its first pattern or one after the colon matches |
| `Filters.OrdinaryPatternMatchesItself` | ext/googletest/googletest/src/gtest.cc:726-729 | a pattern without wildcards matches exactly itself, so that it can be looked up among exact names |
| `Filters.UnitTestFilter.Nothing` | ext/googletest/googletest/src/gtest.cc:733 | the default filter accepts no name |
| `Filters.UnitTestFilter.constructor` | ext/googletest/googletest/src/gtest.cc:736-750 | the two stored groups accept a name if and only if some colon-separated pattern of the text matches it |
| `Filters.UnitTestFilter.MatchesName` | ext/googletest/googletest/src/gtest.cc:752-762 | decides acceptance |
| `Filters.DisableFilterMeaning` | ext/googletest/googletest/src/gtest.cc:157 | the disable filter matches names that start with DISABLED_ or have it after a slash, and no others |
| `Filters.DeathTestFilterMeaning` | ext/googletest/googletest/src/gtest.cc:162 | the death-test filter matches names that end in DeathTest or have it before a slash, and no others |
| `Filters.PositiveAndNegativeUnitTestFilter.constructor` | ext/googletest/googletest/src/gtest.cc:776-801 | the text up to the first dash is the positive list, read as "*" if empty, and all that follows, further dashes included, the negative one |
| `Filters.SelectsMeans` | ext/googletest/googletest/src/gtest.cc:776-801 | without a dash a filter is a list, the list after the dash excludes, and with nothing before the dash all other names are selected |
| `Filters.PositiveAndNegativeUnitTestFilter.MatchesName` | ext/googletest/googletest/src/gtest.cc:811-816 | accepted by the positive and not by the negative list |
| `Filters.FilterMatchesTest` | ext/googletest/googletest/src/gtest.cc:831-837 | decides what the whole filter text selects for the name suite.test |
| `EditDistance.PathIsScript` | ext/googletest/googletest/src/gtest.cc:1266-1321 | the back-tracked script turns the one prefix into the other, matches only equal and replaces only unequal elements, and costs what its cell says |
| `EditDistance.ResultCost` | ext/googletest/googletest/src/gtest.cc:1266-1321 | the result costs at most 1.00001 per position, and nothing if and only if the sequences are equal |
| `EditDistance.PopulateTable` | ext/googletest/googletest/src/gtest.cc:1268-1309 | the filled table holds the move of every cell |
| `EditDistance.PopulateCell` | ext/googletest/googletest/src/gtest.cc:1286-1307 | one inner cell: its cost and move, with all branches |
| `EditDistance.CellMeans` | ext/googletest/googletest/src/gtest.cc:1286-1307 | equal elements are matched at no cost; the right is added or the left removed only where that is strictly cheaper than both other moves, and every tie replaces |
| `EditDistance.PopulateEdges` | ext/googletest/googletest/src/gtest.cc:1273-1282 | first row and first column |
| `EditDistance.CalculateOptimalEdits` | ext/googletest/googletest/src/gtest.cc:1266-1321 | returns the back-tracked script, which is a script from left to right |
| `EditDistance.OptimalIffNeverFallsThrough` | ext/googletest/googletest/src/gtest.cc:1296-1306 | the scripts of all prefixes are minimal if and only if no cell replaces although adding or removing is no dearer |
| `EditDistance.ResultOptimality` | ext/googletest/googletest/src/gtest.cc:1296-1306 | the result is minimal if no cell falls through so, and is not minimal if one on its own way back does |
| `EditDistance.ResultOptimalByDistance` | ext/googletest/googletest/src/gtest.cc:1266-1321 | the result is minimal if and only if the last cell costs what the plain recurrence of all fitting moves gives |
| `EditDistance.OffPathCanBeHarmless` | ext/googletest/googletest/src/gtest.cc:1296-1306 | for ab and baa a cell off the way back falls through and the result is minimal all the same |
| `EditDistance.OffPathCanHarm` | ext/googletest/googletest/src/gtest.cc:1296-1306 | for aba and baac only a cell off the way back falls through, and the result is not minimal |
| `EditDistance.FallThroughIsBeaten` | ext/googletest/googletest/src/gtest.cc:1296-1306 | at every such cell a cheaper script exists |
| `EditDistance.NotAlwaysOptimal` | ext/googletest/googletest/src/gtest.cc:1296-1306 | for aba and bab the result is three replaces, which is not minimal |
| `EditDistance.InternalStrings.GetId` | ext/googletest/googletest/src/gtest.cc:1328-1333 | ids are stable and different strings have different ids |
| `EditDistance.Intern` | ext/googletest/googletest/src/gtest.cc:1345-1354 | every string gets its id |
| `EditDistance.SameEqualitiesSamePath` | ext/googletest/googletest/src/gtest.cc:1342-1356 | the script depends only on which elements are equal |
| `EditDistance.CalculateOptimalStringEdits` | ext/googletest/googletest/src/gtest.cc:1342-1356 | the script over ids is the script over the strings |
| `UnifiedDiff.Hunk.PushLine` | ext/googletest/googletest/src/gtest.cc:1373-1389 | appends the line to the hunk, or to its waiting removals or additions, and counts it |
| `UnifiedDiff.Pending.PushSides` | ext/googletest/googletest/src/gtest.cc:1373-1389 | the old side grows by a common or removed line and the new side by a common or added one, whatever is still waiting |
| `UnifiedDiff.Hunk.PrintTo` | ext/googletest/googletest/src/gtest.cc:1391-1399 | writes the text of the hunk; its header counts are the lengths of the two sides, omitted for a side without edits of its own; removals come before additions |
| `UnifiedDiff.Pending.RangesFitLines` | ext/googletest/googletest/src/gtest.cc:1413-1425 | the ranges that are printed follow from the lines: a side is named if it has edits of its own, with the number of its lines |
| `UnifiedDiff.Hunk.PrintHeader` | ext/googletest/googletest/src/gtest.cc:1409-1425 | writes the header of the two ranges |
| `HunkPrinting.HeaderReads` | ext/googletest/googletest/src/gtest.cc:1409-1425 | a reader that takes exactly one blank between two ranges, and none otherwise, gets back exactly the ranges of a header, whichever of them are omitted |
| `HunkPrinting.HeaderOfBoth` | ext/googletest/googletest/src/gtest.cc:1409-1425 | the header of two changed sides, letter by letter |
| `HunkPrinting.HeaderOfLeft` | ext/googletest/googletest/src/gtest.cc:1409-1425 | the header when lines were only removed, letter by letter |
| `HunkPrinting.HeaderOfRight` | ext/googletest/googletest/src/gtest.cc:1409-1425 | the header when lines were only added, letter by letter |
| `HunkPrinting.ChangedLineText` | ext/googletest/googletest/src/gtest.cc:1391-1425 | the whole text for one changed line |
| `HunkPrinting.DiffReadsBackExactly` | ext/googletest/googletest/src/gtest.cc:1391-1425 | a reader of the whole text gets back exactly the hunks if and only if no shown line holds a line break or a NUL |
| `HunkPrinting.CStringEnds` | ext/googletest/googletest/src/gtest.cc:1394-1398 | a line is written up to its first NUL |
| `UnifiedDiff.NextEditIsFar` | ext/googletest/googletest/src/gtest.cc:1469-1475 | true if and only if at least the context, or the rest of the script, is matches; else the first edit is near |
| `UnifiedDiff.FillHunk` | ext/googletest/googletest/src/gtest.cc:1465-1492 | takes edits up to the first place where enough common lines follow and the next edit is far: it stops at such a place or the end, and between the edits taken stand fewer than twice the context common lines; without context it takes none |
| `UnifiedDiff.SkipMatches` | ext/googletest/googletest/src/gtest.cc:1450-1454 | skips exactly the leading matches |
| `UnifiedDiff.HunkApplies` | ext/googletest/googletest/src/gtest.cc:1456-1499 | a hunk applies where the previous one left off: its old side is the slice of the left file at its start, its new side the slice of the right file |
| `UnifiedDiff.BuildHunk` | ext/googletest/googletest/src/gtest.cc:1456-1499 | one round of the main loop; it gives up exactly at the end of the script or for context 0 |
| `UnifiedDiff.ContextFits` | ext/googletest/googletest/src/gtest.cc:1456-1463 | the start of a hunk in the right file never falls below its first line |
| `UnifiedDiff.CreateUnifiedDiff` | ext/googletest/googletest/src/gtest.cc:1441-1502 | the text reads back as hunks unless a line of the files holds a line break or a NUL; applying them to left gives right if and only if context is positive or the files are equal; every hunk shows the wanted context, joins only edits with fewer than twice the context common lines between them, and keeps removals before additions |
| `UnifiedDiff.HunksAreApart` | ext/googletest/googletest/src/gtest.cc:1467-1479 | between the last edit of a hunk and the first of the next one stand at least twice the context common lines, so that closer edits share a hunk |
| `UnifiedDiff.LayoutAtLimits` | ext/googletest/googletest/src/gtest.cc:1467-1479 | with a context of one, two edits may have one common line between them but not two, and no added line stands right before a removed one |
| `SimpleRegex.ParseIsInverse` | ext/googletest/googletest/src/gtest-port.cc:791-842 | a text parses to a tree if and only if the tree is valid and prints as that text |
| `SimpleRegex.AcceptsIsParse` | ext/googletest/googletest/src/gtest-port.cc:791-842 | what the validator accepts, character by character, is what parses |
| `SimpleRegex.ValidateRegex` | ext/googletest/googletest/src/gtest-port.cc:791-842 | accepts exactly the printed forms of syntax trees |
| `SimpleRegex.MatchRepetitionAndRegexAtHead` | ext/googletest/googletest/src/gtest-port.cc:851-870 | some number of characters fits the repetition and the rest matches what follows |
| `SimpleRegex.MatchRegexAtHead` | ext/googletest/googletest/src/gtest-port.cc:872-899 | true if and only if some prefix, or the whole text for an anchored end, is in the language of the tree; the mutual recursion ends |
| `SimpleRegex.HeadBySplit` | ext/googletest/googletest/src/gtest-port.cc:851-870 | matching a repeated atom and a rest is a split of the text between them |
| `SimpleRegex.AtomMeans` | ext/googletest/googletest/src/gtest-port.cc:748-780 | every atom stands for exactly the characters given by their codes: a dot for all but the line break, each escape for its class or character, every other atom for itself |
| `SimpleRegex.ItemLanguage` | ext/googletest/googletest/src/gtest-port.cc:851-870 | one repeated atom matches exactly the texts of such characters of a length that the repetition allows |
| `SimpleRegex.ValidAtoms` | ext/googletest/googletest/src/gtest-port.cc:733-746 | which characters may follow a backslash, and which stand alone, by their codes |
| `SimpleRegex.MatchRegexAnywhere` | ext/googletest/googletest/src/gtest-port.cc:909-919 | true if and only if some substring is in the language, anchors respected |
| `SimpleRegex.RE.Init` | ext/googletest/googletest/src/gtest-port.cc:940-971 | valid if and only if the pattern is the print of a tree; the stored full pattern is the text of the tree anchored at both ends, but not at the end after an escaped dollar |
| `SimpleRegex.FullPatternParses` | ext/googletest/googletest/src/gtest-port.cc:952-971 | adding a caret and a dollar where the text lacks them anchors the tree |
| `SimpleRegex.RE.FullMatch` | ext/googletest/googletest/src/gtest-port.cc:929-931 | decides matching of the stored full pattern |
| `SimpleRegex.RE.PartialMatch` | ext/googletest/googletest/src/gtest-port.cc:935-937 | decides whether some substring is in the language |
| `SimpleRegex.OneAtomPattern` | ext/googletest/googletest/src/gtest-port.cc:909-937 | a pattern of one atom matches within a text that holds such a character, and the whole of a text that is one |
| `SimpleRegex.FullMatchIsWholeExactly` | ext/googletest/googletest/src/gtest-port.cc:928-931 | a full match is membership of the whole text, for all texts, if and only if the pattern does not end in an escaped dollar |
| `SimpleRegex.EscapedDollarCutsOff` | ext/googletest/googletest/src/gtest-port.cc:967-968 | for every pattern that ends in an escaped dollar, a text that the full match gets wrong |
| `Expectations.Expectation.RetireAllPreRequisites` | ext/googletest/googlemock/src/gmock-spec-builders.cc:108-131 | with the retired set closed under prerequisites, exactly everything below the receiver becomes retired and the set is closed again; the early return is therefore sound |
| `Expectations.Expectation.AllPrerequisitesAreSatisfied` | ext/googletest/googlemock/src/gmock-spec-builders.cc:135-152 | on every acyclic graph it ends, without a visited set, and is true if and only if everything below was called within its two limits |
| `Expectations.Expectation.FindUnsatisfiedPrerequisites` | ext/googletest/googlemock/src/gmock-spec-builders.cc:155-182 | adds exactly the unsatisfied expectations met on paths through satisfied ones that were never called |
| `PrerequisiteGraph.PrerequisiteIsLighter` | ext/googletest/googlemock/src/gmock-spec-builders.cc:138-150 | every prerequisite weighs less by a factor, which pays for pushing all of them |
| `Expectations.SearchIsComplete` | ext/googletest/googlemock/src/gmock-spec-builders.cc:169-178 | in every reachable state the search that stops at called expectations finds something exactly when something below is unsatisfied |
| `Expectations.CalledMeansBelowSatisfied` | ext/googletest/googlemock/src/gmock-spec-builders.cc:169-173 | in every reachable state, whatever is satisfied and was called has everything below it satisfied |
| `Expectations.ExplainPrerequisites` | ext/googletest/googlemock/include/gmock/gmock-spec-builders.h:1126-1143 | prerequisites are named exactly when the check fails, and all that are named are unsatisfied ones |
| `Expectations.ExplainMatchResult` | ext/googletest/googlemock/include/gmock/gmock-spec-builders.h:1116-1157 | the first reason that applies is given: inactive, other arguments, unsatisfied prerequisites, at least one of them; none exactly for a call that would be handled |
| `Expectations.HandleCall` | ext/googletest/googlemock/include/gmock/gmock-spec-builders.h:1196-1223 | a handled call is exactly one step of a run: an excessive call is only counted, any other also retires everything below, and itself if asked to on saturation |
| `Expectations.GetActionForArguments` | ext/googletest/googlemock/include/gmock/gmock-spec-builders.h:1196-1223 | besides, it gives the default action for an excessive call, else the next single action while there is one, else the repeated one, and tells when the single actions have run out |
| `Expectations.CallsAreCounted` | ext/googletest/googlemock/include/gmock/gmock-spec-builders.h:1196-1223 | over every run the call count of an expectation is the number of calls that it handled |
| `Expectations.ActionsComeInOrder` | ext/googletest/googlemock/include/gmock/gmock-spec-builders.h:1159-1185 | over every run the calls within the limit take the single actions in order, each once and none left out, and then the repeated one |
| `Expectations.ShouldHandleArguments` | ext/googletest/googlemock/include/gmock/gmock-spec-builders.h:1102-1112 | true if and only if not retired, everything below was called within its limits, and the arguments match |
| `Expectations.FindMatchingExpectation` | ext/googletest/googlemock/include/gmock/gmock-spec-builders.h:1611-1625 | the last declared expectation that is not retired, has everything below it called within its limits, and matches |
| `Expectations.CallKeepsInvariant` | ext/googletest/googlemock/include/gmock/gmock-spec-builders.h:1196-1223 | a call by an expectation that may handle it keeps the graph invariant |
| `Expectations.DeclarationKeepsInvariant` | ext/googletest/googlemock/include/gmock/gmock-spec-builders.h:950-961 | a new expectation after old ones keeps the graph acyclic and changes no order among the old ones |
| `Expectations.LinkKeepsInvariant` | ext/googletest/googlemock/src/gmock-spec-builders.cc:746-754 | linking puts an expectation behind the last one and all that one comes after, and keeps the invariant |
| `Expectations.Sequence.AddExpectation` | ext/googletest/googlemock/src/gmock-spec-builders.cc:746-754 | adds the one edge to the last expectation, or none if there is none or it is the same |
| `Expectations.RunKeepsInvariant` | ext/googletest/googlemock/include/gmock/gmock-spec-builders.h:1196-1223 | every state of every run of declarations, links through sequences and calls satisfies the invariant |
| `Expectations.RetiredForever` | ext/googletest/googlemock/include/gmock/gmock-spec-builders.h:769-773 | retired expectations stay retired over every run |
| `Expectations.PrerequisitesComeFirst` | ext/googletest/googlemock/src/gmock-spec-builders.cc:108-131 | over every run, after a call within its limit none of the prerequisites of an expectation handles a call again |
| `Expectations.PrerequisitesWereCalled` | ext/googletest/googlemock/src/gmock-spec-builders.cc:135-152 | over every run, when an expectation handles a call, each of its prerequisites has handled at least as many calls as it has to and at most as many as it may |
| `Expectations.RetiredMeans` | ext/googletest/googlemock/include/gmock/gmock-spec-builders.h:1202-1217 | over every run, an expectation is retired if and only if one that comes after it handled a call within its limit, or it was asked to retire on saturation and has handled as many calls as it may |
| `Expectations.OrderIsKept` | ext/googletest/googlemock/src/gmock-spec-builders.cc:746-754 | over every run, once an expectation was put behind another by a sequence or a declaration and has handled a call within its limit, neither that one nor anything it came after handles a call again |
| `Utf8.IsValidUTF8` | ext/googletest/googletest/src/gtest-printers.cc:481-512 | accepts exactly the strings of the syntax in section 4 of RFC 3629 |
| `Utf8.CharsAreScalars` | ext/googletest/googletest/src/gtest-printers.cc:481-512 | the characters of that syntax are exactly the encodings of single scalar values |
| `Utf8.TextsAreScalars` | ext/googletest/googletest/src/gtest-printers.cc:481-512 | those strings are exactly the encodings of sequences of Unicode scalar values |
| `Utf8.DecodingIsUnique` | ext/googletest/googletest/src/gtest-printers.cc:481-512 | no string encodes two different sequences |
| `Utf8.CodePointToUtf8` | ext/googletest/googletest/src/gtest.cc:1947-1973 | writes nothing for NUL, the bit layout up to 21 bits, and the remark on an invalid code point beyond |
| `Utf8.InvalidTextIs` | ext/googletest/googletest/src/gtest.cc:1948-1952 | the remark on an invalid code point, character by character |
| `Utf8.EncodesScalarsExactly` | ext/googletest/googletest/src/gtest.cc:1941-1973 | for non-zero values below 2^21 the result is well-formed UTF-8 if and only if the value is a Unicode scalar value, and then it decodes back to it |
| `Utf8.WideStringToUtf8` | ext/googletest/googletest/src/gtest.cc:2014-2034 | the concatenated encodings of the code points up to a NUL or the limit, for every limit |
| `Utf8.ProcessedMeans` | ext/googletest/googletest/src/gtest.cc:2014-2018 | a limit counts units from the front; -1 and a limit beyond the end are none, and below -1 nothing is processed |
| `Utf8.WideTextIsUtf8Exactly` | ext/googletest/googletest/src/gtest.cc:1978-2033 | for NUL-free 16-bit units the result is well-formed UTF-8 if and only if the input is well-formed UTF-16 of section 2.2 of RFC 2781 |
| `Utf8.WideTextOfUtf16` | ext/googletest/googletest/src/gtest.cc:1978-2033 | and then it decodes to the same scalar values |
| `Utf8.Utf16IsPairs` | ext/googletest/googletest/src/gtest.cc:1982-1999 | combining surrogate pairs recovers the encoded scalar values |
| `Utf8.WideTextOfUtf32` | ext/googletest/googletest/src/gtest.cc:2001-2034 | for NUL-free 32-bit units the result is well-formed UTF-8 if and only if every unit below 2^21 is a scalar value, and decodes back to the units if and only if all are |
| `StringLiteral.PrintCharsAsStringTo` | ext/googletest/googletest/src/gtest-printers.cc:340-361 | writes the quoted escapes, broken after a hex escape before a hex digit, and reports whether a hex escape was needed |
| `StringLiteral.FormByCode` | ext/googletest/googletest/src/gtest-printers.cc:149-209 | the exact text and format of every byte, by its code |
| `StringLiteral.NeedsHexByCode` | ext/googletest/googletest/src/gtest-printers.cc:340-361 | a hex escape is reported exactly for texts with a byte from 1 to 6, from 14 to 31 or from 127 on |
| `StringLiteral.BreakIsWritten` | ext/googletest/googletest/src/gtest-printers.cc:340-361 | a whole example with a break |
| `StringLiteral.LiteralReadsBackExactly` | ext/googletest/googletest/src/gtest-printers.cc:149-209 | reading the output as adjacent literals (sections 5.13.3 and 5.13.5 of ISO/IEC 14882:2017) gives back the bytes if and only if no NUL is directly followed by an octal digit |
| `StringLiteral.ReadsMisread` | ext/googletest/googletest/src/gtest-printers.cc:152-154 | what a reader makes of every output, with the digits after a NUL swallowed |
| `StringLiteral.ReaderAtLimits` | ext/googletest/googletest/src/gtest-printers.cc:152-154 | the reader takes at most three octal digits and no value beyond a byte |
| `StringLiteral.BreakReads` | ext/googletest/googletest/src/gtest-printers.cc:347-352 | the literal is broken off exactly where a digit would be taken into the escape before it |
| `Hexadecimal.HexReadsBack` | ext/googletest/googletest/src/gtest.cc:2153-2157 | upper-case hexadecimal text reads back as the number |
| `Hexadecimal.HexIsUpperCase` | ext/googletest/googletest/src/gtest-printers.cc:187-190 | capital letters and no leading zero |
| `Hexadecimal.XDigitCodes` | ext/googletest/googletest/src/gtest-printers.cc:347-352 | what counts as a hex digit behind an escape, by codes |
| `Hexadecimal.LetterValues` | ext/googletest/googletest/src/gtest.cc:2153-2157 | letters of either case are the values from ten to fifteen |
| `CData.OutputXmlCDataSection` | ext/googletest/googletest/src/gtest.cc:4136-4153 | writes the text with every closing mark, found from left to right, split between two sections |
| `CData.SectionsReadBack` | ext/googletest/googletest/src/gtest.cc:4136-4153 | reading the markup (sections 2.7 and 4.6 of XML 1.0) gives exactly the text, however closing marks and brackets overlap |
| `CData.ReaderIsStrict` | ext/googletest/googletest/src/gtest.cc:4136-4153 | the reader takes no bare markup, no bare closing mark and no section without an end |
| `CData.NoEarlyClose` | ext/googletest/googletest/src/gtest.cc:4141-4146 | no section closes before its text is over |
| `Base64.TableIsAlphabet` | ext/googletest/googlemock/src/gmock-internal-utils.cc:201-219 | the built table holds the values of the 64 symbols and rejects all other characters |
| `Base64.Base64Unescape` | ext/googletest/googlemock/src/gmock-internal-utils.cc:221-247 | fails with empty output if and only if some character is neither skipped nor a symbol; otherwise the output is the first floor(6k/8) bytes of the k concatenated values |
| `Base64.BlanksAreIgnored` | ext/googletest/googlemock/src/gmock-internal-utils.cc:227-235 | whitespace and padding, given by their codes, may stand anywhere and change nothing; every other character that is no symbol is an error |
| `Base64.HoldsNext` | ext/googletest/googlemock/src/gmock-internal-utils.cc:236-244 | each symbol adds its six bits behind those already held |
| `Base64.EncodingDecodesBack` | ext/googletest/googlemock/src/gmock-internal-utils.cc:221-247 | decoding the symbols of any byte string gives that string |
| `Base64.EncodeIsDecodable` | ext/googletest/googlemock/src/gmock-internal-utils.cc:227-235 | every encoding by section 4 of RFC 4648 with padding is accepted, with the values of its symbols |
| `Base64.EncodeIsPadded` | ext/googletest/googlemock/src/gmock-internal-utils.cc:221-225 | an encoding has four characters for every three bytes begun, with padding at its end alone |
| `WideInteger.LongDivisionStep` | ext/googletest/googletest/src/gtest-printers.cc:306-318 | a round computes exact quotient and remainder by ten of high*2^64+low, and neither 64-bit sum overflows |
| `WideInteger.PrintUint128` | ext/googletest/googletest/src/gtest-printers.cc:289-321 | at most 39 digits, without leading zeros, that read back as the value |
| `WideInteger.PrintDigits` | ext/googletest/googletest/src/gtest-printers.cc:295-320 | the loop writes exactly the digits and stays within the 40-byte buffer |
| `WideInteger.DigitsFit` | ext/googletest/googletest/src/gtest-printers.cc:295-296 | 39 digits are enough |
| `WideInteger.Magnitude` | ext/googletest/googletest/src/gtest-printers.cc:322-328 | negation after the conversion is right for every negative value, the minimum included |
| `WideInteger.PrintInt128` | ext/googletest/googletest/src/gtest-printers.cc:322-329 | the same for signed values, with a minus sign exactly for negative ones |
| `TestScheduling.ShuffleRange` | ext/googletest/googletest/src/gtest-internal-inl.h:302-322 | the result is the Fisher-Yates shuffle for the numbers drawn, one per step and below its width |
| `TestSchedule.ShufflePermutes` | ext/googletest/googletest/src/gtest-internal-inl.h:296-303 | whatever is drawn, the range is permuted and the rest left alone |
| `TestSchedule.EveryOrderIsDrawn` | ext/googletest/googletest/src/gtest-internal-inl.h:312-321 | every order of the range comes from some numbers |
| `TestSchedule.DrawsAreUnique` | ext/googletest/googletest/src/gtest-internal-inl.h:312-321 | different numbers give different orders, so that equally likely numbers give equally likely orders |
| `TestScheduling.UnitTestImpl.constructor` | ext/googletest/googletest/src/gtest.cc:5525 | starts with no suite and last death suite -1 |
| `TestScheduling.UnitTestImpl.GetTestSuite` | ext/googletest/googletest/src/gtest.cc:5700-5732 | finds the suite of that name, or inserts a death suite after the last death suite and appends any other |
| `TestScheduling.TestSuite.AddTestInfo` | ext/googletest/googletest/src/gtest.cc:2979-2982 | appends the test, marks and all, and its index |
| `TestScheduling.UnitTestImpl.AddTestInfo` | ext/googletest/googletest/src/gtest-internal-inl.h:668-689 | the schedule is that after registration of the test, and a suite holds it |
| `TestScheduling.MakeAndRegisterTestInfo` | ext/googletest/googletest/src/gtest.cc:2749-2759 | a new test with no mark set is registered and returned |
| `TestSchedule.DeathSuiteByName` | ext/googletest/googletest/src/gtest.cc:5688-5732 | a suite is a death suite if and only if its name ends in DeathTest or has it right before a slash |
| `TestSchedule.RegistrationOrder` | ext/googletest/googletest/src/gtest.cc:5700-5732 | any list of registrations stores the death suites first, each kind in order of first mention, and in each suite its tests in order |
| `TestSchedule.RegistrationKeepsDeathFirst` | ext/googletest/googletest/src/gtest.cc:5688-5691 | with shuffled suites, registration keeps the death suites first if and only if the suite is known or no death suite, or no other suite runs in the place it takes |
| `TestScheduling.TestSuite.ShuffleTests` | ext/googletest/googletest/src/gtest.cc:3075-3077 | the tests of a suite are shuffled by the numbers drawn |
| `TestScheduling.TestSuite.UnshuffleTests` | ext/googletest/googletest/src/gtest.cc:3080-3084 | the tests are in order again |
| `TestScheduling.UnitTestImpl.ShuffleTests` | ext/googletest/googletest/src/gtest.cc:6213-6225 | exactly the shuffle, for the numbers drawn, of the death suites, the other suites and the tests of each suite |
| `TestSchedule.ShuffleByIsShuffle` | ext/googletest/googletest/src/gtest.cc:6213-6225 | such a shuffle permutes each of the two ranges and the tests within each suite |
| `TestScheduling.UnitTestImpl.UnshuffleTests` | ext/googletest/googletest/src/gtest.cc:6228-6235 | every index is reset |
| `TestSchedule.DeathFirstIffDivided` | ext/googletest/googletest/src/gtest.cc:6214-6219 | no death suite runs after another suite if and only if the first range of the indices holds just the death suites |
| `TestSchedule.RunKeepsDeathFirst` | ext/googletest/googletest/src/gtest.cc:6211-6235 | over every run of registrations, shuffles and unshuffles, names stay unique, the indices a permutation, and death suites first |
| `TestSchedule.UnshuffleRestores` | ext/googletest/googletest/src/gtest.cc:6227-6235 | in every state of every run, unshuffling restores the order of all registrations so far, as if nothing had been shuffled |
| `TestSchedule.UnshuffleUndoesShuffles` | ext/googletest/googletest/src/gtest.cc:6227-6235 | after any shuffles since the last registration, unshuffling gives back the registered state itself |
| `TestSchedule.ShuffleCanMoveSuites` | ext/googletest/googletest/src/gtest.cc:6213-6219 | some shuffle changes the order of the suites if and only if there are two suites of one kind |
| `TestScheduling.EverySuiteIsSeenOnce` | ext/googletest/googletest/src/gtest-internal-inl.h:598-601 | through GetMutableSuiteCase every suite is seen at exactly one place, and nothing outside the range |
| `TestScheduling.DeathSuitesAreSeenFirst` | ext/googletest/googletest/src/gtest-internal-inl.h:598-601 | through GetMutableSuiteCase no death suite is seen after another suite |
| `TestScheduling.AccessorsAgreeUnshuffled` | ext/googletest/googletest/src/gtest-internal-inl.h:586-601 | GetTestSuiteAt gives, for every index, the suite that runs there if and only if the suites are not shuffled |
| `TestScheduling.AccessorsAgreeAt` | ext/googletest/googletest/src/gtest-internal-inl.h:586-601 | at one index it does so if and only if the order at that index is the stored one |
| `TestScheduling.AccessorsDiffer` | ext/googletest/googletest/src/gtest-internal-inl.h:586-601 | with two suites in exchanged order each accessor gives what the other gives at the other index |
| `TestScheduling.GetTestSuiteAtGivesStoredOrder` | ext/googletest/googletest/src/gtest-internal-inl.h:586-589 | in whatever order the suites run, GetTestSuiteAt gives them in the order in which they are stored |
| `TestScheduling.FilterTest` | ext/googletest/googletest/src/gtest.cc:6064-6091 | the four marks of a test follow from the filters, the flag and its rank among the runnable tests; runnable is matching and, unless disabled tests run too, not disabled |
| `TestScheduling.UnitTestImpl.FilterTests` | ext/googletest/googletest/src/gtest.cc:6042-6095 | returns the number of selected tests, sets all four marks of every test, and marks the suites that hold one; the schedule does not change |
| `TestScheduling.MarkedByName` | ext/googletest/googletest/src/gtest.cc:6064-6075 | a test is marked as disabled if and only if the name of its suite or its own starts with DISABLED_ or has it after a slash, and as matching if and only if the filter selects its full name |
| `TestScheduling.RunsWithoutSharding` | ext/googletest/googletest/src/gtest.cc:6077-6091 | without sharding a test is to run if and only if the filter selects its full name and it is not disabled, or disabled tests run too |
| `TestScheduling.RunsOnShard` | ext/googletest/googletest/src/gtest.cc:6077-6091 | on shard s of n a test is to run if and only if it is without sharding and the number of such tests before it leaves remainder s |
| `TestScheduling.ShardByReaction` | ext/googletest/googletest/src/gtest.cc:6042-6048 | shards count only where the protocol is honoured |
| `TestScheduling.MarkedOnHomeShard` | ext/googletest/googletest/src/gtest.cc:6077-6091 | on shard s of n a test is in another shard if and only if its rank does not leave remainder s, and to run if and only if it is runnable and in this shard; a suite is to run if and only if one of its tests is |
| `Sharding.OnExactlyOneShard` | ext/googletest/googletest/src/gtest.cc:6027-6033 | every runnable test is selected on exactly one of n shards, and no other test on any |
| `Sharding.ShardsShareAll` | ext/googletest/googletest/src/gtest.cc:6042-6095 | the counts of the n shards add up to the number of runnable tests and differ by at most one |
| `Sharding.SelectedCount` | ext/googletest/googletest/src/gtest.cc:6042-6095 | how many tests a shard selects depends only on how many are runnable |
| `Sharding.ShouldShard` | ext/googletest/googletest/src/gtest.cc:5969-6008 | sharding is honoured if and only if this is no death-test subprocess and a valid shard of several is named; it is fatal if and only if variables are set that name no valid shard |
| `PrimeTables.OnTheFlyPrimeTable.IsPrime` | ext/googletest/googletest/samples/prime_tables.h:55-64 | true if and only if the number is prime |
| `PrimeTables.PrimeBySmallDivisors` | ext/googletest/googletest/samples/prime_tables.h:58-61 | only divisors up to the square root need a look |
| `PrimeTables.OnTheFlyPrimeTable.GetNextPrime` | ext/googletest/googletest/samples/prime_tables.h:66-72 | the smallest greater prime, and -1 for negative numbers; the open-ended loop ends |
| `PrimeTables.AnswersAtLimits` | ext/googletest/googletest/samples/prime_tables.h:66-72 | the next prime is greater, not the number itself, and the nearest one; for negative numbers the answer is -1 |
| `PrimeTables.PrimeAbove` | ext/googletest/googletest/samples/prime_tables.h:66-72 | Euclid's theorem: above every number there is a prime |
| `PrimeTables.PreCalculatedPrimeTable.constructor` | ext/googletest/googletest/samples/prime_tables.h:80-83 | the table of a capacity of at least 1 marks exactly the primes up to it |
| `PrimeTables.PreCalculatedPrimeTable.CalculatePrimesUpTo` | ext/googletest/googletest/samples/prime_tables.h:99-115 | the odd-stepping sieve marks exactly the primes |
| `PrimeTables.CompositeSkipped` | ext/googletest/googletest/samples/prime_tables.h:103-106 | a number that is crossed out already has no multiple left to cross out |
| `PrimeTables.EvenSkipped` | ext/googletest/googletest/samples/prime_tables.h:103-106 | even candidates after 2 can be passed over |
| `PrimeTables.PreCalculatedPrimeTable.IsPrime` | ext/googletest/googletest/samples/prime_tables.h:86-88 | true if and only if the number is a prime within the capacity |
| `PrimeTables.PreCalculatedPrimeTable.GetNextPrime` | ext/googletest/googletest/samples/prime_tables.h:90-96 | the smallest greater prime, or -1 if none is within the capacity |
| `PrimeTables.HybridPrimeTable.constructor` | ext/googletest/googletest/samples/sample8_unittest.cc:48-53 | holds a sieve of that capacity unless told not to |
| `PrimeTables.HybridPrimeTable.IsPrime` | ext/googletest/googletest/samples/sample8_unittest.cc:59-64 | agrees with trial division for every number |
| `PrimeTables.HybridPrimeTable.GetNextPrime` | ext/googletest/googletest/samples/sample8_unittest.cc:66-72 | agrees with trial division if and only if not asked for -1 with a sieve that holds the prime 2; there it answers 2 |

## Left out

- EditDistance.ResultOptimality: in terms of cells that fall through it is no equivalence, and none is possible on the way back alone: `EditDistance.OffPathCanBeHarmless` and `EditDistance.OffPathCanHarm`. The equivalence for the whole result is `EditDistance.ResultOptimalByDistance`.
- EditDistance.CalculateOptimalEdits: does not model rounding of the floating-point costs; they are exact integers.
- Filters.UnitTestFilter.constructor: does not fix the order in which the partition leaves the glob patterns, on which no answer depends.
- SimpleRegex.MatchRepetitionAndRegexAtHead: takes texts shorter than the largest index, as the source does; the POSIX engine that most platforms use instead is not part of this model.
- Base64.Base64Unescape: characters are unsigned; where char is signed in the source, values from 128 up are negative indices outside the table.
- Utf8.WideStringToUtf8: the conversion of a signed wide character is not modelled.
- Expectations.ExplainMatchResult: models which reason and which prerequisites are named, not the wording.
- Expectations.GetActionForArguments: actions are positions in the list of those given; the wording of the warning when they run out, and the one about an action count that does not fit the call limits, are left out.
- PrimeTables.PreCalculatedPrimeTable.GetNextPrime: takes numbers from -1, because smaller ones read before the array in the source; likewise a capacity of at least 1. Overflow of 32-bit numbers is not modelled.
- TestScheduling.UnitTestImpl.FilterTests: a test is a value owned by its suite, which holds it in a list of its own; references to a test from elsewhere are not modelled. The environment variables are parameters, and a shard must be valid when sharding is honoured, which `Sharding.ShouldShard` decides before.
- TestScheduling.UnitTestImpl.AddTestInfo: does not record the working directory that death tests use.
- TestScheduling.MakeAndRegisterTestInfo: a test has no type or value parameter, code location, fixture or factory; nothing that is modelled depends on them.
- The generator behind random numbers and its seeds; only that its values are below their range is used.
- User-defined cardinalities and the warnings about over- and under-specified calls.
- Failure messages and listeners of the matchers; `MatchMatrix::Randomize` and `MatchMatrix::DebugString`.
- Running tests, results, listeners, reports in text, XML and JSON other than CDATA sections, and the filter for characters that XML does not allow.
- Death tests, stream capture, threads, files and flags parsing.
- The printers for characters, floating-point numbers and containers, and literals of wide characters.
- `tools/cli`, `tools/legacy` and the scripts: calls into libraries whose behaviour is not shown.
