/** Test filters: colon-separated pattern lists, and a positive part with an optional negative part. */
module Filters {
  import opened Glob

  // ----- Splitting -----

  /** The first position at or after the given one that holds the delimiter, or the length. */
  method Find(s: string, d: char, from: nat) returns (i: nat)
    requires from <= |s|
    ensures from <= i <= |s| && d !in s[from..i] && (i < |s| ==> s[i] == d)
  {
    i := from;
    while i < |s| && s[i] != d
      invariant from <= i <= |s| && d !in s[from..i]
    {
      i := i + 1;
    }
  }

  ghost function Join(parts: seq<string>, d: char): string
    requires parts != []
  {
    if |parts| == 1 then parts[0] else parts[0] + [d] + Join(parts[1..], d)
  }

  /** The parts of a text between its delimiters. */
  ghost predicate IsSplit(s: string, d: char, parts: seq<string>) {
    parts != [] && Join(parts, d) == s && forall i :: 0 <= i < |parts| ==> d !in parts[i]
  }

  lemma {:induction false} JoinAppend(a: seq<string>, b: seq<string>, d: char)
    requires a != [] && b != []
    ensures Join(a + b, d) == Join(a, d) + [d] + Join(b, d)
  {
    if |a| == 1 {
      assert (a + b)[1..] == b;
    } else {
      assert (a + b)[1..] == a[1..] + b;
      JoinAppend(a[1..], b, d);
      assert Join(a + b, d) == a[0] + [d] + (Join(a[1..], d) + [d] + Join(b, d));
    }
  }

  ghost predicate FirstAt(s: string, d: char, i: nat) {
    i < |s| && s[i] == d && d !in s[..i]
  }

  lemma FirstIsUnique(s: string, d: char, i: nat, j: nat)
    requires FirstAt(s, d, i) && FirstAt(s, d, j)
    ensures i == j
  {
    assert s[..j][..if i < j then i else j] == s[..i][..if i < j then i else j];
  }

  /** A text has only one split. */
  lemma {:induction false} SplitUnique(s: string, d: char, a: seq<string>, b: seq<string>)
    requires IsSplit(s, d, a) && IsSplit(s, d, b)
    ensures a == b
    decreases |a|
  {
    HeadOfSplit(s, d, a);
    HeadOfSplit(s, d, b);
    if |a| > 1 && |b| > 1 {
      FirstIsUnique(s, d, |a[0]|, |b[0]|);
      SplitUnique(s[|a[0]| + 1..], d, a[1..], b[1..]);
      assert a == [a[0]] + a[1..] && b == [b[0]] + b[1..];
    }
  }

  lemma HeadOfSplit(s: string, d: char, a: seq<string>)
    requires IsSplit(s, d, a)
    ensures if |a| == 1 then s == a[0] && d !in s
            else FirstAt(s, d, |a[0]|) && s[..|a[0]|] == a[0] && IsSplit(s[|a[0]| + 1..], d, a[1..])
  {
    if |a| > 1 {
      assert s == a[0] + [d] + Join(a[1..], d);
      assert s[|a[0]| + 1..] == Join(a[1..], d);
    }
  }

  method SplitString(s: string, d: char) returns (parsed: seq<string>)
    ensures IsSplit(s, d, parsed)
  {
    parsed := [];
    var pos := 0;
    while true
      invariant 0 <= pos <= |s|
      invariant forall i :: 0 <= i < |parsed| ==> d !in parsed[i]
      invariant if parsed == [] then pos == 0 else Join(parsed, d) + [d] == s[..pos]
      decreases |s| - pos
    {
      var colon := Find(s, d, pos);
      var part := s[pos..colon];
      if parsed != [] {
        JoinAppend(parsed, [part], d);
      }
      assert Join(parsed + [part], d) == s[..colon];
      parsed := parsed + [part];
      if colon == |s| {
        assert s[..colon] == s;
        return;
      }
      pos := colon + 1;
      assert s[..pos] == s[..colon] + [d];
    }
  }

  // ----- One list of patterns -----

  ghost predicate AnyMatches(patterns: seq<string>, name: string) {
    exists i :: 0 <= i < |patterns| && Matches(patterns[i], name)
  }

  lemma AnyMatchesAppend(patterns: seq<string>, pattern: string, name: string)
    ensures AnyMatches(patterns + [pattern], name) <==> AnyMatches(patterns, name) || Matches(pattern, name)
  {
    var all := patterns + [pattern];
    assert all[|patterns|] == pattern;
    if AnyMatches(patterns, name) {
      var i :| 0 <= i < |patterns| && Matches(patterns[i], name);
      assert all[i] == patterns[i];
    }
  }

  /** The name is in the language of one of the colon-separated patterns. */
  ghost predicate MatchesSome(filter: string, name: string) {
    exists parts :: IsSplit(filter, ':', parts) && AnyMatches(parts, name)
  }

  predicate IsGlobPattern(pattern: string) {
    '?' in pattern || '*' in pattern
  }

  /** Looking an ordinary pattern up among exact names decides its meaning. */
  lemma {:induction false} OrdinaryPatternMatchesItself(pattern: string, name: string)
    requires !IsGlobPattern(pattern)
    ensures Matches(pattern, name) <==> pattern == name
  {
    if pattern != "" && name != "" {
      OrdinaryPatternMatchesItself(pattern[1..], name[1..]);
      assert pattern == [pattern[0]] + pattern[1..] && name == [name[0]] + name[1..];
    }
  }

  class UnitTestFilter {
    const globPatterns: seq<string>
    const exactMatchPatterns: set<string>

    ghost predicate Accepts(name: string) {
      name in exactMatchPatterns || AnyMatches(globPatterns, name)
    }

    /** The default filter matches nothing. */
    constructor Nothing()
      ensures forall name :: !Accepts(name)
    {
      globPatterns, exactMatchPatterns := [], {};
    }

    constructor (filter: string)
      ensures forall name :: Accepts(name) <==> MatchesSome(filter, name)
    {
      var all := SplitString(filter, ':');
      var globs: seq<string>, exact: set<string> := [], {};
      for k := 0 to |all|
        invariant forall name :: name in exact || AnyMatches(globs, name) <==> AnyMatches(all[..k], name)
      {
        assert all[..k + 1] == all[..k] + [all[k]];
        forall name
          ensures AnyMatches(all[..k + 1], name) <==> AnyMatches(all[..k], name) || Matches(all[k], name)
          ensures AnyMatches(globs + [all[k]], name) <==> AnyMatches(globs, name) || Matches(all[k], name)
          ensures IsGlobPattern(all[k]) || (Matches(all[k], name) <==> all[k] == name)
        {
          AnyMatchesAppend(all[..k], all[k], name);
          AnyMatchesAppend(globs, all[k], name);
          if !IsGlobPattern(all[k]) {
            OrdinaryPatternMatchesItself(all[k], name);
          }
        }
        if IsGlobPattern(all[k]) {
          globs := globs + [all[k]];
        } else {
          exact := exact + {all[k]};
        }
      }
      assert all[..|all|] == all;
      globPatterns, exactMatchPatterns := globs, exact;
      new;
      forall name
        ensures MatchesSome(filter, name) <==> AnyMatches(all, name)
      {
        SomeOfSplit(filter, all, name);
      }
    }

    method MatchesName(name: string) returns (ok: bool)
      ensures ok <==> Accepts(name)
    {
      if name in exactMatchPatterns {
        return true;
      }
      for k := 0 to |globPatterns|
        invariant forall i :: 0 <= i < k ==> !Matches(globPatterns[i], name)
      {
        var hit, _ := PatternMatchesString(name, globPatterns[k]);
        if hit {
          return true;
        }
      }
      return false;
    }
  }

  lemma SomeOfSplit(filter: string, parts: seq<string>, name: string)
    requires IsSplit(filter, ':', parts)
    ensures MatchesSome(filter, name) <==> AnyMatches(parts, name)
  {
    if MatchesSome(filter, name) {
      var other :| IsSplit(filter, ':', other) && AnyMatches(other, name);
      SplitUnique(filter, ':', parts, other);
    }
  }

  lemma {:induction false} SplitExists(s: string, d: char) returns (parts: seq<string>)
    ensures IsSplit(s, d, parts)
  {
    if s == "" {
      parts := [""];
    } else {
      var rest := SplitExists(s[1..], d);
      if s[0] == d {
        parts := [""] + rest;
        assert parts[1..] == rest && s == "" + [d] + s[1..];
      } else {
        parts := [[s[0]] + rest[0]] + rest[1..];
        assert |rest| > 1 ==> parts[1..] == rest[1..];
        assert s == [s[0]] + s[1..];
      }
    }
  }

  /** A list of patterns: the first one, or one of those after the colon. */
  lemma ListMeans(first: string, rest: string, name: string)
    requires ':' !in first
    ensures MatchesSome(first, name) <==> Matches(first, name)
    ensures MatchesSome(first + ":" + rest, name) <==> Matches(first, name) || MatchesSome(rest, name)
  {
    var parts := SplitExists(rest, ':');
    var all := [first] + parts;
    assert all[1..] == parts && Join([first], ':') == first;
    SomeOfSplit(first, [first], name);
    SomeOfSplit(rest, parts, name);
    SomeOfSplit(first + ":" + rest, all, name);
    AnyMatchesFirst(first, parts, name);
    AnyMatchesFirst(first, [], name);
    assert [first] + [] == [first];
  }

  lemma AnyMatchesFirst(first: string, parts: seq<string>, name: string)
    ensures AnyMatches([first] + parts, name) <==> Matches(first, name) || AnyMatches(parts, name)
  {
    var all := [first] + parts;
    if i :| 0 <= i < |parts| && Matches(parts[i], name) {
      assert all[i + 1] == parts[i];
    }
    if Matches(first, name) {
      assert Matches(all[0], name);
    }
    if i :| 0 <= i < |all| && Matches(all[i], name) {
      assert i > 0 ==> parts[i - 1] == all[i];
    }
  }

  // ----- What the built-in filters mean -----

  const DISABLE_TEST_FILTER := "DISABLED_*:*/DISABLED_*"
  const DEATH_TEST_SUITE_FILTER := "*DeathTest:*DeathTest/*"

  ghost predicate HasAt(name: string, k: nat, literal: string) {
    k <= |name| && literal <= name[k..]
  }

  ghost predicate Contains(name: string, literal: string) {
    exists k :: 0 <= k <= |name| && HasAt(name, k, literal)
  }

  ghost predicate EndsWith(name: string, literal: string) {
    exists k :: 0 <= k <= |name| && name[k..] == literal
  }

  lemma {:induction false} LiteralMatches(literal: string, rest: string, name: string)
    requires !IsGlobPattern(literal)
    ensures Matches(literal + rest, name) <==> literal <= name && Matches(rest, name[|literal|..])
  {
    if literal == "" {
      assert literal + rest == rest && name[0..] == name;
    } else {
      assert (literal + rest)[1..] == literal[1..] + rest;
      if name != "" {
        LiteralMatches(literal[1..], rest, name[1..]);
        assert literal <= name <==> literal[0] == name[0] && literal[1..] <= name[1..] by {
          assert literal == [literal[0]] + literal[1..] && name == [name[0]] + name[1..];
        }
        if |literal| <= |name| {
          assert name[1..][|literal| - 1..] == name[|literal|..];
        }
      }
    }
  }

  lemma LiteralThenStar(literal: string, name: string)
    requires !IsGlobPattern(literal)
    ensures Matches(literal + "*", name) <==> literal <= name
  {
    LiteralMatches(literal, "*", name);
    if literal <= name {
      StarMatchesAll(name[|literal|..]);
    }
  }

  lemma StarLiteralStar(literal: string, name: string)
    requires !IsGlobPattern(literal)
    ensures Matches("*" + literal + "*", name) <==> Contains(name, literal)
  {
    assert ("*" + literal + "*")[1..] == literal + "*";
    forall k | 0 <= k <= |name|
      ensures Matches(literal + "*", name[k..]) <==> HasAt(name, k, literal)
    {
      LiteralThenStar(literal, name[k..]);
    }
  }

  lemma StarLiteral(literal: string, name: string)
    requires !IsGlobPattern(literal)
    ensures Matches("*" + literal, name) <==> EndsWith(name, literal)
  {
    assert ("*" + literal)[1..] == literal;
    forall k | 0 <= k <= |name|
      ensures Matches(literal, name[k..]) <==> name[k..] == literal
    {
      OrdinaryPatternMatchesItself(literal, name[k..]);
    }
  }

  lemma MatchesEither(a: string, b: string, name: string)
    requires ':' !in a && ':' !in b
    ensures MatchesSome(a + ":" + b, name) <==> Matches(a, name) || Matches(b, name)
  {
    var parts := [a, b];
    assert parts[1..] == [b] && Join([b], ':') == b;
    SomeOfSplit(a + ":" + b, parts, name);
    AnyMatchesAppend([a], b, name);
    assert [a] + [b] == parts;
    AnyMatchesAppend([], a, name);
    assert [] + [a] == [a];
  }

  lemma BuiltInFilterParts()
    ensures DISABLE_TEST_FILTER == "DISABLED_" + "*" + ":" + ("*" + "/DISABLED_" + "*")
    ensures DEATH_TEST_SUITE_FILTER == "*" + "DeathTest" + ":" + ("*" + "DeathTest/" + "*")
  {
  }

  /** The disable filter: a name that starts with DISABLED_, or has it right after a slash. */
  lemma DisableFilterMeaning(name: string)
    ensures MatchesSome(DISABLE_TEST_FILTER, name) <==> "DISABLED_" <= name || Contains(name, "/DISABLED_")
  {
    BuiltInFilterParts();
    MatchesEither("DISABLED_" + "*", "*" + "/DISABLED_" + "*", name);
    LiteralThenStar("DISABLED_", name);
    StarLiteralStar("/DISABLED_", name);
  }

  /** The death-test filter: a suite name that ends in DeathTest, or has it right before a slash. */
  lemma DeathTestFilterMeaning(name: string)
    ensures MatchesSome(DEATH_TEST_SUITE_FILTER, name) <==> EndsWith(name, "DeathTest") || Contains(name, "DeathTest/")
  {
    BuiltInFilterParts();
    MatchesEither("*" + "DeathTest", "*" + "DeathTest/" + "*", name);
    StarLiteral("DeathTest", name);
    StarLiteralStar("DeathTest/", name);
  }

  // ----- Positive and negative lists -----

  const UNIVERSAL_FILTER := "*"

  /** What a whole filter selects: everything up to the first '-' is the positive list, read as "*" if it
      is empty, and everything after it, further dashes included, is the negative list. */
  ghost predicate Selects(filter: string, name: string) {
    if '-' !in filter then
      MatchesSome(filter, name)
    else
      exists dash :: FirstAt(filter, '-', dash) && SelectsAround(filter, dash, name)
  }

  ghost predicate SelectsAround(filter: string, dash: nat, name: string)
    requires dash < |filter|
  {
    && MatchesSome(if dash == 0 then UNIVERSAL_FILTER else filter[..dash], name)
    && !MatchesSome(filter[dash + 1..], name)
  }

  lemma SelectsAtFirstDash(filter: string, dash: nat, name: string)
    requires FirstAt(filter, '-', dash)
    ensures Selects(filter, name) <==> SelectsAround(filter, dash, name)
  {
    if Selects(filter, name) {
      var other :| FirstAt(filter, '-', other) && SelectsAround(filter, other, name);
      FirstIsUnique(filter, '-', dash, other);
    }
  }

  /** Without a dash a filter is a list of patterns; the list after the first dash excludes; and with nothing before
      the dash all other names are selected. */
  lemma SelectsMeans(positive: string, negative: string, name: string)
    requires '-' !in positive
    ensures Selects(positive, name) <==> MatchesSome(positive, name)
    ensures Selects("-" + negative, name) <==> !MatchesSome(negative, name)
    ensures positive != "" ==>
      (Selects(positive + "-" + negative, name) <==> MatchesSome(positive, name) && !MatchesSome(negative, name))
  {
    var only, both := "-" + negative, positive + "-" + negative;
    assert FirstAt(only, '-', 0) && only[1..] == negative;
    SelectsAtFirstDash(only, 0, name);
    ListMeans("*", "", name);
    StarMatchesAll(name);
    assert both[..|positive|] == positive && both[|positive| + 1..] == negative;
    assert FirstAt(both, '-', |positive|);
    SelectsAtFirstDash(both, |positive|, name);
  }

  class PositiveAndNegativeUnitTestFilter {
    const positiveFilter: UnitTestFilter
    const negativeFilter: UnitTestFilter

    ghost predicate Accepts(name: string) {
      positiveFilter.Accepts(name) && !negativeFilter.Accepts(name)
    }

    constructor (filter: string)
      ensures forall name :: Accepts(name) <==> Selects(filter, name)
    {
      var parts := SplitString(filter, '-');
      HeadOfSplit(filter, '-', parts);
      if |parts| > 1 {
        var positive := if parts[0] == "" then UNIVERSAL_FILTER else parts[0];
        positiveFilter := new UnitTestFilter(positive);
        var negative := parts[1];
        var i := 2;
        while i < |parts|
          invariant 2 <= i <= |parts| && negative == Join(parts[1..i], '-')
          modifies {}
        {
          assert parts[1..i + 1] == parts[1..i] + [parts[i]];
          JoinAppend(parts[1..i], [parts[i]], '-');
          negative := negative + ['-'] + parts[i];
          i := i + 1;
        }
        assert parts[1..i] == parts[1..];
        negativeFilter := new UnitTestFilter(negative);
        assert negative == filter[|parts[0]| + 1..];
      } else {
        positiveFilter := new UnitTestFilter(parts[0]);
        negativeFilter := new UnitTestFilter.Nothing();
      }
      new;
      forall name
        ensures Accepts(name) <==> Selects(filter, name)
      {
        if |parts| > 1 {
          SelectsAtFirstDash(filter, |parts[0]|, name);
        }
      }
    }

    method MatchesName(name: string) returns (ok: bool)
      ensures ok <==> Accepts(name)
    {
      ok := positiveFilter.MatchesName(name);
      if ok {
        var excluded := negativeFilter.MatchesName(name);
        ok := !excluded;
      }
    }

    method MatchesTest(suiteName: string, testName: string) returns (ok: bool)
      ensures ok <==> Accepts(suiteName + "." + testName)
    {
      ok := MatchesName(suiteName + "." + testName);
    }
  }

  method FilterMatchesTest(filter: string, suiteName: string, testName: string) returns (ok: bool)
    ensures ok <==> Selects(filter, suiteName + "." + testName)
  {
    var f := new PositiveAndNegativeUnitTestFilter(filter);
    ok := f.MatchesTest(suiteName, testName);
  }
}
