/** The simple regular expressions: a validator and a back-tracking matcher that work on raw pattern
    text, related to a syntax tree and its language. C strings hold no NUL before their end. */
module SimpleRegex {
  import opened Decimal
  import opened Text

  const SIZE_MAX := 0xFFFF_FFFF_FFFF_FFFF

  // ----- Characters -----

  predicate IsInSet(c: char, s: string) {
    c != '\0' && c in s
  }

  predicate IsAsciiPunct(c: char) {
    IsInSet(c, "^-!\"#$%&'()*+,./:;<=>?@[\\]_`{|}~")
  }

  predicate IsRepeat(c: char) {
    IsInSet(c, "?*+")
  }

  predicate IsAsciiWhiteSpace(c: char) {
    IsInSet(c, [' ', FORM_FEED, '\n', '\r', '\t', VERTICAL_TAB])
  }

  predicate IsAsciiWordChar(c: char) {
    'a' <= c <= 'z' || 'A' <= c <= 'Z' || '0' <= c <= '9' || c == '_'
  }

  predicate IsValidEscape(c: char) {
    IsAsciiPunct(c) || IsInSet(c, "dDfnrsStvwW")
  }

  predicate AtomMatchesChar(escaped: bool, p: char, c: char) {
    if escaped then
      match p
      case 'd' => IsDigit(c)
      case 'D' => !IsDigit(c)
      case 'f' => c == FORM_FEED
      case 'n' => c == '\n'
      case 'r' => c == '\r'
      case 's' => IsAsciiWhiteSpace(c)
      case 'S' => !IsAsciiWhiteSpace(c)
      case 't' => c == '\t'
      case 'v' => c == VERTICAL_TAB
      case 'w' => IsAsciiWordChar(c)
      case 'W' => !IsAsciiWordChar(c)
      case _ => IsAsciiPunct(p) && p == c
    else
      (p == '.' && c != '\n') || p == c
  }

  // ----- Syntax trees -----

  datatype Repetition = Once | Optional | Star | Plus

  datatype Item = Item(escaped: bool, c: char, repetition: Repetition)

  datatype Body = Body(items: seq<Item>, endAnchor: bool)

  datatype Regex = Regex(startAnchor: bool, body: Body)

  ghost predicate IsPlain(c: char) {
    c != '\0' && c !in "\\^$()[]{}|?*+"
  }

  ghost predicate ValidItem(item: Item) {
    if item.escaped then IsValidEscape(item.c) else IsPlain(item.c)
  }

  ghost predicate ValidBody(body: Body) {
    forall i :: 0 <= i < |body.items| ==> ValidItem(body.items[i])
  }

  ghost function PrintRepetition(repetition: Repetition): string {
    match repetition
    case Once => ""
    case Optional => "?"
    case Star => "*"
    case Plus => "+"
  }

  ghost function PrintItem(item: Item): string {
    (if item.escaped then ['\\', item.c] else [item.c]) + PrintRepetition(item.repetition)
  }

  ghost function PrintBody(body: Body): string
    decreases |body.items|
  {
    if body.items == [] then
      if body.endAnchor then "$" else ""
    else
      PrintItem(body.items[0]) + PrintBody(Body(body.items[1..], body.endAnchor))
  }

  ghost function Print(re: Regex): string {
    (if re.startAnchor then "^" else "") + PrintBody(re.body)
  }

  // ----- The language of a tree -----

  ghost predicate CountFits(repetition: Repetition, n: nat) {
    match repetition
    case Once => n == 1
    case Optional => n <= 1
    case Star => true
    case Plus => n >= 1
  }

  ghost predicate AllMatch(item: Item, s: string) {
    forall i :: 0 <= i < |s| ==> AtomMatchesChar(item.escaped, item.c, s[i])
  }

  /** The text is a concatenation of one piece for each item. */
  ghost predicate InLanguage(items: seq<Item>, s: string) {
    if items == [] then s == ""
    else
      exists n ::
        && 0 <= n <= |s| && CountFits(items[0].repetition, n) && AllMatch(items[0], s[..n])
        && InLanguage(items[1..], s[n..])
  }

  /** Some prefix is in the language, the whole text if the end is anchored. */
  ghost predicate MatchesAtHead(body: Body, s: string) {
    exists n :: 0 <= n <= |s| && InLanguage(body.items, s[..n]) && (body.endAnchor ==> n == |s|)
  }

  /** Some substring is in the language, respecting the anchors. */
  ghost predicate MatchesAnywhere(re: Regex, s: string) {
    exists i :: 0 <= i <= |s| && (re.startAnchor ==> i == 0) && MatchesAtHead(re.body, s[i..])
  }

  // ----- Parsing -----

  ghost function RepetitionOf(c: char): Repetition
    requires IsRepeat(c)
  {
    if c == '?' then Optional else if c == '*' then Star else Plus
  }

  /** The item at the head of a text and the number of characters it takes. */
  ghost function ParseItem(s: string): Option<(Item, nat)> {
    if s == "" then None
    else
      var escaped := s[0] == '\\';
      var at := if escaped then 1 else 0;
      if at >= |s| || !ValidItem(Item(escaped, s[at], Once)) then None
      else if at + 1 < |s| && IsRepeat(s[at + 1]) then Some((Item(escaped, s[at], RepetitionOf(s[at + 1])), at + 2))
      else Some((Item(escaped, s[at], Once), at + 1))
  }

  ghost function ParseBody(s: string): Option<Body> {
    if s == "" then Some(Body([], false))
    else if s == "$" then Some(Body([], true))
    else
      match ParseItem(s)
      case None => None
      case Some((item, n)) =>
        match ParseBody(s[n..])
        case None => None
        case Some(rest) => Some(Body([item] + rest.items, rest.endAnchor))
  }

  ghost function Parse(s: string): Option<Regex> {
    var start := s != "" && s[0] == '^';
    match ParseBody(if start then s[1..] else s)
    case None => None
    case Some(body) => Some(Regex(start, body))
  }

  lemma ParseItemSound(s: string)
    requires ParseItem(s).Some?
    ensures var (item, n) := ParseItem(s).value; 0 < n <= |s| && ValidItem(item) && PrintItem(item) == s[..n]
  {
  }

  lemma {:induction false} ParseBodySound(s: string)
    requires ParseBody(s).Some?
    ensures ValidBody(ParseBody(s).value) && PrintBody(ParseBody(s).value) == s
  {
    if s != "" && s != "$" {
      var (item, n) := ParseItem(s).value;
      ParseItemSound(s);
      ParseBodySound(s[n..]);
      var rest := ParseBody(s[n..]).value;
      assert ([item] + rest.items)[1..] == rest.items;
      assert s == s[..n] + s[n..];
    }
  }

  /** An item is read back from its text whatever valid text follows it. */
  lemma ParsePrintItem(item: Item, rest: string)
    requires ValidItem(item) && (rest != "" ==> !IsRepeat(rest[0]))
    ensures ParseItem(PrintItem(item) + rest) == Some((item, |PrintItem(item)|))
    ensures PrintItem(item) + rest != "" && PrintItem(item) + rest != "$"
    ensures !IsRepeat((PrintItem(item) + rest)[0])
    ensures (PrintItem(item) + rest)[0] != '^'
  {
  }

  lemma {:induction false} ParsePrintBody(body: Body)
    requires ValidBody(body)
    ensures ParseBody(PrintBody(body)) == Some(body)
    decreases |body.items|
  {
    if body.items != [] {
      var item, rest := body.items[0], Body(body.items[1..], body.endAnchor);
      ParsePrintBody(rest);
      ParsePrintItem(item, PrintBody(rest));
      ParseFirst(PrintItem(item), item, PrintBody(rest), rest);
      FirstApart(body.items);
    }
  }

  lemma FirstApart(items: seq<Item>)
    requires items != []
    ensures [items[0]] + items[1..] == items
  {
  }

  lemma PrintBodyStart(body: Body)
    requires ValidBody(body)
    ensures PrintBody(body) != "" ==> !IsRepeat(PrintBody(body)[0]) && PrintBody(body)[0] != '^'
  {
    if body.items != [] {
      ParsePrintItem(body.items[0], PrintBody(Body(body.items[1..], body.endAnchor)));
    }
  }

  lemma ParseFirst(text: string, item: Item, tail: string, rest: Body)
    requires ParseItem(text + tail) == Some((item, |text|)) && ParseBody(tail) == Some(rest)
    requires text + tail != "" && text + tail != "$"
    ensures ParseBody(text + tail) == Some(Body([item] + rest.items, rest.endAnchor))
  {
    assert (text + tail)[|text|..] == tail;
  }

  /** Printing and parsing are inverse to each other, so a valid text has exactly one tree. */
  lemma ParseIsInverse(s: string, re: Regex)
    ensures Parse(s) == Some(re) <==> ValidBody(re.body) && Print(re) == s
  {
    if Parse(s) == Some(re) {
      ParseBodySound(if re.startAnchor then s[1..] else s);
    }
    if ValidBody(re.body) && Print(re) == s {
      ParsePrintBody(re.body);
      PrintBodyStart(re.body);
      assert if re.startAnchor then s[1..] == PrintBody(re.body) else s == PrintBody(re.body);
    }
  }

  lemma ParsesIfPrinted(s: string)
    ensures Parse(s).Some? <==> exists re: Regex :: ValidBody(re.body) && Print(re) == s
  {
    if Parse(s).Some? {
      ParseIsInverse(s, Parse(s).value);
    }
    forall re: Regex | ValidBody(re.body) && Print(re) == s ensures Parse(s).Some? {
      ParseIsInverse(s, re);
    }
  }

  // ----- Validation -----

  /** What the validator accepts, character by character. */
  ghost predicate Accepts(s: string, atStart: bool, prevRepeatable: bool) {
    if s == "" then true
    else if s[0] == '\\' then |s| > 1 && IsValidEscape(s[1]) && Accepts(s[2..], false, true)
    else AcceptsChar(s, atStart, prevRepeatable) && Accepts(s[1..], false, !IsInSet(s[0], "^$?*+"))
  }

  ghost predicate AcceptsChar(s: string, atStart: bool, prevRepeatable: bool)
    requires s != ""
  {
    && (s[0] == '^' ==> atStart) && (s[0] == '$' ==> |s| == 1)
    && !IsInSet(s[0], "()[]{}|") && (IsRepeat(s[0]) ==> prevRepeatable)
  }

  /** What follows an atom once its repetition, if any, is passed over. */
  ghost function AfterRepetition(s: string): string {
    if s != "" && IsRepeat(s[0]) then s[1..] else s
  }

  lemma AcceptsAfterAtom(s: string)
    ensures Accepts(s, false, true) <==> Accepts(AfterRepetition(s), false, false)
  {
  }

  lemma {:induction false} AcceptsIsParseBody(s: string)
    requires NulFree(s)
    ensures Accepts(s, false, false) <==> ParseBody(s).Some?
    decreases |s|
  {
    if s != "" && s != "$" {
      var escaped := s[0] == '\\';
      var at := if escaped then 1 else 0;
      if at < |s| {
        var rest := s[at + 1..];
        assert Accepts(s, false, false) <==> ValidItem(Item(escaped, s[at], Once)) && Accepts(rest, false, true);
        AcceptsAfterAtom(rest);
        AcceptsIsParseBody(AfterRepetition(rest));
        if ParseItem(s).Some? {
          assert s[ParseItem(s).value.1..] == AfterRepetition(rest);
        }
      }
    }
  }

  lemma AcceptsIsParse(s: string)
    requires NulFree(s)
    ensures Accepts(s, true, false) <==> Parse(s).Some?
  {
    AcceptsIsParseBody(if s != "" && s[0] == '^' then s[1..] else s);
  }

  /** One step of the validator, in terms of positions. */
  lemma AcceptsEscape(s: string, i: nat, prevRepeatable: bool)
    requires i < |s| && s[i] == '\\'
    ensures Accepts(s[i..], i == 0, prevRepeatable) <==>
            i + 1 < |s| && IsValidEscape(s[i + 1]) && Accepts(s[i + 2..], false, true)
  {
    var rest := s[i..];
    assert i + 1 < |s| ==> rest[2..] == s[i + 2..];
  }

  /** A character that is not part of an escape stands where it may. */
  ghost predicate FitsAt(s: string, i: nat, prevRepeatable: bool)
    requires i < |s|
  {
    && (s[i] == '^' ==> i == 0) && (s[i] == '$' ==> i + 1 == |s|)
    && !IsInSet(s[i], "()[]{}|") && (IsRepeat(s[i]) ==> prevRepeatable)
  }

  lemma AcceptsPlain(s: string, i: nat, prevRepeatable: bool)
    requires i < |s| && s[i] != '\\'
    ensures Accepts(s[i..], i == 0, prevRepeatable) <==>
            FitsAt(s, i, prevRepeatable) && Accepts(s[i + 1..], false, !IsInSet(s[i], "^$?*+"))
  {
    var rest := s[i..];
    assert rest[1..] == s[i + 1..];
  }

  method ValidateChar(s: string, i: nat, prevRepeatable: bool) returns (fits: bool)
    requires i < |s|
    ensures fits <==> FitsAt(s, i, prevRepeatable)
  {
    var ch := s[i];
    if ch == '^' && i > 0 {
      return false;
    } else if ch == '$' && i + 1 < |s| {
      return false;
    } else if IsInSet(ch, "()[]{}|") {
      return false;
    } else if IsRepeat(ch) && !prevRepeatable {
      return false;
    }
    return true;
  }

  method ValidateRegex(regex: Option<string>) returns (isValid: bool)
    requires regex.Some? ==> NulFree(regex.value)
    ensures isValid <==> regex.Some? && Parse(regex.value).Some?
  {
    if regex.None? {
      return false;
    }
    var s := regex.value;
    AcceptsIsParse(s);
    ghost var accepted := Accepts(s, true, false);
    isValid := true;
    var prevRepeatable := false;
    var i := 0;
    assert s[0..] == s;
    while i < |s|
      invariant 0 <= i <= |s|
      invariant isValid && Accepts(s[i..], i == 0, prevRepeatable) <==> accepted
    {
      if s[i] == '\\' {
        AcceptsEscape(s, i, prevRepeatable);
        i := i + 1;
        if i == |s| {
          return false;
        }
        if !IsValidEscape(s[i]) {
          isValid := false;
        }
        prevRepeatable := true;
      } else {
        AcceptsPlain(s, i, prevRepeatable);
        var fits := ValidateChar(s, i, prevRepeatable);
        if !fits {
          isValid := false;
        }
        prevRepeatable := !IsInSet(s[i], "^$?*+");
      }
      i := i + 1;
    }
  }

  // ----- Matching -----

  /** The first item takes n characters and the rest of the body matches what follows. */
  ghost predicate SplitsAt(item: Item, rest: Body, s: string, n: nat) {
    n <= |s| && CountFits(item.repetition, n) && AllMatch(item, s[..n]) && MatchesAtHead(rest, s[n..])
  }

  lemma HeadGivesSplit(item: Item, rest: Body, s: string)
    requires MatchesAtHead(Body([item] + rest.items, rest.endAnchor), s)
    ensures exists n: nat :: SplitsAt(item, rest, s, n)
  {
    var items := [item] + rest.items;
    var k :| 0 <= k <= |s| && InLanguage(items, s[..k]) && (rest.endAnchor ==> k == |s|);
    assert items[1..] == rest.items;
    var n: nat :| n <= k && CountFits(item.repetition, n) && AllMatch(item, s[..k][..n])
                  && InLanguage(rest.items, s[..k][n..]);
    assert s[..k][..n] == s[..n] && s[..k][n..] == s[n..][..k - n];
    assert SplitsAt(item, rest, s, n);
  }

  lemma SplitGivesHead(item: Item, rest: Body, s: string, n: nat)
    requires SplitsAt(item, rest, s, n)
    ensures MatchesAtHead(Body([item] + rest.items, rest.endAnchor), s)
  {
    var items := [item] + rest.items;
    var k :| 0 <= k <= |s[n..]| && InLanguage(rest.items, s[n..][..k]) && (rest.endAnchor ==> k == |s[n..]|);
    assert items[1..] == rest.items;
    assert s[..n + k][..n] == s[..n] && s[..n + k][n..] == s[n..][..k];
    assert InLanguage(items, s[..n + k]);
  }

  lemma HeadBySplit(item: Item, rest: Body, s: string)
    ensures MatchesAtHead(Body([item] + rest.items, rest.endAnchor), s) <==> exists n: nat :: SplitsAt(item, rest, s, n)
  {
    if MatchesAtHead(Body([item] + rest.items, rest.endAnchor), s) {
      HeadGivesSplit(item, rest, s);
    }
    if exists n: nat :: SplitsAt(item, rest, s, n) {
      var n: nat :| SplitsAt(item, rest, s, n);
      SplitGivesHead(item, rest, s, n);
    }
  }

  lemma HeadOfNoItems(endAnchor: bool, s: string)
    ensures MatchesAtHead(Body([], endAnchor), s) <==> (endAnchor ==> s == "")
  {
    assert InLanguage([], s[..0]);
  }

  /** A repeated atom followed by a valid regex: tries every count from the least one up. */
  method MatchRepetitionAndRegexAtHead(escaped: bool, c: char, repeat: char, regex: string, str: string)
    returns (ok: bool)
    requires IsRepeat(repeat) && ParseBody(regex).Some? && |str| < SIZE_MAX
    decreases |regex|, 1
    ensures ok <==> exists n: nat :: SplitsAt(Item(escaped, c, RepetitionOf(repeat)), ParseBody(regex).value, str, n)
  {
    ghost var item, rest := Item(escaped, c, RepetitionOf(repeat)), ParseBody(regex).value;
    var minCount := if repeat == '+' then 1 else 0;
    var maxCount := if repeat == '?' then 1 else SIZE_MAX - 1;
    var i := 0;
    while i <= maxCount
      invariant 0 <= i <= |str| && i <= maxCount + 1
      invariant AllMatch(item, str[..i])
      invariant forall n: nat :: n < i ==> !SplitsAt(item, rest, str, n)
    {
      if i >= minCount {
        var tail := MatchRegexAtHead(regex, str[i..]);
        if tail {
          assert SplitsAt(item, rest, str, i);
          return true;
        }
      }
      if i == |str| || !AtomMatchesChar(escaped, c, str[i]) {
        forall n: nat | i < n <= |str|
          ensures !AllMatch(item, str[..n])
        {
          assert str[..n][i] == str[i];
        }
        return false;
      }
      i := i + 1;
    }
    return false;
  }

  /** Decides whether a valid regex without start anchor matches a prefix. */
  method MatchRegexAtHead(regex: string, str: string) returns (ok: bool)
    requires ParseBody(regex).Some? && |str| < SIZE_MAX
    decreases |regex|, 0
    ensures ok <==> MatchesAtHead(ParseBody(regex).value, str)
  {
    if regex == "" {
      HeadOfNoItems(false, str);
      return true;
    }
    if regex[0] == '$' {
      HeadOfNoItems(true, str);
      return str == "";
    }
    ghost var (item, n) := ParseItem(regex).value;
    HeadBySplit(item, ParseBody(regex[n..]).value, str);
    var escaped := regex[0] == '\\';
    var rest := if escaped then regex[1..] else regex;
    if |rest| > 1 && IsRepeat(rest[1]) {
      assert rest[2..] == regex[n..];
      ok := MatchRepetitionAndRegexAtHead(escaped, rest[0], rest[1], rest[2..], str);
    } else {
      assert rest[1..] == regex[n..];
      if str != "" && AtomMatchesChar(escaped, rest[0], str[0]) {
        assert AllMatch(item, str[..1]);
        ok := MatchRegexAtHead(rest[1..], str[1..]);
        assert SplitsAt(item, ParseBody(regex[n..]).value, str, 1) <==> ok;
      } else {
        ok := false;
        assert str != "" ==> str[..1][0] == str[0];
      }
    }
  }

  /** Decides whether a valid regex matches some substring. */
  method MatchRegexAnywhere(regex: Option<string>, str: Option<string>) returns (ok: bool)
    requires regex.Some? ==> Parse(regex.value).Some?
    requires str.Some? ==> |str.value| < SIZE_MAX
    ensures ok <==> regex.Some? && str.Some? && MatchesAnywhere(Parse(regex.value).value, str.value)
  {
    if regex.None? || str.None? {
      return false;
    }
    var re, s := regex.value, str.value;
    ghost var tree := Parse(re).value;
    assert s[0..] == s;
    if re != "" && re[0] == '^' {
      ok := MatchRegexAtHead(re[1..], s);
      return;
    }
    var i := 0;
    while true
      invariant 0 <= i <= |s|
      invariant forall j :: 0 <= j < i ==> !MatchesAtHead(tree.body, s[j..])
      decreases |s| - i
    {
      ok := MatchRegexAtHead(re, s[i..]);
      if ok || i == |s| {
        return;
      }
      i := i + 1;
    }
  }

  // ----- Compiled expressions -----

  ghost predicate EndsInEscapedDollar(body: Body) {
    body.items != [] && !body.endAnchor && body.items[|body.items| - 1] == Item(true, '$', Once)
  }

  /** The tree whose text is stored for full matches. */
  ghost function FullTree(re: Regex): Regex {
    Regex(true, Body(re.body.items, !EndsInEscapedDollar(re.body)))
  }

  lemma {:induction false} PrintAnchored(body: Body)
    requires !body.endAnchor
    ensures PrintBody(body) + "$" == PrintBody(body.(endAnchor := true))
    decreases |body.items|
  {
    if body.items != [] {
      var rest := Body(body.items[1..], false);
      PrintAnchored(rest);
      assert PrintItem(body.items[0]) + PrintBody(rest) + "$" == PrintItem(body.items[0]) + (PrintBody(rest) + "$");
    }
  }

  ghost predicate EndsInDollar(s: string) {
    s != "" && s[|s| - 1] == '$'
  }

  lemma ItemEnd(item: Item)
    requires ValidItem(item)
    ensures PrintItem(item) != "" && (EndsInDollar(PrintItem(item)) <==> item == Item(true, '$', Once))
  {
  }

  lemma EndOfTwo(a: string, b: string)
    ensures EndsInDollar(a + b) <==> EndsInDollar(if b == "" then a else b)
  {
    assert b == "" ==> a + b == a;
  }

  lemma {:induction false} PrintBodyEnd(body: Body)
    requires ValidBody(body) && !body.endAnchor
    ensures EndsInDollar(PrintBody(body)) <==> EndsInEscapedDollar(body)
    decreases |body.items|
  {
    if body.items != [] {
      var rest := Body(body.items[1..], false);
      PrintBodyEnd(rest);
      ItemEnd(body.items[0]);
      EndOfTwo(PrintItem(body.items[0]), PrintBody(rest));
      PrintedBody(rest);
      EndOfRest(body, rest);
    }
  }

  lemma PrintedBody(body: Body)
    requires ValidBody(body) && !body.endAnchor
    ensures PrintBody(body) == "" <==> body.items == []
  {
    if body.items != [] {
      ItemEnd(body.items[0]);
    }
  }

  lemma EndOfRest(body: Body, rest: Body)
    requires body.items != [] && !body.endAnchor && rest == Body(body.items[1..], false)
    ensures EndsInEscapedDollar(body) <==>
            if rest.items == [] then body.items[0] == Item(true, '$', Once) else EndsInEscapedDollar(rest)
  {
    if rest.items == [] {
      assert |body.items| == 1;
    } else {
      LastOfRest(body.items, 1);
    }
  }

  /** A text is its tree's body with a caret in front if the tree says so, and only then. */
  lemma BodyText(regex: string, re: Regex)
    requires Parse(regex) == Some(re)
    ensures ValidBody(re.body)
    ensures regex == if re.startAnchor then "^" + PrintBody(re.body) else PrintBody(re.body)
    ensures re.startAnchor <==> regex != "" && regex[0] == '^'
  {
    ParseIsInverse(regex, re);
    ParsePrintBody(re.body);
  }

  /** The text of a body ends in a dollar sign just when its end is anchored or its last atom is one. */
  lemma DollarAtEnd(body: Body)
    requires ValidBody(body)
    ensures EndsInDollar(PrintBody(body)) <==> body.endAnchor || EndsInEscapedDollar(body)
  {
    var open := Body(body.items, false);
    PrintBodyEnd(open);
    PrintAnchored(open);
    EndOfTwo(PrintBody(open), "$");
    assert body == open || body == Body(body.items, true);
  }

  lemma FullBodyText(body: Body)
    requires ValidBody(body)
    ensures PrintBody(Body(body.items, !EndsInEscapedDollar(body))) ==
            PrintBody(body) + if body.endAnchor || EndsInEscapedDollar(body) then "" else "$"
  {
    if body.endAnchor {
      assert body == Body(body.items, true) && PrintBody(body) + "" == PrintBody(body);
    } else {
      PrintAnchored(body);
      assert body == Body(body.items, false) && PrintBody(body) + "" == PrintBody(body);
    }
  }

  lemma AnchoredText(text: string, start: bool, regex: string, full: string)
    requires regex == if start then "^" + text else text
    requires start <==> regex != "" && regex[0] == '^'
    requires full == (if regex != "" && regex[0] == '^' then "" else "^") + regex
                     + (if regex == "" || regex[|regex| - 1] != '$' then "$" else "")
    ensures full == "^" + (text + if EndsInDollar(text) then "" else "$")
  {
    assert regex != "" && regex[|regex| - 1] == '$' <==> EndsInDollar(text);
  }

  /** Anchoring the text anchors the tree, except at the end if that looks anchored already. */
  lemma FullPatternParses(regex: string, full: string)
    requires Parse(regex).Some?
    requires full == (if regex != "" && regex[0] == '^' then "" else "^") + regex
                     + (if regex == "" || regex[|regex| - 1] != '$' then "$" else "")
    ensures Parse(full) == Some(FullTree(Parse(regex).value))
  {
    var re := Parse(regex).value;
    BodyText(regex, re);
    DollarAtEnd(re.body);
    FullBodyText(re.body);
    AnchoredText(PrintBody(re.body), re.startAnchor, regex, full);
    ParseIsInverse(full, FullTree(re));
  }

  /** The pattern with a caret before it and a dollar after it, where they are missing. */
  method AnchorPattern(text: string) returns (buffer: string)
    requires Parse(text).Some?
    ensures Parse(buffer) == Some(FullTree(Parse(text).value))
    ensures buffer == (if text != "" && text[0] == '^' then "" else "^") + text
                      + (if text == "" || text[|text| - 1] != '$' then "$" else "")
  {
    buffer := "";
    if text == "" || text[0] != '^' {
      buffer := buffer + "^";
    }
    buffer := buffer + text;
    if text == "" || text[|text| - 1] != '$' {
      buffer := buffer + "$";
    }
    FullPatternParses(text, buffer);
  }

  class RE {
    var pattern: Option<string>
    var fullPattern: Option<string>
    var isValid: bool

    /** The tree of a valid expression. */
    ghost function Tree(): Regex
      reads this
      requires Valid() && isValid
    {
      Parse(pattern.value).value
    }

    ghost predicate Valid()
      reads this
    {
      isValid ==>
        && pattern.Some? && Parse(pattern.value).Some?
        && fullPattern.Some? && Parse(fullPattern.value) == Some(FullTree(Parse(pattern.value).value))
    }

    constructor Init(regex: Option<string>)
      requires regex.Some? ==> NulFree(regex.value)
      ensures Valid() && pattern == regex
      ensures isValid <==> regex.Some? && exists re: Regex :: ValidBody(re.body) && Print(re) == regex.value
    {
      pattern, fullPattern := regex, None;
      var valid := ValidateRegex(regex);
      isValid := valid;
      if regex.Some? {
        ParsesIfPrinted(regex.value);
      }
      if valid {
        var buffer := AnchorPattern(regex.value);
        fullPattern := Some(buffer);
      }
    }

    method FullMatch(str: string) returns (ok: bool)
      requires Valid() && |str| < SIZE_MAX
      ensures ok <==> isValid && MatchesAnywhere(FullTree(Tree()), str)
    {
      ok := isValid;
      if ok {
        ok := MatchRegexAnywhere(fullPattern, Some(str));
      }
    }

    method PartialMatch(str: string) returns (ok: bool)
      requires Valid() && |str| < SIZE_MAX
      ensures ok <==> isValid && MatchesAnywhere(Tree(), str)
    {
      ok := isValid;
      if ok {
        ok := MatchRegexAnywhere(pattern, Some(str));
      }
    }
  }

  // ----- When a full match is a full match -----

  /** A full match that is not cut off by an escaped dollar is membership of the whole text. */
  lemma FullMatchMeaning(re: Regex, s: string)
    ensures MatchesAnywhere(FullTree(re), s) <==>
            if EndsInEscapedDollar(re.body) then exists n :: 0 <= n <= |s| && InLanguage(re.body.items, s[..n])
            else InLanguage(re.body.items, s)
  {
    assert s[0..] == s && s[..|s|] == s;
    var body := FullTree(re).body;
    assert MatchesAnywhere(FullTree(re), s) <==> MatchesAtHead(body, s);
  }

  // ----- What the atoms and repetitions mean -----

  /** The characters that an atom stands for, by their codes. */
  ghost predicate StandsFor(item: Item, c: char) {
    var code := c as int;
    if !item.escaped then
      if item.c == '.' then code != 10 else c == item.c
    else
      match item.c
      case 'd' => 48 <= code <= 57
      case 'D' => !(48 <= code <= 57)
      case 's' => code == 32 || 9 <= code <= 13
      case 'S' => !(code == 32 || 9 <= code <= 13)
      case 'w' => 48 <= code <= 57 || 65 <= code <= 90 || code == 95 || 97 <= code <= 122
      case 'W' => !(48 <= code <= 57 || 65 <= code <= 90 || code == 95 || 97 <= code <= 122)
      case 't' => code == 9
      case 'n' => code == 10
      case 'v' => code == 11
      case 'f' => code == 12
      case 'r' => code == 13
      case _ => c == item.c
  }

  /** Every valid atom matches exactly the characters that it stands for. */
  lemma AtomMeans(item: Item, c: char)
    requires ValidItem(item)
    ensures AtomMatchesChar(item.escaped, item.c, c) <==> StandsFor(item, c)
  {
    if item.escaped {
      EscapeLetters(item.c);
      SpaceCodes(c);
    }
  }

  lemma EscapeLetters(c: char)
    ensures IsInSet(c, "dDfnrsStvwW") <==>
      c == 'd' || c == 'D' || c == 'f' || c == 'n' || c == 'r' || c == 's' || c == 'S' || c == 't' || c == 'v'
      || c == 'w' || c == 'W'
  {
  }

  lemma SpaceCodes(c: char)
    ensures IsAsciiWhiteSpace(c) <==> c as int == 32 || 9 <= c as int <= 13
  {
  }

  lemma PunctuationCodes(c: char)
    ensures IsAsciiPunct(c) <==>
      var code := c as int; 33 <= code <= 47 || 58 <= code <= 64 || 91 <= code <= 96 || 123 <= code <= 126
  {
  }

  ghost predicate AllStandFor(item: Item, s: string) {
    forall i :: 0 <= i < |s| ==> StandsFor(item, s[i])
  }

  /** One atom with its repetition: as many characters as that allows, each one that the atom stands for. */
  lemma ItemLanguage(item: Item, s: string)
    requires ValidItem(item)
    ensures item.repetition == Once ==> (InLanguage([item], s) <==> |s| == 1 && AllStandFor(item, s))
    ensures item.repetition == Optional ==> (InLanguage([item], s) <==> |s| <= 1 && AllStandFor(item, s))
    ensures item.repetition == Star ==> (InLanguage([item], s) <==> AllStandFor(item, s))
    ensures item.repetition == Plus ==> (InLanguage([item], s) <==> |s| >= 1 && AllStandFor(item, s))
  {
    assert [item][1..] == [] && s[..|s|] == s;
    forall i | 0 <= i < |s| ensures AtomMatchesChar(item.escaped, item.c, s[i]) <==> StandsFor(item, s[i]) {
      AtomMeans(item, s[i]);
    }
    forall n | 0 <= n <= |s| ensures InLanguage([item][1..], s[n..]) <==> n == |s| {
    }
  }

  /** A pattern of one atom matches within a text if and only if the text holds a character that the atom stands for,
      and matches the whole text if and only if that is one such character. */
  lemma OneAtomPattern(item: Item, s: string)
    requires ValidItem(item) && item.repetition == Once
    ensures Parse(PrintItem(item)) == Some(Regex(false, Body([item], false)))
    ensures MatchesAnywhere(Regex(false, Body([item], false)), s) <==> exists i :: 0 <= i < |s| && StandsFor(item, s[i])
    ensures item != Item(true, '$', Once) ==>
      (MatchesAnywhere(FullTree(Regex(false, Body([item], false))), s) <==> |s| == 1 && StandsFor(item, s[0]))
  {
    var re := Regex(false, Body([item], false));
    OneItemParses(item);
    forall i | 0 <= i <= |s| ensures MatchesAtHead(re.body, s[i..]) <==> i < |s| && StandsFor(item, s[i]) {
      OneAtomAtHead(item, s[i..]);
    }
    FullMatchMeaning(re, s);
    ItemLanguage(item, s);
  }

  lemma OneItemParses(item: Item)
    requires ValidItem(item)
    ensures Parse(PrintItem(item)) == Some(Regex(false, Body([item], false)))
  {
    var re := Regex(false, Body([item], false));
    assert Body(re.body.items[1..], false) == Body([], false);
    assert PrintBody(re.body) == PrintItem(item) + "" == PrintItem(item);
    assert Print(re) == "" + PrintBody(re.body) == PrintBody(re.body);
    ParseIsInverse(PrintItem(item), re);
  }

  lemma OneAtomAtHead(item: Item, s: string)
    requires ValidItem(item) && item.repetition == Once
    ensures MatchesAtHead(Body([item], false), s) <==> s != "" && StandsFor(item, s[0])
  {
    forall n | 0 <= n <= |s| ensures InLanguage([item], s[..n]) <==> n == 1 && StandsFor(item, s[0]) {
      ItemLanguage(item, s[..n]);
    }
    if s != "" && StandsFor(item, s[0]) {
      assert InLanguage([item], s[..1]);
    }
  }

  /** After a backslash stand eleven letters and the punctuation of ASCII; without one, everything but NUL and
      the characters that have a meaning of their own. */
  lemma ValidAtoms(c: char, repetition: Repetition)
    ensures ValidItem(Item(true, c, repetition)) <==>
      var code := c as int;
      || c == 'd' || c == 'D' || c == 'f' || c == 'n' || c == 'r' || c == 's' || c == 'S' || c == 't' || c == 'v'
      || c == 'w' || c == 'W'
      || 33 <= code <= 47 || 58 <= code <= 64 || 91 <= code <= 96 || 123 <= code <= 126
    ensures ValidItem(Item(false, c, repetition)) <==>
      c as int !in {0, 36, 40, 41, 42, 43, 63, 91, 92, 93, 94, 123, 124, 125}
  {
    EscapeLetters(c);
    PunctuationCodes(c);
  }

  /** Every valid atom matches some character of a C string. */
  ghost function SampleChar(item: Item): (c: char)
    requires ValidItem(item)
    ensures c != '\0' && AtomMatchesChar(item.escaped, item.c, c)
  {
    if !item.escaped then item.c
    else
      match item.c
      case 'd' => '0'
      case 'D' => 'a'
      case 'f' => FORM_FEED
      case 'n' => '\n'
      case 'r' => '\r'
      case 's' => ' '
      case 'S' => 'a'
      case 't' => '\t'
      case 'v' => VERTICAL_TAB
      case 'w' => 'a'
      case 'W' => ' '
      case c => c
  }

  ghost function Sample(items: seq<Item>): (s: string)
    requires ValidBody(Body(items, false))
    ensures NulFree(s) && InLanguage(items, s)
  {
    if items == [] then ""
    else
      var c, rest := SampleChar(items[0]), Sample(items[1..]);
      assert ([c] + rest)[1..] == rest && AllMatch(items[0], ([c] + rest)[..1]);
      [c] + rest
  }

  lemma {:induction false} LanguageEndsInDollar(items: seq<Item>, s: string)
    requires items != [] && items[|items| - 1] == Item(true, '$', Once) && InLanguage(items, s)
    ensures s != "" && s[|s| - 1] == '$'
  {
    var n :| 0 <= n <= |s| && CountFits(items[0].repetition, n) && AllMatch(items[0], s[..n])
             && InLanguage(items[1..], s[n..]);
    if |items| == 1 {
      assert items[1..] == [] && items[0] == Item(true, '$', Once);
      MatchesDollar(s, n);
    } else {
      LanguageEndsInDollar(items[1..], s[n..]);
      LastOfRest(s, n);
    }
  }

  lemma MatchesDollar(s: string, n: nat)
    requires n == 1 == |s| && AllMatch(Item(true, '$', Once), s[..n])
    ensures s[0] == '$'
  {
    assert s[..n][0] == s[0];
  }

  lemma LastOfRest<T>(s: seq<T>, n: nat)
    requires n < |s|
    ensures s[n..][|s[n..]| - 1] == s[|s| - 1]
  {
  }

  /** The promise of a full match, for one text. */
  ghost predicate FullMatchIsWhole(re: Regex, s: string) {
    MatchesAnywhere(FullTree(re), s) <==> InLanguage(re.body.items, s)
  }

  /** After an escaped dollar anything may follow: one more character is accepted too. */
  lemma EscapedDollarCutsOff(re: Regex) returns (s: string)
    requires ValidBody(re.body) && EndsInEscapedDollar(re.body)
    ensures NulFree(s) && !FullMatchIsWhole(re, s)
  {
    s := Sample(re.body.items) + "a";
    OnlyPrefixInLanguage(re.body.items, s);
    FullMatchMeaning(re, s);
  }

  lemma OnlyPrefixInLanguage(items: seq<Item>, s: string)
    requires ValidBody(Body(items, false)) && EndsInEscapedDollar(Body(items, false)) && s == Sample(items) + "a"
    ensures !InLanguage(items, s) && exists n :: 0 <= n <= |s| && InLanguage(items, s[..n])
  {
    assert s[..|s| - 1] == Sample(items);
    if InLanguage(items, s) {
      LanguageEndsInDollar(items, s);
    }
  }

  /** A full match decides membership of the whole text, for all texts, exactly when the pattern does not
      end in an escaped dollar. */
  lemma FullMatchIsWholeExactly(re: Regex)
    requires ValidBody(re.body)
    ensures (forall s :: NulFree(s) ==> FullMatchIsWhole(re, s)) <==> !EndsInEscapedDollar(re.body)
  {
    if EndsInEscapedDollar(re.body) {
      var s := EscapedDollarCutsOff(re);
    } else {
      forall s | NulFree(s)
        ensures FullMatchIsWhole(re, s)
      {
        FullMatchMeaning(re, s);
      }
    }
  }
}
