/** The text of a unified diff, and a reader that takes the text apart again. */
module HunkPrinting {
  import opened Text
  import opened Decimal

  /** Common, removed and added lines. */
  type Tag = c: char | c == ' ' || c == '-' || c == '+' witness ' '

  datatype Line = Line(tag: Tag, text: string)

  /** A printed line range; the header omits it on a side without changes. */
  datatype Range = Omitted | Printed(start: nat, length: nat)

  datatype PrintedHunk = PrintedHunk(left: Range, right: Range, lines: seq<Line>)

  // ----- Printing -----

  /** What a stream writes of a C string. */
  function CString(s: string): (t: string)
    ensures NulFree(t) && (NulFree(s) ==> t == s)
    ensures forall c :: c in t ==> c in s
  {
    if s == "" || s[0] == '\0' then "" else [s[0]] + CString(s[1..])
  }

  /** It ends at the first NUL. */
  lemma {:induction false} CStringEnds(s: string)
    ensures CString(s) <= s && (CString(s) == s || s[|CString(s)|] == '\0')
  {
    if s != "" && s[0] != '\0' {
      CStringEnds(s[1..]);
    }
  }

  function LineText(line: Line): string {
    [line.tag] + CString(line.text)
  }

  function LinesText(lines: seq<Line>): string {
    if lines == [] then ""
    else LinesText(lines[..|lines| - 1]) + (LineText(lines[|lines| - 1]) + "\n")
  }

  function RangeText(sign: char, range: Range): string {
    if range.Omitted? then "" else [sign] + (DecimalText(range.start) + ("," + DecimalText(range.length)))
  }

  function Gap(left: Range, right: Range): string {
    if left.Printed? && right.Printed? then " " else ""
  }

  function HeaderText(left: Range, right: Range): string {
    "@@ " + (RangeText('-', left) + (Gap(left, right) + (RangeText('+', right) + " @@")))
  }

  /** The parts of a header as they are written one after the other. */
  function Assembled(left: string, gap: string, right: string): string {
    "@@ " + left + gap + right + " @@"
  }

  function HunkText(h: PrintedHunk): string {
    HeaderText(h.left, h.right) + "\n" + LinesText(h.lines)
  }

  ghost function DiffText(hunks: seq<PrintedHunk>): string {
    if hunks == [] then "" else DiffText(hunks[..|hunks| - 1]) + HunkText(hunks[|hunks| - 1])
  }

  // ----- Reading -----

  /** The lines that are complete, and the text after the last of them. */
  datatype Split = Split(lines: seq<string>, open: string)

  ghost function SplitLines(text: string): Split {
    if text == "" then Split([], "")
    else
      var n := |text| - 1;
      var s := SplitLines(text[..n]);
      if text[n] == '\n' then Split(s.lines + [s.open], "") else Split(s.lines, s.open + [text[n]])
  }

  ghost function DigitCount(s: string): (n: nat)
    ensures n <= |s| && AllDigits(s[..n])
  {
    if s != "" && IsDigit(s[0]) then 1 + DigitCount(s[1..]) else 0
  }

  ghost function ReadNumber(s: string): nat {
    DecimalValue(s[..DigitCount(s)])
  }

  ghost function AfterNumber(s: string): string {
    s[DigitCount(s)..]
  }

  /** A range, if the sign announces one, and the text after it. */
  ghost function ReadRange(sign: char, s: string): Option<(Range, string)> {
    if s == "" || s[0] != sign then Some((Omitted, s))
    else
      var t := AfterNumber(s[1..]);
      if t == "" || t[0] != ',' then None
      else Some((Printed(ReadNumber(s[1..]), ReadNumber(t[1..])), AfterNumber(t[1..])))
  }

  /** Two ranges stand with exactly one blank between them, and one range has none beside the marks' own. */
  ghost function ReadHeader(s: string): Option<(Range, Range)> {
    if |s| < 3 || s[..3] != "@@ " || ReadRange('-', s[3..]).None? then None
    else ReadRest(ReadRange('-', s[3..]).value.0, ReadRange('-', s[3..]).value.1)
  }

  ghost function ReadRest(left: Range, s: string): Option<(Range, Range)> {
    if left.Omitted? then ReadRight(left, s)
    else if s == " @@" then Some((left, Omitted))
    else if |s| > 1 && s[0] == ' ' && s[1] == '+' then ReadRight(left, s[1..])
    else None
  }

  ghost function ReadRight(left: Range, s: string): Option<(Range, Range)> {
    var right := ReadRange('+', s);
    if right.None? || right.value.1 != " @@" then None else Some((left, right.value.0))
  }

  /** A header begins a hunk, and every other line belongs to the last one. */
  ghost function ReadLine(hunks: seq<PrintedHunk>, s: string): Option<seq<PrintedHunk>> {
    if s == "" then None
    else if s[0] == '@' then
      if ReadHeader(s).None? then None
      else Some(hunks + [PrintedHunk(ReadHeader(s).value.0, ReadHeader(s).value.1, [])])
    else if hunks == [] || !(s[0] == ' ' || s[0] == '-' || s[0] == '+') then None
    else Some(AddLine(hunks, Line(s[0], s[1..])))
  }

  ghost function AddLine(hunks: seq<PrintedHunk>, line: Line): seq<PrintedHunk>
    requires hunks != []
  {
    var n := |hunks| - 1;
    hunks[..n] + [hunks[n].(lines := hunks[n].lines + [line])]
  }

  ghost function ReadLines(lines: seq<string>): Option<seq<PrintedHunk>> {
    if lines == [] then Some([])
    else
      var n := |lines| - 1;
      if ReadLines(lines[..n]).None? then None else ReadLine(ReadLines(lines[..n]).value, lines[n])
  }

  ghost function ReadDiff(text: string): Option<seq<PrintedHunk>> {
    if SplitLines(text).open != "" then None else ReadLines(SplitLines(text).lines)
  }

  // ----- The reader inverts the printer -----

  /** The text ends neither a line nor a C string. */
  ghost predicate IsPlain(s: string) {
    '\0' !in s && '\n' !in s
  }

  ghost predicate AllPlain(hunks: seq<PrintedHunk>) {
    forall i, j :: 0 <= i < |hunks| && 0 <= j < |hunks[i].lines| ==> IsPlain(hunks[i].lines[j].text)
  }

  lemma LastAdded<T>(s: seq<T>, x: T)
    ensures (s + [x])[..|s|] == s
  {
  }

  lemma LastApart<T>(s: seq<T>)
    requires s != []
    ensures s[..|s| - 1] + [s[|s| - 1]] == s
  {
  }

  lemma CharAdded(text: string, c: char)
    ensures SplitLines(text + [c]) ==
      var s := SplitLines(text);
      if c == '\n' then Split(s.lines + [s.open], "") else Split(s.lines, s.open + [c])
  {
    LastAdded(text, c);
  }

  lemma {:induction false} SplitMore(text: string, more: string)
    requires '\n' !in more
    ensures SplitLines(text + more) == Split(SplitLines(text).lines, SplitLines(text).open + more)
  {
    if more == "" {
      assert text + more == text;
    } else {
      var n := |more| - 1;
      SplitMore(text, more[..n]);
      CharAdded(text + more[..n], more[n]);
      LastApart(more);
      Regroup(text, more[..n], [more[n]]);
      Regroup(SplitLines(text).open, more[..n], [more[n]]);
    }
  }

  lemma SplitLine(text: string, line: string)
    requires SplitLines(text).open == "" && '\n' !in line
    ensures SplitLines(text + (line + "\n")) == Split(SplitLines(text).lines + [line], "")
  {
    SplitMore(text, line);
    CharAdded(text + line, '\n');
    Regroup(text, line, "\n");
    NothingBefore(line);
  }

  lemma NothingBefore(s: string)
    ensures "" + s == s
  {
  }

  lemma ReadsOneMore(text: string, line: string)
    requires ReadDiff(text).Some? && '\n' !in line
    ensures ReadDiff(text + (line + "\n")) == ReadLine(ReadDiff(text).value, line)
  {
    SplitLine(text, line);
    LastAdded(SplitLines(text).lines, line);
  }

  lemma {:induction false} DigitsCounted(digits: string, rest: string)
    requires AllDigits(digits) && (rest == "" || !IsDigit(rest[0]))
    ensures DigitCount(digits + rest) == |digits|
  {
    if digits == "" {
      assert digits + rest == rest;
    } else {
      DigitsCounted(digits[1..], rest);
      assert (digits + rest)[1..] == digits[1..] + rest;
    }
  }

  lemma NumberReads(v: nat, rest: string)
    requires rest == "" || !IsDigit(rest[0])
    ensures ReadNumber(DecimalText(v) + rest) == v && AfterNumber(DecimalText(v) + rest) == rest
  {
    var digits := DecimalText(v);
    DigitsCounted(digits, rest);
    assert (digits + rest)[..|digits|] == digits && (digits + rest)[|digits|..] == rest;
  }

  lemma RangeReads(sign: char, range: Range, rest: string)
    requires rest == "" || (!IsDigit(rest[0]) && rest[0] != sign)
    ensures ReadRange(sign, RangeText(sign, range) + rest) == Some((range, rest))
  {
    if range.Printed? {
      var length := DecimalText(range.length) + rest;
      NumberReads(range.start, "," + length);
      NumberReads(range.length, rest);
      assert ("," + length)[1..] == length;
      Regroup([sign], DecimalText(range.start) + ("," + DecimalText(range.length)), rest);
      Regroup(DecimalText(range.start), "," + DecimalText(range.length), rest);
      Regroup(",", DecimalText(range.length), rest);
      assert ([sign] + (DecimalText(range.start) + ("," + length)))[1..] == DecimalText(range.start) + ("," + length);
    } else {
      assert RangeText(sign, range) + rest == rest;
    }
  }

  /** The header names exactly its ranges. */
  lemma HeaderReads(left: Range, right: Range)
    ensures ReadHeader(HeaderText(left, right)) == Some((left, right))
  {
    var tail := RangeText('+', right) + " @@";
    var rest := Gap(left, right) + tail;
    TailBegins(left, right, tail);
    RangeReads('-', left, rest);
    RestReads(left, right);
    AfterMark(RangeText('-', left) + rest);
  }

  lemma RestReads(left: Range, right: Range)
    ensures ReadRest(left, Gap(left, right) + (RangeText('+', right) + " @@")) == Some((left, right))
  {
    TailBegins(left, right, RangeText('+', right) + " @@");
    RangeReads('+', right, " @@");
  }

  lemma AfterMark(s: string)
    ensures ("@@ " + s)[..3] == "@@ " && ("@@ " + s)[3..] == s
  {
  }

  lemma SpaceAndSign(tail: string)
    requires tail != "" && tail[0] == '+'
    ensures (" " + tail)[0] == ' ' && (" " + tail)[1] == '+' && (" " + tail)[1..] == tail
  {
  }

  lemma TailBegins(left: Range, right: Range, tail: string)
    requires tail == RangeText('+', right) + " @@"
    ensures var rest := Gap(left, right) + tail;
      && rest != "" && !IsDigit(rest[0]) && rest[0] != '-'
      && if left.Omitted? then tail == rest
         else if right.Omitted? then rest == " @@"
         else |rest| > 1 && rest[0] == ' ' && rest[1] == '+' && tail == rest[1..]
  {
    if left.Printed? && right.Printed? {
      SpaceAndSign(tail);
    } else {
      NothingBefore(tail);
      NothingBefore(" @@");
    }
  }

  /** The header of two changed sides, letter by letter. */
  lemma HeaderOfBoth(l: nat, m: nat, r: nat, n: nat)
    ensures HeaderText(Printed(l, m), Printed(r, n)) ==
      "@@ -" + (DecimalText(l) + ("," + (DecimalText(m)
      + (" +" + (DecimalText(r) + ("," + (DecimalText(n) + " @@")))))))
  {
    TwoRanges(DecimalText(l), DecimalText(m), DecimalText(r), DecimalText(n));
  }

  lemma TwoRanges(a: string, b: string, c: string, d: string)
    ensures "@@ " + ((['-'] + (a + ("," + b))) + (" " + ((['+'] + (c + ("," + d))) + " @@")))
         == "@@ -" + (a + ("," + (b + (" +" + (c + ("," + (d + " @@")))))))
  {
    var right := c + ("," + (d + " @@"));
    RangeThen('+', c, d, " @@");
    SignAfter(" ", '+', right);
    RangeThen('-', a, b, " +" + right);
    SignAfter("@@ ", '-', a + ("," + (b + (" +" + right))));
  }

  /** The header when only lines were removed. */
  lemma HeaderOfLeft(l: nat, m: nat)
    ensures HeaderText(Printed(l, m), Omitted) == "@@ -" + (DecimalText(l) + ("," + (DecimalText(m) + " @@")))
  {
    NothingBefore(" @@");
    NothingBefore("" + " @@");
    RangeThen('-', DecimalText(l), DecimalText(m), " @@");
    SignAfter("@@ ", '-', DecimalText(l) + ("," + (DecimalText(m) + " @@")));
  }

  /** The header when only lines were added. */
  lemma HeaderOfRight(r: nat, n: nat)
    ensures HeaderText(Omitted, Printed(r, n)) == "@@ +" + (DecimalText(r) + ("," + (DecimalText(n) + " @@")))
  {
    var right := DecimalText(r) + ("," + (DecimalText(n) + " @@"));
    RangeThen('+', DecimalText(r), DecimalText(n), " @@");
    NothingBefore(['+'] + right);
    NothingBefore("" + (['+'] + right));
    SignAfter("@@ ", '+', right);
  }

  lemma RangeThen(sign: char, start: string, length: string, rest: string)
    ensures ([sign] + (start + ("," + length))) + rest == [sign] + (start + ("," + (length + rest)))
  {
    Regroup([sign], start + ("," + length), rest);
    Regroup(start, "," + length, rest);
    Regroup(",", length, rest);
  }

  lemma SignAfter(before: string, sign: char, rest: string)
    ensures before + ([sign] + rest) == (before + [sign]) + rest
    ensures " " + ['+'] == " +" && "@@ " + ['+'] == "@@ +" && "@@ " + ['-'] == "@@ -"
  {
  }

  /** A whole example: one changed line. */
  lemma ChangedLineText()
    ensures DiffText([PrintedHunk(Printed(1, 1), Printed(1, 1), [Line('-', "a"), Line('+', "b")])])
         == "@@ -1,1 +1,1 @@\n-a\n+b\n"
  {
    var h := PrintedHunk(Printed(1, 1), Printed(1, 1), [Line('-', "a"), Line('+', "b")]);
    ChangedLines();
    ChangedHeader();
    OneHunkText(h);
    ChangedText();
  }

  lemma OneHunkText(h: PrintedHunk)
    ensures DiffText([h]) == HunkText(h)
  {
    assert [h][..0] == [];
    NothingBefore(HunkText(h));
  }

  lemma ChangedText()
    ensures "@@ -1,1 +1,1 @@" + "\n" + "-a\n+b\n" == "@@ -1,1 +1,1 @@\n-a\n+b\n"
  {
  }

  lemma ChangedHeader()
    ensures HeaderText(Printed(1, 1), Printed(1, 1)) == "@@ -1,1 +1,1 @@"
  {
    assert DecimalText(1) == "1";
    HeaderOfBoth(1, 1, 1, 1);
  }

  lemma ChangedLines()
    ensures LinesText([Line('-', "a"), Line('+', "b")]) == "-a\n+b\n"
  {
    var lines := [Line('-', "a"), Line('+', "b")];
    assert lines[..1] == [Line('-', "a")] && lines[..1][..0] == [];
    assert CString("a") == "a" && CString("b") == "b";
    assert LinesText(lines[..1]) == "-a\n";
  }

  /** The header as the parts that are written one after the other. */
  lemma HeaderGrouped(left: Range, right: Range)
    ensures Assembled(RangeText('-', left), Gap(left, right), RangeText('+', right)) == HeaderText(left, right)
  {
    Regroup("@@ ", RangeText('-', left), Gap(left, right));
    Regroup("@@ ", RangeText('-', left) + Gap(left, right), RangeText('+', right));
    Regroup("@@ ", RangeText('-', left) + Gap(left, right) + RangeText('+', right), " @@");
    Regroup(RangeText('-', left), Gap(left, right), RangeText('+', right));
    Regroup(RangeText('-', left), Gap(left, right) + RangeText('+', right), " @@");
    Regroup(Gap(left, right), RangeText('+', right), " @@");
  }

  method PrintRanges(left: Range, right: Range) returns (ss: string)
    ensures ss == HeaderText(left, right)
  {
    var removed, gap, added := "", "", "";
    if left.Printed? {
      removed := RangeText('-', left);
    }
    if left.Printed? && right.Printed? {
      gap := " ";
    }
    if right.Printed? {
      added := RangeText('+', right);
    }
    HeaderGrouped(left, right);
    ss := Assembled(removed, gap, added);
  }

  lemma HeaderIsPlain(left: Range, right: Range)
    ensures IsPlain(HeaderText(left, right))
  {
    RangeIsPlain('-', left);
    RangeIsPlain('+', right);
    PlainJoin(RangeText('+', right), " @@");
    PlainJoin(Gap(left, right), RangeText('+', right) + " @@");
    PlainJoin(RangeText('-', left), Gap(left, right) + (RangeText('+', right) + " @@"));
    PlainJoin("@@ ", RangeText('-', left) + (Gap(left, right) + (RangeText('+', right) + " @@")));
  }

  lemma PlainJoin(a: string, b: string)
    requires IsPlain(a) && IsPlain(b)
    ensures IsPlain(a + b)
  {
  }

  lemma RangeIsPlain(sign: char, range: Range)
    requires sign == '-' || sign == '+'
    ensures IsPlain(RangeText(sign, range))
  {
    if range.Printed? {
      var start, length := DecimalText(range.start), DecimalText(range.length);
      PlainJoin(",", length);
      PlainJoin(start, "," + length);
      PlainJoin([sign], start + ("," + length));
    }
  }

  lemma HeaderBegins(text: string, hunks: seq<PrintedHunk>, left: Range, right: Range)
    requires ReadDiff(text) == Some(hunks)
    ensures ReadDiff(text + (HeaderText(left, right) + "\n")) == Some(hunks + [PrintedHunk(left, right, [])])
  {
    HeaderIsPlain(left, right);
    HeaderReads(left, right);
    ReadsOneMore(text, HeaderText(left, right));
  }

  lemma {:induction false} LinesReadBack(text: string, hunks: seq<PrintedHunk>, left: Range, right: Range,
                                         lines: seq<Line>)
    requires ReadDiff(text) == Some(hunks + [PrintedHunk(left, right, [])])
    requires forall j :: 0 <= j < |lines| ==> IsPlain(lines[j].text)
    ensures ReadDiff(text + LinesText(lines)) == Some(hunks + [PrintedHunk(left, right, lines)])
  {
    if lines == [] {
      assert text + LinesText(lines) == text;
    } else {
      var n := |lines| - 1;
      var line := lines[n];
      var before := text + LinesText(lines[..n]);
      LinesReadBack(text, hunks, left, right, lines[..n]);
      ReadsOneMore(before, LineText(line));
      Regroup(text, LinesText(lines[..n]), LineText(line) + "\n");
      assert LineText(line)[1..] == line.text;
      LastApart(lines);
    }
  }

  lemma HunkReadsBack(text: string, hunks: seq<PrintedHunk>, h: PrintedHunk)
    requires ReadDiff(text) == Some(hunks)
    requires forall j :: 0 <= j < |h.lines| ==> IsPlain(h.lines[j].text)
    ensures ReadDiff(text + HunkText(h)) == Some(hunks + [h])
  {
    HeaderBegins(text, hunks, h.left, h.right);
    LinesReadBack(text + (HeaderText(h.left, h.right) + "\n"), hunks, h.left, h.right, h.lines);
    Regroup(text, HeaderText(h.left, h.right) + "\n", LinesText(h.lines));
  }

  lemma {:induction false} PlainReadsBack(hunks: seq<PrintedHunk>)
    requires AllPlain(hunks)
    ensures ReadDiff(DiffText(hunks)) == Some(hunks)
  {
    if hunks != [] {
      var n := |hunks| - 1;
      PlainReadsBack(hunks[..n]);
      HunkReadsBack(DiffText(hunks[..n]), hunks[..n], hunks[n]);
      LastApart(hunks);
    }
  }

  // ----- What a reader can find in a text -----

  lemma {:induction false} SplitIsPlain(text: string)
    requires NulFree(text)
    ensures IsPlain(SplitLines(text).open)
    ensures forall i :: 0 <= i < |SplitLines(text).lines| ==> IsPlain(SplitLines(text).lines[i])
  {
    if text != "" {
      SplitIsPlain(text[..|text| - 1]);
    }
  }

  lemma ReadLineIsPlain(hunks: seq<PrintedHunk>, line: string)
    requires AllPlain(hunks) && IsPlain(line) && ReadLine(hunks, line).Some?
    ensures AllPlain(ReadLine(hunks, line).value)
  {
    var read, n := ReadLine(hunks, line).value, |hunks| - 1;
    if line[0] != '@' {
      assert IsPlain(line[1..]);
      forall i, j | 0 <= i < |read| && 0 <= j < |read[i].lines| ensures IsPlain(read[i].lines[j].text) {
        assert read[i].lines[j] == if j < |hunks[i].lines| then hunks[i].lines[j] else Line(line[0], line[1..]);
      }
    }
  }

  lemma {:induction false} ReadIsPlain(lines: seq<string>)
    requires forall i :: 0 <= i < |lines| ==> IsPlain(lines[i])
    requires ReadLines(lines).Some?
    ensures AllPlain(ReadLines(lines).value)
  {
    if lines != [] {
      var n := |lines| - 1;
      ReadIsPlain(lines[..n]);
      ReadLineIsPlain(ReadLines(lines[..n]).value, lines[n]);
    }
  }

  lemma {:induction false} LinesTextNulFree(lines: seq<Line>)
    ensures NulFree(LinesText(lines))
  {
    if lines != [] {
      LinesTextNulFree(lines[..|lines| - 1]);
    }
  }

  lemma {:induction false} DiffTextNulFree(hunks: seq<PrintedHunk>)
    ensures NulFree(DiffText(hunks))
  {
    if hunks != [] {
      var h := hunks[|hunks| - 1];
      DiffTextNulFree(hunks[..|hunks| - 1]);
      HeaderIsPlain(h.left, h.right);
      LinesTextNulFree(h.lines);
    }
  }

  /** The printed text tells the hunks exactly when no line of theirs holds a line break or a NUL. */
  lemma DiffReadsBackExactly(hunks: seq<PrintedHunk>)
    ensures ReadDiff(DiffText(hunks)) == Some(hunks) <==> AllPlain(hunks)
  {
    if AllPlain(hunks) {
      PlainReadsBack(hunks);
    } else if ReadDiff(DiffText(hunks)) == Some(hunks) {
      DiffTextNulFree(hunks);
      SplitIsPlain(DiffText(hunks));
      ReadIsPlain(SplitLines(DiffText(hunks)).lines);
    }
  }
}
