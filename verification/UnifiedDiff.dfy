/** Unified diffs: an edit script cut into hunks with context, and what it means to apply them. */
module UnifiedDiff {
  import opened EditDistance
  import opened HunkPrinting
  import opened Text

  // ----- What a patch means -----

  /** The texts of the lines that do not carry the given tag. */
  ghost function TextsExcept(lines: seq<Line>, tag: char): (texts: seq<string>)
    ensures |texts| <= |lines|
  {
    if lines == [] then []
    else
      var n := |lines| - 1;
      TextsExcept(lines[..n], tag) + if lines[n].tag == tag then [] else [lines[n].text]
  }

  /** The lines of the left file that a hunk shows. */
  ghost function OldSide(lines: seq<Line>): seq<string> {
    TextsExcept(lines, '+')
  }

  /** The lines of the right file that a hunk shows. */
  ghost function NewSide(lines: seq<Line>): seq<string> {
    TextsExcept(lines, '-')
  }

  datatype Progress = Stuck | Reached(consumed: nat, output: seq<string>)

  /** Applies one hunk: copies unchanged lines up to the place that the header names, on whichever side
      it names it, checks the lines there and the printed lengths, and writes the new lines. */
  ghost function ApplyHunk(left: seq<string>, before: Progress, h: PrintedHunk): Progress {
    if before.Stuck? || (h.left.Omitted? && h.right.Omitted?) then Stuck
    else
      var skip := if h.left.Printed? then h.left.start - 1 - before.consumed else h.right.start - 1 - |before.output|;
      var from := before.consumed + skip;
      var oldLines, newLines := OldSide(h.lines), NewSide(h.lines);
      if skip < 0 || from + |oldLines| > |left| || left[from..from + |oldLines|] != oldLines then Stuck
      else if h.left.Printed? && h.left.length != |oldLines| then Stuck
      else if h.right.Printed? && h.right.length != |newLines| then Stuck
      else if h.right.Printed? && h.right.start != |before.output| + skip + 1 then Stuck
      else Reached(from + |oldLines|, before.output + left[before.consumed..from] + newLines)
  }

  ghost function ApplyHunks(left: seq<string>, hunks: seq<PrintedHunk>): (p: Progress)
    ensures p.Reached? ==> p.consumed <= |left|
  {
    if hunks == [] then Reached(0, [])
    else ApplyHunk(left, ApplyHunks(left, hunks[..|hunks| - 1]), hunks[|hunks| - 1])
  }

  /** The hunks apply to the left file, and with the rest copied over they give the right file. */
  ghost predicate IsPatch(hunks: seq<PrintedHunk>, left: seq<string>, right: seq<string>) {
    var p := ApplyHunks(left, hunks);
    p.Reached? && p.output + left[p.consumed..] == right
  }

  /** The lines begin with so many common ones, and then an edit. */
  ghost predicate Leads(lines: seq<Line>, leading: nat) {
    leading < |lines| && lines[leading].tag != ' ' && forall i :: 0 <= i < leading ==> lines[i].tag == ' '
  }

  /** The lines end with an edit, and then so many common ones. */
  ghost predicate Trails(lines: seq<Line>, trailing: nat) {
    && trailing < |lines| && lines[|lines| - trailing - 1].tag != ' '
    && forall i :: |lines| - trailing <= i < |lines| ==> lines[i].tag == ' '
  }

  /** Exactly the given numbers of common lines stand before the first and after the last edit. */
  ghost predicate Framed(lines: seq<Line>, leading: nat, trailing: nat) {
    leading + trailing < |lines| && Leads(lines, leading) && Trails(lines, trailing)
  }

  /** The hunk that ends at the given left line shows the wanted context, or as much as the file has; only
      the first hunk can begin with less. */
  ghost predicate HasContext(h: PrintedHunk, first: bool, end: nat, leftSize: nat, context: nat) {
    exists leading, trailing ::
      && 0 <= leading <= context && 0 <= trailing <= context && Framed(h.lines, leading, trailing)
      && (leading < context ==> first && end == |OldSide(h.lines)|)
      && (trailing < context ==> end == leftSize)
  }

  /** Two lines that carry edits, with only common lines between them. */
  ghost predicate Neighbours(lines: seq<Line>, i: int, j: int) {
    && 0 <= i < j < |lines| && lines[i].tag != ' ' && lines[j].tag != ' '
    && forall k :: i < k < j ==> lines[k].tag == ' '
  }

  /** Between neighbouring edits stand fewer common lines than the context of both needs. */
  ghost predicate EditsAreClose(lines: seq<Line>, context: nat) {
    forall i, j :: Neighbours(lines, i, j) ==> j - i - 1 < 2 * context
  }

  /** Within a run of edits all removed lines come before all added ones. */
  ghost predicate RemovesFirst(lines: seq<Line>) {
    forall i :: 0 <= i < |lines| - 1 && lines[i].tag == '+' ==> lines[i + 1].tag != '-'
  }

  /** The layout predicates at their limits: with a context of one, two edits may have one common line between them, but
      not two; and no added line stands right before a removed one. */
  lemma LayoutAtLimits(a: Line, b: Line, c: Line)
    requires a.tag == '-' && b.tag == ' ' && c.tag == '+'
    ensures EditsAreClose([a, b, c], 1) && !EditsAreClose([a, b, b, c], 1)
    ensures RemovesFirst([a, c]) && !RemovesFirst([c, a])
  {
    assert Neighbours([a, b, b, c], 0, 3);
    assert [c, a][0].tag == '+' && [c, a][0 + 1].tag == '-';
  }

  /** Fewer than twice the context common lines follow the last edit, if there is one. */
  ghost predicate TrailsBriefly(lines: seq<Line>, context: nat) {
    forall trailing: nat :: Trails(lines, trailing) ==> trailing < 2 * context
  }

  lemma PrefixNeighbours(lines: seq<Line>, n: nat, i: int, j: int)
    requires Neighbours(lines, i, j) && j < n <= |lines|
    ensures Neighbours(lines[..n], i, j)
  {
  }

  lemma CommonIsClose(lines: seq<Line>, line: Line, context: nat)
    requires EditsAreClose(lines, context) && line.tag == ' '
    ensures EditsAreClose(lines + [line], context)
  {
    LastAdded(lines, line);
    forall i, j | Neighbours(lines + [line], i, j) ensures j - i - 1 < 2 * context {
      PrefixNeighbours(lines + [line], |lines|, i, j);
    }
  }

  // ----- Facts about sides -----

  lemma TextsPush(a: seq<Line>, line: Line, tag: char)
    ensures TextsExcept(a + [line], tag) == TextsExcept(a, tag) + if line.tag == tag then [] else [line.text]
  {
    assert (a + [line])[..|a|] == a;
  }

  lemma {:induction false} TextsAppend(a: seq<Line>, b: seq<Line>, tag: char)
    ensures TextsExcept(a + b, tag) == TextsExcept(a, tag) + TextsExcept(b, tag)
  {
    if b == [] {
      assert a + b == a;
    } else {
      var n := |b| - 1;
      var last := if b[n].tag == tag then [] else [b[n].text];
      calc {
        TextsExcept(a + b, tag);
        { assert a + b == (a + b[..n]) + [b[n]]; TextsPush(a + b[..n], b[n], tag); }
        TextsExcept(a + b[..n], tag) + last;
        { TextsAppend(a, b[..n], tag); }
        (TextsExcept(a, tag) + TextsExcept(b[..n], tag)) + last;
        TextsExcept(a, tag) + (TextsExcept(b[..n], tag) + last);
        TextsExcept(a, tag) + TextsExcept(b, tag);
      }
    }
  }

  lemma {:induction false} TextsOfUniform(lines: seq<Line>, tag: char)
    requires forall i :: 0 <= i < |lines| ==> lines[i].tag == tag
    ensures TextsExcept(lines, tag) == []
  {
    if lines != [] {
      TextsOfUniform(lines[..|lines| - 1], tag);
    }
  }

  /** How many lines carry the tag. */
  ghost function Count(lines: seq<Line>, tag: char): nat {
    |lines| - |TextsExcept(lines, tag)|
  }

  // ----- The hunk under construction -----

  /** The representation of a hunk: finished lines, then the pending removed and added lines, with the
      number of lines of each kind. */
  datatype Pending =
    Pending(hunk: seq<Line>, removed: seq<Line>, added: seq<Line>, removes: nat, adds: nat, common: nat) {
    /** The lines as they would be printed now. */
    ghost function Lines(): seq<Line> {
      hunk + removed + added
    }

    ghost predicate Valid() {
      && (forall i :: 0 <= i < |removed| ==> removed[i].tag == '-')
      && (forall i :: 0 <= i < |added| ==> added[i].tag == '+')
      && (hunk == [] || hunk[|hunk| - 1].tag == ' ') && RemovesFirst(hunk)
      && |Lines()| == removes + adds + common
      && |OldSide(Lines())| == removes + common && |NewSide(Lines())| == adds + common
    }

    function HasEdits(): bool {
      adds != 0 || removes != 0
    }

    /** A common line closes the pending edits, removed lines first; an edit joins them. */
    ghost function Push(line: Line): Pending {
      if line.tag == ' ' then Pending(Lines() + [line], [], [], removes, adds, common + 1)
      else if line.tag == '-' then this.(removed := removed + [line], removes := removes + 1)
      else this.(added := added + [line], adds := adds + 1)
    }

    lemma PushSides(line: Line)
      requires line.tag != '-' || forall i :: 0 <= i < |added| ==> added[i].tag == '+'
      ensures OldSide(Push(line).Lines()) == OldSide(Lines()) + if line.tag == '+' then [] else [line.text]
      ensures NewSide(Push(line).Lines()) == NewSide(Lines()) + if line.tag == '-' then [] else [line.text]
      ensures |Push(line).Lines()| == |Lines()| + 1
    {
      if line.tag == '-' {
        var before := hunk + removed;
        assert Push(line).Lines() == (before + [line]) + added;
        TextsAppend(before, added, '+');
        TextsAppend(before, added, '-');
        TextsAppend(before + [line], added, '+');
        TextsAppend(before + [line], added, '-');
        TextsPush(before, line, '+');
        TextsPush(before, line, '-');
        TextsOfUniform(added, '+');
      } else {
        assert Push(line).Lines() == Lines() + [line];
        TextsPush(Lines(), line, '+');
        TextsPush(Lines(), line, '-');
      }
    }

    /** The edits are close to each other, and the pending ones to those before them. */
    ghost predicate Close(context: nat) {
      && EditsAreClose(hunk, context)
      && (removed + added != [] ==> context > 0 && TrailsBriefly(hunk, context))
    }

    lemma LinesAreClose(context: nat)
      requires Valid() && Close(context)
      ensures EditsAreClose(Lines(), context)
    {
      var lines, n := Lines(), |hunk|;
      assert forall k :: n <= k < |lines| ==> lines[k].tag != ' ';
      forall i, j | Neighbours(lines, i, j) ensures j - i - 1 < 2 * context {
        if j < n {
          PrefixNeighbours(lines, n, i, j);
          assert lines[..n] == hunk;
        } else if i < n {
          assert lines[n].tag != ' ' && j == n;
          assert hunk[i] == lines[i] && forall k :: i < k < n ==> hunk[k] == lines[k];
          assert Trails(hunk, n - i - 1);
        } else {
          assert lines[i + 1].tag != ' ';
        }
      }
    }

    /** An edit that follows few enough common lines, or a common line, keeps the edits close. */
    lemma PushClose(line: Line, context: nat)
      requires Valid() && Close(context)
      requires line.tag != ' ' && removed + added == [] ==> context > 0 && TrailsBriefly(hunk, context)
      ensures Push(line).Close(context)
    {
      if line.tag == ' ' {
        PushCommonClose(line, context);
      }
    }

    lemma PushCommonClose(line: Line, context: nat)
      requires Valid() && Close(context) && line.tag == ' '
      ensures Push(line).Close(context)
    {
      LinesAreClose(context);
      CommonIsClose(Lines(), line, context);
    }

    lemma RemovesComeFirst()
      requires Valid()
      ensures RemovesFirst(Lines())
    {
      var lines, n := Lines(), |hunk|;
      forall i | 0 <= i < |lines| - 1 && lines[i].tag == '+' ensures lines[i + 1].tag != '-' {
        if i < n {
          assert lines[i] == hunk[i];
          assert i + 1 < n && lines[i + 1] == hunk[i + 1];
        } else {
          assert i >= n + |removed| && lines[i + 1] == added[i + 1 - n - |removed|];
        }
      }
    }

    /** The hunk as it would be printed now. */
    ghost function ToPrint(leftStart: nat, rightStart: nat): PrintedHunk {
      PrintedHunk(if removes != 0 then Printed(leftStart, removes + common) else Omitted,
                  if adds != 0 then Printed(rightStart, adds + common) else Omitted, Lines())
    }

    /** Its ranges follow from its lines. */
    lemma RangesFitLines(leftStart: nat, rightStart: nat)
      requires Valid()
      ensures var h := ToPrint(leftStart, rightStart);
        && h.left == (if Count(h.lines, '-') > 0 then Printed(leftStart, |OldSide(h.lines)|) else Omitted)
        && h.right == (if Count(h.lines, '+') > 0 then Printed(rightStart, |NewSide(h.lines)|) else Omitted)
        && (HasEdits() <==> Count(h.lines, '-') + Count(h.lines, '+') > 0)
    {
    }

    lemma PushValid(line: Line)
      requires Valid()
      ensures Push(line).Valid()
    {
      PushSides(line);
    }
  }

  class Hunk {
    const leftStart: int
    const rightStart: int
    var adds: nat
    var removes: nat
    var common: nat
    var hunk: seq<Line>
    var hunkAdds: seq<Line>
    var hunkRemoves: seq<Line>

    ghost function Value(): Pending
      reads this
    {
      Pending(hunk, hunkRemoves, hunkAdds, removes, adds, common)
    }

    constructor (leftStart: int, rightStart: int)
      ensures this.leftStart == leftStart && this.rightStart == rightStart
      ensures Value() == Pending([], [], [], 0, 0, 0)
    {
      this.leftStart, this.rightStart := leftStart, rightStart;
      adds, removes, common := 0, 0, 0;
      hunk, hunkAdds, hunkRemoves := [], [], [];
    }

    predicate HasEdits()
      reads this
      ensures HasEdits() <==> Value().HasEdits()
    {
      adds != 0 || removes != 0
    }

    method FlushEdits()
      modifies this`hunk, this`hunkAdds, this`hunkRemoves
      ensures hunk == old(Value().Lines()) && hunkAdds == [] && hunkRemoves == []
    {
      hunk := hunk + hunkRemoves;
      hunkRemoves := [];
      hunk := hunk + hunkAdds;
      hunkAdds := [];
    }

    method PushLine(tag: Tag, text: string)
      modifies this
      ensures Value() == old(Value()).Push(Line(tag, text))
    {
      if tag == ' ' {
        common := common + 1;
        FlushEdits();
        hunk := hunk + [Line(' ', text)];
      } else if tag == '-' {
        removes := removes + 1;
        hunkRemoves := hunkRemoves + [Line('-', text)];
      } else {
        adds := adds + 1;
        hunkAdds := hunkAdds + [Line('+', text)];
      }
    }

    method PrintHeader() returns (ss: string)
      requires leftStart >= 0 && rightStart >= 0
      ensures var h := Value().ToPrint(leftStart, rightStart); ss == HeaderText(h.left, h.right) + "\n"
    {
      var left := if removes != 0 then Printed(leftStart, removes + common) else Omitted;
      var right := if adds != 0 then Printed(rightStart, adds + common) else Omitted;
      ghost var h := Value().ToPrint(leftStart, rightStart);
      assert h.left == left && h.right == right;
      var header := PrintRanges(left, right);
      assert header == HeaderText(h.left, h.right);
      ss := header + "\n";
    }

    method PrintTo() returns (os: string, ghost h: PrintedHunk)
      requires Value().Valid() && leftStart >= 0 && rightStart >= 0
      modifies this`hunk, this`hunkAdds, this`hunkRemoves
      ensures os == HunkText(h)
      ensures h.lines == old(Value().Lines()) && RemovesFirst(h.lines)
      ensures h.left == if Count(h.lines, '-') > 0 then Printed(leftStart, |OldSide(h.lines)|) else Omitted
      ensures h.right == if Count(h.lines, '+') > 0 then Printed(rightStart, |NewSide(h.lines)|) else Omitted
      ensures HasEdits() <==> Count(h.lines, '-') + Count(h.lines, '+') > 0
    {
      ghost var v := Value();
      h := v.ToPrint(leftStart, rightStart);
      v.RemovesComeFirst();
      v.RangesFitLines(leftStart, rightStart);
      os := PrintHeader();
      FlushEdits();
      assert hunk == h.lines;
      var lines := PrintLines();
      os := os + lines;
      assert os == HunkText(h);
    }

    method PrintLines() returns (os: string)
      ensures os == LinesText(hunk)
    {
      os := "";
      for i := 0 to |hunk|
        invariant os == LinesText(hunk[..i])
      {
        LastAdded(hunk[..i], hunk[i]);
        assert hunk[..i + 1] == hunk[..i] + [hunk[i]];
        os := os + (LineText(hunk[i]) + "\n");
      }
      assert hunk[..|hunk|] == hunk;
    }
  }

  // ----- Positions in a script -----

  ghost function LeftCount(edits: seq<EditType>): nat {
    if edits == [] then 0
    else LeftCount(edits[..|edits| - 1]) + if edits[|edits| - 1] == Add then 0 else 1
  }

  ghost function RightCount(edits: seq<EditType>): nat {
    if edits == [] then 0
    else RightCount(edits[..|edits| - 1]) + if edits[|edits| - 1] == Remove then 0 else 1
  }

  /** Before edit e of the script, l left lines and r right lines are accounted for. */
  ghost predicate AtEdit(edits: seq<EditType>, e: int, l: int, r: int) {
    0 <= e <= |edits| && l == LeftCount(edits[..e]) && r == RightCount(edits[..e])
  }

  lemma {:induction false} ScriptPrefix(edits: seq<EditType>, left: seq<string>, right: seq<string>,
                                        e: nat, l: nat, r: nat)
    requires IsScript(edits, left, right) && AtEdit(edits, e, l, r)
    ensures l <= |left| && r <= |right| && IsScript(edits[..e], left[..l], right[..r])
    ensures e == |edits| ==> l == |left| && r == |right|
    decreases |edits|
  {
    var n := |edits| - 1;
    if e == |edits| {
      assert edits[..e] == edits && left[..|left|] == left && right[..|right|] == right;
      if edits != [] {
        var left' := if edits[n] == Add then left else left[..|left| - 1];
        var right' := if edits[n] == Remove then right else right[..|right| - 1];
        ScriptPrefix(edits[..n], left', right', n, LeftCount(edits[..n][..n]), RightCount(edits[..n][..n]));
        assert edits[..n][..n] == edits[..n];
      }
    } else {
      var left' := if edits[n] == Add then left else left[..|left| - 1];
      var right' := if edits[n] == Remove then right else right[..|right| - 1];
      assert edits[..n][..e] == edits[..e];
      ScriptPrefix(edits[..n], left', right', e, l, r);
      assert left'[..l] == left[..l] && right'[..r] == right[..r];
    }
  }

  /** What the next edit of a script needs, and where it leads. */
  lemma ScriptStep(edits: seq<EditType>, left: seq<string>, right: seq<string>, e: nat, l: nat, r: nat)
    requires IsScript(edits, left, right) && AtEdit(edits, e, l, r) && e < |edits|
    ensures edits[e] != Add ==> l < |left|
    ensures edits[e] != Remove ==> r < |right|
    ensures edits[e] == Match ==> left[l] == right[r]
    ensures AtEdit(edits, e + 1, if edits[e] == Add then l else l + 1, if edits[e] == Remove then r else r + 1)
  {
    assert edits[..e + 1][..e] == edits[..e];
    ScriptPrefix(edits, left, right, e + 1, LeftCount(edits[..e + 1]), RightCount(edits[..e + 1]));
  }

  /** No edit within the next context positions. */
  ghost predicate FarFromEdits(edits: seq<EditType>, e: nat, context: nat) {
    forall k :: e <= k < |edits| && edits[k] != Match ==> k - e >= context
  }

  // ----- Building the diff -----

  /** The hunk shows these left and right lines; it began with prefix common lines, and unless it holds
      no edit yet, ends with suffix common lines. */
  ghost predicate Covers(v: Pending, oldSide: seq<string>, newSide: seq<string>, prefix: nat, suffix: nat) {
    && v.Valid() && OldSide(v.Lines()) == oldSide && NewSide(v.Lines()) == newSide
    && |v.hunk| >= prefix && (forall i :: 0 <= i < prefix ==> v.hunk[i].tag == ' ')
    && if v.HasEdits() then
         && (|v.hunk| > prefix ==> v.hunk[prefix].tag != ' ')
         && (if suffix == 0 then |v.removed + v.added| > 0
             else v.removed == v.added == [] && Framed(v.hunk, prefix, suffix))
       else
         |v.hunk| == prefix && v.removed == v.added == []
  }

  lemma CoversIsFramed(v: Pending, oldSide: seq<string>, newSide: seq<string>, prefix: nat, suffix: nat)
    requires Covers(v, oldSide, newSide, prefix, suffix) && v.HasEdits()
    ensures Framed(v.Lines(), prefix, suffix)
  {
    var lines := v.Lines();
    assert forall i :: 0 <= i < prefix ==> lines[i] == v.hunk[i];
    if suffix == 0 {
      assert lines[prefix].tag != ' ' && lines[|lines| - 1].tag != ' ';
    } else {
      assert lines == v.hunk;
    }
  }

  lemma FramedPush(lines: seq<Line>, prefix: nat, suffix: nat, line: Line)
    requires Framed(lines, prefix, suffix) && line.tag == ' '
    ensures Framed(lines + [line], prefix, suffix + 1)
  {
  }

  lemma CoversPrefixLine(v: Pending, oldSide: seq<string>, newSide: seq<string>, prefix: nat, text: string)
    requires Covers(v, oldSide, newSide, prefix, 0) && !v.HasEdits()
    ensures var v' := v.Push(Line(' ', text));
      Covers(v', oldSide + [text], newSide + [text], prefix + 1, 0) && !v'.HasEdits()
  {
    v.PushSides(Line(' ', text));
    v.PushValid(Line(' ', text));
  }

  lemma CoversMatch(v: Pending, oldSide: seq<string>, newSide: seq<string>, prefix: nat, suffix: nat, text: string)
    requires Covers(v, oldSide, newSide, prefix, suffix) && v.HasEdits()
    ensures var v' := v.Push(Line(' ', text));
      Covers(v', oldSide + [text], newSide + [text], prefix, suffix + 1) && v'.HasEdits()
  {
    var v' := v.Push(Line(' ', text));
    v.PushSides(Line(' ', text));
    v.PushValid(Line(' ', text));
    CoversIsFramed(v, oldSide, newSide, prefix, suffix);
    FramedPush(v.Lines(), prefix, suffix, Line(' ', text));
  }

  lemma CoversEdit(v: Pending, oldSide: seq<string>, newSide: seq<string>, prefix: nat, suffix: nat, line: Line)
    requires Covers(v, oldSide, newSide, prefix, suffix) && (line.tag == '-' || line.tag == '+')
    ensures var v' := v.Push(line);
      && v'.HasEdits()
      && Covers(v', if line.tag == '+' then oldSide else oldSide + [line.text],
                if line.tag == '-' then newSide else newSide + [line.text], prefix, 0)
  {
    v.PushSides(line);
    v.PushValid(line);
  }

  /** An edit after few enough common lines keeps the edits close. */
  lemma EditIsClose(v: Pending, oldSide: seq<string>, newSide: seq<string>, prefix: nat, suffix: nat,
                    line: Line, context: nat)
    requires Covers(v, oldSide, newSide, prefix, suffix) && v.Close(context) && suffix < 2 * context
    requires line.tag != ' '
    ensures v.Push(line).Close(context)
  {
    if v.removed + v.added == [] {
      assert v.HasEdits() ==> Trails(v.hunk, suffix);
    }
    v.PushClose(line, context);
  }

  /** The first edit from e on. */
  ghost predicate IsNextEdit(edits: seq<EditType>, e: nat, it: nat) {
    e <= it < |edits| && edits[it] != Match && forall k :: e <= k < it ==> edits[k] == Match
  }

  /** There is no next edit, or it is too far away to share the hunk. */
  method NextEditIsFar(edits: seq<EditType>, e: nat, context: nat) returns (far: bool, ghost it: nat)
    requires e <= |edits|
    ensures far <==> FarFromEdits(edits, e, context)
    ensures !far ==> IsNextEdit(edits, e, it) && it - e < context
  {
    var next := e;
    while next < |edits| && edits[next] == Match
      invariant e <= next <= |edits| && forall k :: e <= k < next ==> edits[k] == Match
    {
      next := next + 1;
    }
    return next == |edits| || next - e >= context, next;
  }

  /** Puts the context lines before position l into a fresh hunk. */
  method PushPrefix(hunk: Hunk, left: seq<string>, l: nat, prefix: nat)
    requires prefix <= l <= |left| && hunk.Value() == Pending([], [], [], 0, 0, 0)
    modifies hunk
    ensures Covers(hunk.Value(), left[l - prefix..l], left[l - prefix..l], prefix, 0) && !hunk.HasEdits()
  {
    var i := prefix;
    while i > 0
      invariant 0 <= i <= prefix && !hunk.HasEdits()
      invariant Covers(hunk.Value(), left[l - prefix..l - i], left[l - prefix..l - i], prefix - i, 0)
    {
      CoversPrefixLine(hunk.Value(), left[l - prefix..l - i], left[l - prefix..l - i], prefix - i, left[l - i]);
      assert left[l - prefix..l - i] + [left[l - i]] == left[l - prefix..l - i + 1];
      hunk.PushLine(' ', left[l - i]);
      i := i - 1;
    }
  }

  /** The line or lines of one edit. */
  method PushEdit(hunk: Hunk, edit: EditType, left: seq<string>, right: seq<string>, ghost context: nat, l: nat, r: nat,
                  ghost oldSide: seq<string>, ghost newSide: seq<string>, ghost prefix: nat, ghost suffix: nat)
    requires Covers(hunk.Value(), oldSide, newSide, prefix, suffix)
    requires (edit != Add ==> l < |left|) && (edit != Remove ==> r < |right|)
    requires if edit == Match then left[l] == right[r] && hunk.HasEdits() else suffix < 2 * context
    requires hunk.Value().Close(context)
    modifies hunk
    ensures hunk.HasEdits() && hunk.Value().Close(context)
    ensures Covers(hunk.Value(), if edit == Add then oldSide else oldSide + [left[l]],
                   if edit == Remove then newSide else newSide + [right[r]], prefix,
                   if edit == Match then suffix + 1 else 0)
  {
    ghost var v := hunk.Value();
    if edit == Match || edit == Remove || edit == Replace {
      if edit == Match {
        CoversMatch(v, oldSide, newSide, prefix, suffix, left[l]);
        v.PushClose(Line(' ', left[l]), context);
      } else {
        CoversEdit(v, oldSide, newSide, prefix, suffix, Line('-', left[l]));
        EditIsClose(v, oldSide, newSide, prefix, suffix, Line('-', left[l]), context);
      }
      hunk.PushLine(if edit == Match then ' ' else '-', left[l]);
    }
    if edit == Add || edit == Replace {
      if edit == Add {
        CoversEdit(v, oldSide, newSide, prefix, suffix, Line('+', right[r]));
        EditIsClose(v, oldSide, newSide, prefix, suffix, Line('+', right[r]), context);
      } else {
        CoversEdit(hunk.Value(), oldSide + [left[l]], newSide, prefix, 0, Line('+', right[r]));
        EditIsClose(hunk.Value(), oldSide + [left[l]], newSide, prefix, 0, Line('+', right[r]), context);
      }
      hunk.PushLine('+', right[r]);
    }
  }

  lemma SliceGrows(front: seq<string>, s: seq<string>, from: nat, to: nat, to': nat)
    requires from <= to <= to' <= |s| && to' <= to + 1
    ensures front + s[from..to'] == if to' == to then front + s[from..to] else front + s[from..to] + [s[to]]
  {
  }

  /** Midway through a hunk that began with the context lines from lo to l1. */
  ghost predicate Inside(v: Pending, edits: seq<EditType>, left: seq<string>, right: seq<string>,
                         lo: nat, l1: nat, r1: nat, e: nat, l: nat, r: nat, suffix: nat) {
    && AtEdit(edits, e, l, r) && lo <= l1 <= l <= |left| && r1 <= r <= |right|
    && Covers(v, [] + left[lo..l], left[lo..l1] + right[r1..r], l1 - lo, suffix)
  }

  lemma InsideStep(v: Pending, edits: seq<EditType>, left: seq<string>, right: seq<string>,
                   lo: nat, l1: nat, r1: nat, e: nat, l: nat, r: nat, suffix: nat)
    requires IsScript(edits, left, right) && e < |edits| && AtEdit(edits, e, l, r)
    requires lo <= l1 <= l <= |left| && r1 <= r <= |right|
    requires edits[e] != Add ==> l < |left|
    requires edits[e] != Remove ==> r < |right|
    requires Covers(v, if edits[e] == Add then [] + left[lo..l] else [] + left[lo..l] + [left[l]],
                    if edits[e] == Remove then left[lo..l1] + right[r1..r]
                    else left[lo..l1] + right[r1..r] + [right[r]],
                    l1 - lo, suffix)
    ensures Inside(v, edits, left, right, lo, l1, r1, e + 1, if edits[e] == Add then l else l + 1,
                   if edits[e] == Remove then r else r + 1, suffix)
  {
    ScriptStep(edits, left, right, e, l, r);
    SliceGrows([], left, lo, l, if edits[e] == Add then l else l + 1);
    SliceGrows(left[lo..l1], right, r1, r, if edits[e] == Remove then r else r + 1);
  }

  /** One step of filling a hunk. */
  method TakeEdit(hunk: Hunk, edits: seq<EditType>, left: seq<string>, right: seq<string>,
                  ghost context: nat, ghost lo: nat, ghost l1: nat, ghost r1: nat, e: nat, l: nat, r: nat, suffix: nat)
    returns (l': nat, r': nat, suffix': nat)
    requires IsScript(edits, left, right) && e < |edits|
    requires Inside(hunk.Value(), edits, left, right, lo, l1, r1, e, l, r, suffix) && hunk.Value().Close(context)
    requires if edits[e] == Match then hunk.HasEdits() else suffix < 2 * context
    modifies hunk
    ensures hunk.HasEdits() && hunk.Value().Close(context)
    ensures Inside(hunk.Value(), edits, left, right, lo, l1, r1, e + 1, l', r', suffix')
    ensures suffix' == if edits[e] == Match then suffix + 1 else 0
  {
    ScriptStep(edits, left, right, e, l, r);
    PushEdit(hunk, edits[e], left, right, context, l, r,
             [] + left[lo..l], left[lo..l1] + right[r1..r], l1 - lo, suffix);
    suffix' := if edits[e] == Match then suffix + 1 else 0;
    l' := if edits[e] == Add then l else l + 1;
    r' := if edits[e] == Remove then r else r + 1;
    InsideStep(hunk.Value(), edits, left, right, lo, l1, r1, e, l, r, suffix');
  }

  /** Midway through filling a hunk. With more than the wanted trailing context, the next edit is known to be near. */
  ghost predicate Filling(v: Pending, edits: seq<EditType>, left: seq<string>, right: seq<string>, context: nat,
                          lo: nat, e1: nat, l1: nat, r1: nat, e: nat, l: nat, r: nat, nSuffix: nat, it: nat) {
    && Inside(v, edits, left, right, lo, l1, r1, e, l, r, nSuffix) && v.Close(context)
    && e1 <= e && (v.HasEdits() <==> e1 < e) && (e1 < e ==> context > 0) && (e == e1 ==> nSuffix == 0)
    && (nSuffix > context ==> IsNextEdit(edits, e, it) && nSuffix + (it - e) < 2 * context)
  }

  /** A hunk holds all edits up to e: it is followed by the wanted context or the end, and then by no edit nearby. */
  ghost predicate Filled(v: Pending, edits: seq<EditType>, left: seq<string>, right: seq<string>, context: nat,
                         lo: nat, e1: nat, l1: nat, r1: nat, e: nat, l: nat, r: nat, suffix: nat) {
    && Inside(v, edits, left, right, lo, l1, r1, e, l, r, suffix) && v.Close(context)
    && e1 <= e && (v.HasEdits() <==> e1 < e) && (e1 < e <==> e1 < |edits| && context > 0)
    && FarFromEdits(edits, e, context) && suffix <= context && (e1 < e < |edits| ==> suffix == context)
  }

  lemma FillingIsFilled(v: Pending, edits: seq<EditType>, left: seq<string>, right: seq<string>, context: nat,
                        lo: nat, e1: nat, l1: nat, r1: nat, e: nat, l: nat, r: nat, nSuffix: nat, it: nat)
    requires Filling(v, edits, left, right, context, lo, e1, l1, r1, e, l, r, nSuffix, it)
    requires e == |edits| || (nSuffix >= context && FarFromEdits(edits, e, context))
    ensures Filled(v, edits, left, right, context, lo, e1, l1, r1, e, l, r, nSuffix)
  {
  }

  /** One round of filling a hunk, unless the next edit is far. */
  method FillOne(hunk: Hunk, edits: seq<EditType>, left: seq<string>, right: seq<string>, context: nat,
                 ghost lo: nat, ghost e1: nat, ghost l1: nat, ghost r1: nat,
                 e: nat, l: nat, r: nat, nSuffix: nat, ghost it: nat)
    returns (far: bool, e': nat, l': nat, r': nat, nSuffix': nat, ghost it': nat)
    requires IsScript(edits, left, right) && e1 <= e < |edits| && edits[e1] != Match
    requires Filling(hunk.Value(), edits, left, right, context, lo, e1, l1, r1, e, l, r, nSuffix, it)
    modifies hunk
    ensures e' == (if far then e else e + 1) && (far ==> nSuffix' >= context && FarFromEdits(edits, e', context))
    ensures Filling(hunk.Value(), edits, left, right, context, lo, e1, l1, r1, e', l', r', nSuffix', it')
  {
    far, e', l', r', nSuffix', it' := false, e, l, r, nSuffix, it;
    if nSuffix >= context {
      ghost var next;
      far, next := NextEditIsFar(edits, e, context);
      if far {
        return;
      }
      it' := next;
    }
    l', r', nSuffix' := TakeEdit(hunk, edits, left, right, context, lo, l1, r1, e, l, r, nSuffix);
    e' := e + 1;
  }

  /** Takes edits into the hunk until enough common lines follow the last one, or the script is over. */
  method FillHunk(hunk: Hunk, edits: seq<EditType>, left: seq<string>, right: seq<string>, context: nat,
                  ghost lo: nat, e1: nat, l1: nat, r1: nat)
    returns (e: nat, l: nat, r: nat, ghost suffix: nat)
    requires IsScript(edits, left, right) && (e1 < |edits| ==> edits[e1] != Match)
    requires Inside(hunk.Value(), edits, left, right, lo, l1, r1, e1, l1, r1, 0) && !hunk.HasEdits()
    modifies hunk
    ensures Filled(hunk.Value(), edits, left, right, context, lo, e1, l1, r1, e, l, r, suffix)
  {
    e, l, r := e1, l1, r1;
    var nSuffix := 0;
    ghost var it := e1;
    NothingFilled(hunk.Value(), edits, left, right, context, lo, e, l, r);
    while e < |edits|
      invariant Filling(hunk.Value(), edits, left, right, context, lo, e1, l1, r1, e, l, r, nSuffix, it)
    {
      var far;
      far, e, l, r, nSuffix, it := FillOne(hunk, edits, left, right, context, lo, e1, l1, r1, e, l, r, nSuffix, it);
      if far {
        break;
      }
    }
    suffix := nSuffix;
    FillingIsFilled(hunk.Value(), edits, left, right, context, lo, e1, l1, r1, e, l, r, nSuffix, it);
  }

  lemma NothingFilled(v: Pending, edits: seq<EditType>, left: seq<string>, right: seq<string>, context: nat,
                      lo: nat, e: nat, l: nat, r: nat)
    requires Inside(v, edits, left, right, lo, l, r, e, l, r, 0) && !v.HasEdits()
    ensures Filling(v, edits, left, right, context, lo, e, l, r, e, l, r, 0, e)
  {
    assert forall i :: 0 <= i < |v.hunk| ==> v.hunk[i].tag == ' ';
  }

  /** The script's matches from edit e0 to edit e. */
  ghost predicate Skipped(edits: seq<EditType>, left: seq<string>, right: seq<string>,
                          e0: nat, l0: nat, r0: nat, e: nat, l: nat, r: nat) {
    && e0 <= e <= |edits| && l - l0 == e - e0 == r - r0
    && l <= |left| && r <= |right| && left[l0..l] == right[r0..r]
    && forall k :: e0 <= k < e ==> edits[k] == Match
  }

  lemma SkipStep(edits: seq<EditType>, left: seq<string>, right: seq<string>,
                 e0: nat, l0: nat, r0: nat, e: nat, l: nat, r: nat)
    requires IsScript(edits, left, right) && AtEdit(edits, e, l, r) && e < |edits| && edits[e] == Match
    requires Skipped(edits, left, right, e0, l0, r0, e, l, r)
    ensures AtEdit(edits, e + 1, l + 1, r + 1)
    ensures Skipped(edits, left, right, e0, l0, r0, e + 1, l + 1, r + 1)
  {
    ScriptStep(edits, left, right, e, l, r);
    assert left[l0..l + 1] == left[l0..l] + [left[l]];
    assert right[r0..r + 1] == right[r0..r] + [right[r]];
  }

  method SkipMatches(edits: seq<EditType>, left: seq<string>, right: seq<string>, e0: nat, l0: nat, r0: nat)
    returns (e: nat, l: nat, r: nat)
    requires IsScript(edits, left, right) && AtEdit(edits, e0, l0, r0) && l0 <= |left| && r0 <= |right|
    ensures AtEdit(edits, e, l, r) && Skipped(edits, left, right, e0, l0, r0, e, l, r)
    ensures e < |edits| ==> edits[e] != Match
  {
    e, l, r := e0, l0, r0;
    while e < |edits| && edits[e] == Match
      invariant AtEdit(edits, e, l, r) && Skipped(edits, left, right, e0, l0, r0, e, l, r)
    {
      SkipStep(edits, left, right, e0, l0, r0, e, l, r);
      e, l, r := e + 1, l + 1, r + 1;
    }
  }

  /** A hunk whose header names its place and lengths applies there. */
  lemma AppliesAt(left: seq<string>, before: Progress, h: PrintedHunk, from: nat)
    requires before.Reached? && before.consumed <= from && from + |OldSide(h.lines)| <= |left|
    requires left[from..from + |OldSide(h.lines)|] == OldSide(h.lines)
    requires h.left == Omitted || h.left == Printed(from + 1, |OldSide(h.lines)|)
    requires h.right == Omitted
             || h.right == Printed(|before.output| + (from - before.consumed) + 1, |NewSide(h.lines)|)
    requires h.left.Printed? || h.right.Printed?
    ensures ApplyHunk(left, before, h) ==
      Reached(from + |OldSide(h.lines)|, before.output + left[before.consumed..from] + NewSide(h.lines))
  {
  }

  /** A finished hunk applies where the previous ones left off, and leaves off at its own end. */
  lemma HunkApplies(left: seq<string>, right: seq<string>, before: Progress, h: PrintedHunk,
                    l0: nat, r0: nat, l1: nat, r1: nat, l: nat, r: nat, prefix: nat)
    requires l0 <= l1 - prefix && r0 <= r1 - prefix && l1 <= l <= |left| && r1 <= r <= |right|
    requires l1 - l0 == r1 - r0 && left[l0..l1] == right[r0..r1]
    requires before == Reached(l0, right[..r0])
    requires OldSide(h.lines) == [] + left[l1 - prefix..l]
    requires NewSide(h.lines) == left[l1 - prefix..l1] + right[r1..r]
    requires h.left == Omitted || h.left == Printed(l1 - prefix + 1, |OldSide(h.lines)|)
    requires h.right == Omitted || h.right == Printed(r1 - prefix + 1, |NewSide(h.lines)|)
    requires h.left.Printed? || h.right.Printed?
    ensures ApplyHunk(left, before, h) == Reached(l, right[..r])
  {
    var from := l1 - prefix;
    assert |right[..r0]| + (from - l0) + 1 == r1 - prefix + 1;
    assert [] + left[from..l] == left[from..l];
    AppliesAt(left, before, h, from);
    CopiedAndShown(left, right, l0, r0, from, l1, r1, r);
  }

  /** The lines copied before a hunk and the hunk's new side continue the right file. */
  lemma CopiedAndShown(left: seq<string>, right: seq<string>, l0: nat, r0: nat, lo: nat, l1: nat, r1: nat, r: nat)
    requires l0 <= lo <= l1 <= |left| && r0 <= r1 <= r <= |right| && left[l0..l1] == right[r0..r1]
    ensures right[..r0] + left[l0..lo] + (left[lo..l1] + right[r1..r]) == right[..r]
  {
    Parts(left, l0, lo, l1);
    Parts(right, 0, r0, r1);
    Parts(right, 0, r1, r);
    Regroup(right[..r0], left[l0..lo], left[lo..l1] + right[r1..r]);
    Regroup(left[l0..lo], left[lo..l1], right[r1..r]);
    Regroup(right[..r0], left[l0..l1], right[r1..r]);
  }

  lemma Parts(s: seq<string>, a: nat, b: nat, c: nat)
    requires a <= b <= c <= |s|
    ensures s[a..b] + s[b..c] == s[a..c]
  {
  }

  /** Every hunk keeps removed lines before added ones, shows the wanted context around its edits, and joins only
      edits whose contexts meet. */
  ghost predicate WellLaidOut(left: seq<string>, hunks: seq<PrintedHunk>, context: nat) {
    hunks == [] ||
    (var h := hunks[|hunks| - 1];
     && WellLaidOut(left, hunks[..|hunks| - 1], context)
     && ApplyHunks(left, hunks).Reached? && RemovesFirst(h.lines) && EditsAreClose(h.lines, context)
     && HasContext(h, |hunks| == 1, ApplyHunks(left, hunks).consumed, |left|, context))
  }

  /** The hunks printed before edit e, which follows the last of them. */
  ghost predicate Emitted(hunks: seq<PrintedHunk>, edits: seq<EditType>, left: seq<string>, right: seq<string>,
                          context: nat, e: nat, l: nat, r: nat) {
    && AtEdit(edits, e, l, r) && l <= |left| && r <= |right|
    && ApplyHunks(left, hunks) == Reached(l, right[..r]) && WellLaidOut(left, hunks, context)
    && ((e == l == r == 0 && hunks == []) || (context > 0 && FarFromEdits(edits, e, context)))
  }

  /** The next hunk: what it shows and how it is framed. */
  ghost predicate NextHunk(h: PrintedHunk, edits: seq<EditType>, left: seq<string>, right: seq<string>, context: nat,
                           l1: nat, r1: nat, e: nat, l: nat, r: nat, prefix: nat, suffix: nat) {
    && AtEdit(edits, e, l, r) && prefix <= l1 <= l <= |left| && prefix <= r1 <= r <= |right|
    && OldSide(h.lines) == [] + left[l1 - prefix..l]
    && NewSide(h.lines) == left[l1 - prefix..l1] + right[r1..r]
    && (h.left == Omitted || h.left == Printed(l1 - prefix + 1, |OldSide(h.lines)|))
    && (h.right == Omitted || h.right == Printed(r1 - prefix + 1, |NewSide(h.lines)|))
    && (h.left.Printed? || h.right.Printed?)
    && RemovesFirst(h.lines) && EditsAreClose(h.lines, context) && Framed(h.lines, prefix, suffix)
    && prefix == (if l1 < context then l1 else context)
    && suffix <= context && (e < |edits| ==> suffix == context)
  }

  /** The hunks show no other lines than those of the two files. */
  ghost predicate ShowOnly(hunks: seq<PrintedHunk>, left: seq<string>, right: seq<string>) {
    forall i, j :: 0 <= i < |hunks| && 0 <= j < |hunks[i].lines| ==> hunks[i].lines[j].text in left + right
  }

  lemma ReadBack(hunks: seq<PrintedHunk>, left: seq<string>, right: seq<string>)
    requires ShowOnly(hunks, left, right)
    ensures (forall line :: line in left + right ==> IsPlain(line)) ==> ReadDiff(DiffText(hunks)) == Some(hunks)
  {
    DiffReadsBackExactly(hunks);
  }

  lemma {:induction false} ShownOnASide(lines: seq<Line>, j: nat)
    requires j < |lines|
    ensures lines[j].text in OldSide(lines) + NewSide(lines)
  {
    if j < |lines| - 1 {
      ShownOnASide(lines[..|lines| - 1], j);
    }
  }

  /** So many common lines come before an edit that the right file has the context, too. */
  lemma ContextFits(hunks: seq<PrintedHunk>, edits: seq<EditType>, left: seq<string>, right: seq<string>,
                    context: nat, e0: nat, l0: nat, r0: nat, e1: nat, l1: nat, r1: nat)
    requires Emitted(hunks, edits, left, right, context, e0, l0, r0)
    requires Skipped(edits, left, right, e0, l0, r0, e1, l1, r1)
    ensures e1 < |edits| && edits[e1] != Match ==> context <= r1 || l1 == r1
  {
  }

  lemma HunkPrinted(hunks: seq<PrintedHunk>, h: PrintedHunk, edits: seq<EditType>, left: seq<string>,
                    right: seq<string>, context: nat, l1: nat, r1: nat, e: nat, l: nat, r: nat,
                    prefix: nat, suffix: nat)
    requires NextHunk(h, edits, left, right, context, l1, r1, e, l, r, prefix, suffix)
    requires ShowOnly(hunks, left, right)
    ensures ShowOnly(hunks + [h], left, right) && DiffText(hunks + [h]) == DiffText(hunks) + HunkText(h)
  {
    LastAdded(hunks, h);
    forall j | 0 <= j < |h.lines| ensures h.lines[j].text in left + right {
      ShownOnASide(h.lines, j);
    }
  }

  lemma HunkEmitted(hunks: seq<PrintedHunk>, h: PrintedHunk,
                    edits: seq<EditType>, left: seq<string>, right: seq<string>,
                    context: nat, e0: nat, l0: nat, r0: nat, e1: nat, l1: nat, r1: nat,
                    e: nat, l: nat, r: nat, prefix: nat, suffix: nat)
    requires IsScript(edits, left, right) && context > 0
    requires Emitted(hunks, edits, left, right, context, e0, l0, r0)
    requires Skipped(edits, left, right, e0, l0, r0, e1, l1, r1) && e1 < |edits| && edits[e1] != Match
    requires NextHunk(h, edits, left, right, context, l1, r1, e, l, r, prefix, suffix)
    requires FarFromEdits(edits, e, context)
    ensures Emitted(hunks + [h], edits, left, right, context, e, l, r)
  {
    assert e1 == l1 == r1 || e1 - e0 >= context;
    HunkApplies(left, right, ApplyHunks(left, hunks), h, l0, r0, l1, r1, l, r, prefix);
    assert (hunks + [h])[..|hunks|] == hunks;
    if e == |edits| {
      ScriptPrefix(edits, left, right, e, l, r);
    }
  }

  /** Nothing but matches is left, so the hunks so far are the whole patch. */
  lemma AllEmitted(hunks: seq<PrintedHunk>, edits: seq<EditType>, left: seq<string>, right: seq<string>,
                   context: nat, e0: nat, l0: nat, r0: nat, e: nat, l: nat, r: nat)
    requires IsScript(edits, left, right) && Emitted(hunks, edits, left, right, context, e0, l0, r0)
    requires Skipped(edits, left, right, e0, l0, r0, e, l, r) && AtEdit(edits, e, l, r) && e == |edits|
    ensures IsPatch(hunks, left, right)
  {
    ScriptPrefix(edits, left, right, e, l, r);
    assert l == |left| && r == |right|;
    TailIsSame(left, right, l0, r0);
  }

  /** Without context no hunk is ever printed. */
  lemma NoneEmitted(hunks: seq<PrintedHunk>, edits: seq<EditType>, left: seq<string>, right: seq<string>,
                    e: nat, l: nat, r: nat)
    requires Emitted(hunks, edits, left, right, 0, e, l, r)
    ensures IsPatch(hunks, left, right) <==> left == right
  {
    assert [] + left[0..] == left;
  }

  lemma TrailsUniquely(lines: seq<Line>, a: nat, b: nat)
    requires Trails(lines, a) && Trails(lines, b)
    ensures a == b
  {
  }

  lemma LeadsUniquely(lines: seq<Line>, a: nat, b: nat)
    requires Leads(lines, a) && Leads(lines, b)
    ensures a == b
  {
  }

  lemma {:induction false} LeadingAreOld(lines: seq<Line>, leading: nat)
    requires leading <= |lines| && forall i :: 0 <= i < leading ==> lines[i].tag == ' '
    ensures |OldSide(lines)| >= leading
  {
    if leading < |lines| {
      LeadingAreOld(lines[..|lines| - 1], leading);
    } else if lines != [] {
      LeadingAreOld(lines[..|lines| - 1], leading - 1);
    }
  }

  /** Edits whose contexts would meet share a hunk: between the last edit of a hunk and the first of the next one,
      counting shown and skipped lines, stand at least as many common lines as the context of both needs. */
  lemma HunksAreApart(left: seq<string>, hunks: seq<PrintedHunk>, context: nat, i: nat, trailing: nat, leading: nat)
    requires WellLaidOut(left, hunks, context) && i + 1 < |hunks|
    requires Trails(hunks[i].lines, trailing) && Leads(hunks[i + 1].lines, leading)
    ensures var end, next := ApplyHunks(left, hunks[..i + 1]), ApplyHunks(left, hunks[..i + 2]);
      && end.Reached? && next.Reached?
      && trailing + (next.consumed - |OldSide(hunks[i + 1].lines)| - end.consumed) + leading >= 2 * context
  {
    var front := hunks[..i + 2];
    FrontIsWellLaidOut(left, hunks, context, i + 2);
    PrefixOfPrefix(hunks, i + 2, i + 1);
    assert front[i] == hunks[i] && front[i + 1] == hunks[i + 1];
    NextIsApart(left, front, context, trailing, leading);
  }

  lemma {:induction false} FrontIsWellLaidOut(left: seq<string>, hunks: seq<PrintedHunk>, context: nat, n: nat)
    requires WellLaidOut(left, hunks, context) && n <= |hunks|
    ensures WellLaidOut(left, hunks[..n], context)
  {
    if n == |hunks| {
      assert hunks[..n] == hunks;
    } else {
      FrontIsWellLaidOut(left, hunks[..|hunks| - 1], context, n);
      PrefixOfPrefix(hunks, |hunks| - 1, n);
    }
  }

  lemma PrefixOfPrefix<T>(s: seq<T>, n: nat, k: nat)
    requires k <= n <= |s|
    ensures s[..n][..k] == s[..k]
  {
  }

  lemma NextIsApart(left: seq<string>, hunks: seq<PrintedHunk>, context: nat, trailing: nat, leading: nat)
    requires WellLaidOut(left, hunks, context) && |hunks| >= 2
    requires Trails(hunks[|hunks| - 2].lines, trailing) && Leads(hunks[|hunks| - 1].lines, leading)
    ensures var end, next := ApplyHunks(left, hunks[..|hunks| - 1]), ApplyHunks(left, hunks);
      && end.Reached? && next.Reached?
      && trailing + (next.consumed - |OldSide(hunks[|hunks| - 1].lines)| - end.consumed) + leading >= 2 * context
  {
    var before, h := hunks[..|hunks| - 1], hunks[|hunks| - 1];
    var end, next := ApplyHunks(left, before), ApplyHunks(left, hunks);
    assert before[|before| - 1] == hunks[|hunks| - 2];
    var t' :| 0 <= t' <= context && Framed(h.lines, context, t');
    LeadsUniquely(h.lines, leading, context);
    var l, t :| 0 <= l <= context && 0 <= t <= context && Framed(before[|before| - 1].lines, l, t)
      && (t < context ==> end.consumed == |left|);
    TrailsUniquely(before[|before| - 1].lines, trailing, t);
    LeadingAreOld(h.lines, leading);
  }

  lemma TailIsSame(left: seq<string>, right: seq<string>, l0: nat, r0: nat)
    requires l0 <= |left| && r0 <= |right| && left[l0..|left|] == right[r0..|right|]
    ensures right[..r0] + left[l0..] == right
  {
  }

  lemma PrefixIsInside(v: Pending, edits: seq<EditType>, left: seq<string>, right: seq<string>,
                       lo: nat, e: nat, l: nat, r: nat)
    requires AtEdit(edits, e, l, r) && lo <= l <= |left| && r <= |right|
    requires Covers(v, left[lo..l], left[lo..l], l - lo, 0)
    ensures Inside(v, edits, left, right, lo, l, r, e, l, r, 0)
  {
    assert left[lo..l] + right[r..r] == left[lo..l] == [] + left[lo..l];
  }

  lemma InsideIsFramed(v: Pending, edits: seq<EditType>, left: seq<string>, right: seq<string>,
                       lo: nat, l1: nat, r1: nat, e: nat, l: nat, r: nat, suffix: nat)
    requires Inside(v, edits, left, right, lo, l1, r1, e, l, r, suffix) && v.HasEdits()
    ensures v.Valid() && Framed(v.Lines(), l1 - lo, suffix) && Count(v.Lines(), '-') + Count(v.Lines(), '+') > 0
    ensures OldSide(v.Lines()) == [] + left[lo..l] && NewSide(v.Lines()) == left[lo..l1] + right[r1..r]
  {
    CoversIsFramed(v, [] + left[lo..l], left[lo..l1] + right[r1..r], l1 - lo, suffix);
  }

  /** A hunk that has been filled and printed with these ranges is the next one. */
  lemma InsideIsNext(v: Pending, h: PrintedHunk, edits: seq<EditType>, left: seq<string>, right: seq<string>,
                     context: nat, l1: nat, r1: nat, e: nat, l: nat, r: nat, prefix: nat, suffix: nat)
    requires prefix <= l1 && prefix <= r1 && prefix == (if l1 < context then l1 else context)
    requires Inside(v, edits, left, right, l1 - prefix, l1, r1, e, l, r, suffix) && v.HasEdits() && v.Close(context)
    requires suffix <= context && (e < |edits| ==> suffix == context)
    requires h.lines == v.Lines() && RemovesFirst(h.lines)
    requires h.left == if Count(h.lines, '-') > 0 then Printed(l1 - prefix + 1, |OldSide(h.lines)|) else Omitted
    requires h.right == if Count(h.lines, '+') > 0 then Printed(r1 - prefix + 1, |NewSide(h.lines)|) else Omitted
    ensures NextHunk(h, edits, left, right, context, l1, r1, e, l, r, prefix, suffix)
  {
    InsideIsFramed(v, edits, left, right, l1 - prefix, l1, r1, e, l, r, suffix);
    v.LinesAreClose(context);
  }

  /** Prints a hunk that has been filled. */
  method PrintHunk(hunk: Hunk, ghost edits: seq<EditType>, ghost left: seq<string>, ghost right: seq<string>,
                   ghost context: nat, ghost e1: nat, ghost l1: nat, ghost r1: nat, ghost e: nat, ghost l: nat,
                   ghost r: nat, ghost prefix: nat, ghost suffix: nat)
    returns (os: string, ghost h: PrintedHunk)
    requires prefix <= l1 && prefix <= r1 && prefix == (if l1 < context then l1 else context)
    requires Filled(hunk.Value(), edits, left, right, context, l1 - prefix, e1, l1, r1, e, l, r, suffix)
    requires hunk.HasEdits() && hunk.leftStart == l1 - prefix + 1 && hunk.rightStart == r1 - prefix + 1
    modifies hunk
    ensures os == HunkText(h)
    ensures NextHunk(h, edits, left, right, context, l1, r1, e, l, r, prefix, suffix)
  {
    ghost var v := hunk.Value();
    InsideIsFramed(v, edits, left, right, l1 - prefix, l1, r1, e, l, r, suffix);
    os, h := hunk.PrintTo();
    InsideIsNext(v, h, edits, left, right, context, l1, r1, e, l, r, prefix, suffix);
  }

  /** Builds and prints the hunk around the edit at e1, if there is one to show. */
  method BuildHunk(edits: seq<EditType>, left: seq<string>, right: seq<string>, context: nat, e1: nat, l1: nat, r1: nat)
    returns (done: bool, os: string, ghost h: PrintedHunk, e: nat, l: nat, r: nat, ghost prefix: nat, ghost suffix: nat)
    requires IsScript(edits, left, right) && AtEdit(edits, e1, l1, r1) && l1 <= |left| && r1 <= |right|
    requires e1 < |edits| ==> edits[e1] != Match && (context <= r1 || l1 == r1)
    ensures done <==> e1 == |edits| || context == 0
    ensures !done ==> e1 < e && FarFromEdits(edits, e, context)
    ensures !done ==> os == HunkText(h)
    ensures !done ==> NextHunk(h, edits, left, right, context, l1, r1, e, l, r, prefix, suffix)
  {
    var hunk;
    hunk, e, l, r, prefix, suffix := NewHunk(edits, left, right, context, e1, l1, r1);
    if !hunk.HasEdits() {
      done, os, h := true, "", PrintedHunk(Omitted, Omitted, []);
      return;
    }
    os, h := PrintHunk(hunk, edits, left, right, context, e1, l1, r1, e, l, r, prefix, suffix);
    done := false;
  }

  /** A hunk with the context before the edit at e1, filled as far as it goes. */
  method NewHunk(edits: seq<EditType>, left: seq<string>, right: seq<string>, context: nat, e1: nat, l1: nat, r1: nat)
    returns (hunk: Hunk, e: nat, l: nat, r: nat, ghost prefix: nat, ghost suffix: nat)
    requires IsScript(edits, left, right) && AtEdit(edits, e1, l1, r1) && l1 <= |left| && r1 <= |right|
    requires e1 < |edits| ==> edits[e1] != Match
    ensures fresh(hunk) && prefix <= l1 && prefix == if l1 < context then l1 else context
    ensures hunk.leftStart == l1 - prefix + 1 && hunk.rightStart == r1 - prefix + 1
    ensures Filled(hunk.Value(), edits, left, right, context, l1 - prefix, e1, l1, r1, e, l, r, suffix)
  {
    var prefixContext := if l1 < context then l1 else context;
    prefix := prefixContext;
    hunk := new Hunk(l1 - prefixContext + 1, r1 - prefixContext + 1);
    PushPrefix(hunk, left, l1, prefixContext);
    PrefixIsInside(hunk.Value(), edits, left, right, l1 - prefix, e1, l1, r1);
    e, l, r, suffix := FillHunk(hunk, edits, left, right, context, l1 - prefix, e1, l1, r1);
  }

  /** The text written before edit e. */
  ghost predicate Written(ss: string, hunks: seq<PrintedHunk>, edits: seq<EditType>,
                          left: seq<string>, right: seq<string>, context: nat, e: nat, l: nat, r: nat) {
    && ss == DiffText(hunks) && ShowOnly(hunks, left, right)
    && Emitted(hunks, edits, left, right, context, e, l, r)
  }

  lemma HunkWritten(ss: string, hunks: seq<PrintedHunk>, h: PrintedHunk,
                    edits: seq<EditType>, left: seq<string>, right: seq<string>,
                    context: nat, e0: nat, l0: nat, r0: nat, e1: nat, l1: nat, r1: nat,
                    e: nat, l: nat, r: nat, prefix: nat, suffix: nat)
    requires IsScript(edits, left, right) && context > 0
    requires Written(ss, hunks, edits, left, right, context, e0, l0, r0)
    requires Skipped(edits, left, right, e0, l0, r0, e1, l1, r1) && e1 < |edits| && edits[e1] != Match
    requires NextHunk(h, edits, left, right, context, l1, r1, e, l, r, prefix, suffix)
    requires FarFromEdits(edits, e, context)
    ensures Written(ss + HunkText(h), hunks + [h], edits, left, right, context, e, l, r)
  {
    HunkEmitted(hunks, h, edits, left, right, context, e0, l0, r0, e1, l1, r1, e, l, r, prefix, suffix);
    HunkPrinted(hunks, h, edits, left, right, context, l1, r1, e, l, r, prefix, suffix);
  }

  /** The text of these hunks is a unified diff: a reader gets the hunks back unless a line of the files holds a line
      break or a NUL; they are well laid out, and a patch exactly if there is context or nothing to show. */
  ghost predicate IsUnifiedDiff(ss: string, hunks: seq<PrintedHunk>, left: seq<string>, right: seq<string>,
                                context: nat) {
    && ss == DiffText(hunks)
    && ((forall line :: line in left + right ==> IsPlain(line)) ==> ReadDiff(ss) == Some(hunks))
    && (IsPatch(hunks, left, right) <==> context > 0 || left == right)
    && WellLaidOut(left, hunks, context)
  }

  /** Nothing but matches is left, or nothing is ever shown. */
  lemma AllWritten(ss: string, hunks: seq<PrintedHunk>, edits: seq<EditType>, left: seq<string>, right: seq<string>,
                   context: nat, e0: nat, l0: nat, r0: nat, e: nat, l: nat, r: nat)
    requires IsScript(edits, left, right) && Written(ss, hunks, edits, left, right, context, e0, l0, r0)
    requires Skipped(edits, left, right, e0, l0, r0, e, l, r) && AtEdit(edits, e, l, r)
    requires e == |edits| || context == 0
    ensures IsUnifiedDiff(ss, hunks, left, right, context)
  {
    if context == 0 {
      NoneEmitted(hunks, edits, left, right, e0, l0, r0);
    } else {
      AllEmitted(hunks, edits, left, right, context, e0, l0, r0, e, l, r);
    }
    ReadBack(hunks, left, right);
  }

  lemma LastWritten(ss: string, hunks: seq<PrintedHunk>, edits: seq<EditType>, left: seq<string>, right: seq<string>,
                    context: nat, e: nat, l: nat, r: nat)
    requires IsScript(edits, left, right) && Written(ss, hunks, edits, left, right, context, e, l, r) && e == |edits|
    ensures IsUnifiedDiff(ss, hunks, left, right, context)
  {
    AllWritten(ss, hunks, edits, left, right, context, e, l, r, e, l, r);
  }

  method CreateUnifiedDiff(left: seq<string>, right: seq<string>, context: nat)
    returns (ss: string)
    ensures exists hunks :: IsUnifiedDiff(ss, hunks, left, right, context)
  {
    var edits := CalculateOptimalStringEdits(left, right);
    var l: nat, r: nat, e: nat := 0, 0, 0;
    ghost var hunks: seq<PrintedHunk> := [];
    ss := "";
    while e < |edits|
      invariant Written(ss, hunks, edits, left, right, context, e, l, r)
      decreases |edits| - e
    {
      var e1, l1, r1 := SkipMatches(edits, left, right, e, l, r);
      ContextFits(hunks, edits, left, right, context, e, l, r, e1, l1, r1);
      var done, os, h, e2, l2, r2, prefix, suffix := BuildHunk(edits, left, right, context, e1, l1, r1);
      if done {
        AllWritten(ss, hunks, edits, left, right, context, e, l, r, e1, l1, r1);
        return;
      }
      HunkWritten(ss, hunks, h, edits, left, right, context, e, l, r, e1, l1, r1, e2, l2, r2, prefix, suffix);
      ss, hunks := ss + os, hunks + [h];
      e, l, r := e2, l2, r2;
    }
    LastWritten(ss, hunks, edits, left, right, context, e, l, r);
  }
}
