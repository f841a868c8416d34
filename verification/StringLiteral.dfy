/** Printing bytes as a C++ string literal, and reading such literals back by sections 5.13.3 and 5.13.5
    of ISO/IEC 14882:2017. Bytes are characters below 256. */
module StringLiteral {
  import opened Hexadecimal
  import opened Text

  ghost predicate IsBytes(s: string) {
    forall i :: 0 <= i < |s| ==> s[i] < 256 as char
  }

  const ALERT := 7 as char
  const BACKSPACE := 8 as char
  const TAB := 9 as char
  const NEWLINE := 10 as char
  const RETURN := 13 as char

  // ----- Printing -----

  datatype CharFormat = AsIs | HexEscape | SpecialEscape

  predicate IsPrintableAscii(c: char) {
    0x20 as char <= c <= 0x7E as char
  }

  /** A character as if in a character literal. */
  function PrintAsCharLiteral(c: char): (string, CharFormat) {
    if c == '\0' then ("\\0", SpecialEscape)
    else if c == '\'' then ("\\'", SpecialEscape)
    else if c == '\\' then ("\\\\", SpecialEscape)
    else if c == ALERT then ("\\a", SpecialEscape)
    else if c == BACKSPACE then ("\\b", SpecialEscape)
    else if c == FORM_FEED then ("\\f", SpecialEscape)
    else if c == NEWLINE then ("\\n", SpecialEscape)
    else if c == RETURN then ("\\r", SpecialEscape)
    else if c == TAB then ("\\t", SpecialEscape)
    else if c == VERTICAL_TAB then ("\\v", SpecialEscape)
    else if IsPrintableAscii(c) then ([c], AsIs)
    else ("\\x" + Hex(c as nat), HexEscape)
  }

  /** A character as if in a string literal. */
  function PrintAsStringLiteral(c: char): (string, CharFormat) {
    if c == '\'' then ("'", AsIs)
    else if c == '"' then ("\\\"", SpecialEscape)
    else PrintAsCharLiteral(c)
  }

  /** What is written for the characters after some character that was, or was not, written in hex. */
  ghost function Body(s: string, previousHex: bool): string {
    if s == "" then ""
    else
      var (text, format) := PrintAsStringLiteral(s[0]);
      (if previousHex && IsXDigit(s[0]) then "\" \"" else "") + text + Body(s[1..], format == HexEscape)
  }

  ghost function Printed(s: string): string {
    "\"" + Body(s, false) + "\""
  }

  ghost predicate NeedsHex(s: string) {
    exists i :: 0 <= i < |s| && PrintAsStringLiteral(s[i]).1 == HexEscape
  }

  method PrintCharsAsStringTo(s: string) returns (os: string, printFormat: CharFormat)
    ensures os == Printed(s)
    ensures printFormat == if NeedsHex(s) then HexEscape else AsIs
  {
    os := "\"";
    var isPreviousHex := false;
    printFormat := AsIs;
    assert s[0..] == s;
    for index := 0 to |s|
      invariant os + Body(s[index..], isPreviousHex) == "\"" + Body(s, false)
      invariant printFormat == if NeedsHex(s[..index]) then HexEscape else AsIs
    {
      BodyStep(s, index, isPreviousHex, os);
      if isPreviousHex && IsXDigit(s[index]) {
        os := os + "\" \"";
      }
      var (text, format) := PrintAsStringLiteral(s[index]);
      os := os + text;
      isPreviousHex := format == HexEscape;
      NeedsHexGrows(s, index);
      if isPreviousHex {
        printFormat := HexEscape;
      }
    }
    assert s[|s|..] == "" && s[..|s|] == s;
    os := os + "\"";
  }

  lemma BodyStep(s: string, index: nat, previousHex: bool, os: string)
    requires index < |s|
    ensures var (text, format) := PrintAsStringLiteral(s[index]);
      os + Body(s[index..], previousHex)
        == (if previousHex && IsXDigit(s[index]) then os + "\" \"" else os) + text
             + Body(s[index + 1..], format == HexEscape)
  {
    assert s[index..][1..] == s[index + 1..];
  }

  lemma NeedsHexGrows(s: string, n: nat)
    requires n < |s|
    ensures NeedsHex(s[..n + 1]) <==> NeedsHex(s[..n]) || PrintAsStringLiteral(s[n]).1 == HexEscape
  {
    assert s[..n + 1] == s[..n] + [s[n]];
    assert s[..n + 1][n] == s[n];
    if NeedsHex(s[..n]) {
      var i :| 0 <= i < n && PrintAsStringLiteral(s[..n][i]).1 == HexEscape;
      assert s[..n + 1][i] == s[..n][i];
    }
  }

  // ----- The forms by code -----

  /** The letters for the codes 7 to 13. */
  const LETTERS := "abtnvfr"

  /** NUL, the codes 7 to 13, the double quote and the backslash have a short escape, the other codes from 32 to 126
      stand for themselves, and all other bytes are written in hex. */
  lemma FormByCode(c: char)
    requires c < 256 as char
    ensures var code := c as int;
      PrintAsStringLiteral(c) ==
        if code == 0 then ("\\0", SpecialEscape)
        else if 7 <= code <= 13 then (['\\', LETTERS[code - 7]], SpecialEscape)
        else if code == 34 || code == 92 then (['\\', c], SpecialEscape)
        else if 32 <= code <= 126 then ([c], AsIs)
        else ("\\x" + Hex(code), HexEscape)
  {
  }

  ghost predicate IsWrittenInHex(code: int) {
    1 <= code <= 6 || 14 <= code <= 31 || 127 <= code
  }

  /** A hex escape is wanted exactly for a byte from 1 to 6, from 14 to 31, or from 127 on. */
  lemma NeedsHexByCode(s: string)
    requires IsBytes(s)
    ensures NeedsHex(s) <==> exists i :: 0 <= i < |s| && IsWrittenInHex(s[i] as int)
  {
    forall i | 0 <= i < |s|
      ensures PrintAsStringLiteral(s[i]).1 == HexEscape <==> IsWrittenInHex(s[i] as int)
    {
      FormByCode(s[i]);
    }
  }

  /** A whole example: the byte 1, a capital A and a tab. */
  lemma BreakIsWritten()
    ensures Printed([1 as char, 'A', TAB]) == "\"\\x1\" \"A\\t\""
  {
    var s := [1 as char, 'A', TAB];
    assert s[1..] == ['A', TAB] && ['A', TAB][1..] == [TAB] && [TAB][1..] == "";
    FormByCode(1 as char);
    FormByCode('A');
    FormByCode(TAB);
    assert Hex(1) == "1" && LETTERS[2] == 't';
    assert Body([TAB], false) == "\\t";
    assert Body(['A', TAB], true) == "\" \"A\\t";
    assert Body(s, false) == "\\x1" + Body(['A', TAB], true);
  }

  // ----- Reading -----

  ghost predicate IsOctal(c: char) {
    '0' <= c <= '7'
  }

  ghost function HexRun(s: string): (n: nat)
    ensures n <= |s| && forall i :: 0 <= i < n ==> IsXDigit(s[i])
  {
    if s != "" && IsXDigit(s[0]) then 1 + HexRun(s[1..]) else 0
  }

  /** The number of octal digits at the head, at most the given number. */
  ghost function OctalRun(s: string, most: nat): (n: nat)
    ensures n <= |s| && n <= most && forall i :: 0 <= i < n ==> IsOctal(s[i])
  {
    if most > 0 && s != "" && IsOctal(s[0]) then 1 + OctalRun(s[1..], most - 1) else 0
  }

  ghost function OctalValue(s: string): nat
    requires forall i :: 0 <= i < |s| ==> IsOctal(s[i])
  {
    if s == "" then 0
    else
      assert IsOctal(s[|s| - 1]);
      8 * OctalValue(s[..|s| - 1]) + (s[|s| - 1] - '0') as nat
  }

  /** The character that a simple escape sequence stands for. */
  ghost function SimpleEscape(c: char): Option<char> {
    match c
    case '\'' => Some('\'')
    case '"' => Some('"')
    case '?' => Some('?')
    case '\\' => Some('\\')
    case 'a' => Some(ALERT)
    case 'b' => Some(BACKSPACE)
    case 'f' => Some(FORM_FEED)
    case 'n' => Some(NEWLINE)
    case 'r' => Some(RETURN)
    case 't' => Some(TAB)
    case 'v' => Some(VERTICAL_TAB)
    case _ => None
  }

  ghost function Prepend(c: nat, rest: Option<string>): Option<string> {
    if c < 256 && rest.Some? then Some([c as char] + rest.value) else None
  }

  /** Adjacent string literals, from between two of them. */
  ghost function ReadOutside(text: string): Option<string>
    decreases |text|
  {
    if text == "" then Some("")
    else if text[0] == ' ' then ReadOutside(text[1..])
    else if text[0] == '"' then ReadInside(text[1..])
    else None
  }

  /** Adjacent string literals, from inside one: an octal escape takes up to three digits, a hexadecimal
      one as many as there are, and a value that does not fit a byte is ill-formed. */
  ghost function ReadInside(text: string): Option<string>
    decreases |text|
  {
    if text == "" || text[0] == NEWLINE then None
    else if text[0] == '"' then ReadOutside(text[1..])
    else if text[0] != '\\' then Prepend(text[0] as nat, ReadInside(text[1..]))
    else if |text| == 1 then None
    else if text[1] == 'x' then
      var n := HexRun(text[2..]);
      if n == 0 then None else Prepend(Value(text[2..][..n]), ReadInside(text[2..][n..]))
    else if IsOctal(text[1]) then
      var n := OctalRun(text[1..], 3);
      Prepend(OctalValue(text[1..][..n]), ReadInside(text[1..][n..]))
    else
      match SimpleEscape(text[1])
      case None => None
      case Some(c) => Prepend(c as nat, ReadInside(text[2..]))
  }

  /** The reader's details, at their limits: which digits are octal, at most three of them, the escapes that stand for
      themselves, and no value beyond a byte. */
  lemma ReaderAtLimits(c: char)
    ensures IsOctal(c) <==> 48 <= c as int <= 55
    ensures OctalRun("0123", 3) == 3 && OctalRun("07\"", 3) == 2 && OctalRun("8", 3) == 0
    ensures SimpleEscape('\'') == Some('\'') && SimpleEscape('?') == Some('?') && SimpleEscape('e') == None
    ensures Prepend(255, Some("")) == Some([255 as char]) && Prepend(256, Some("")) == None
  {
    assert "0123"[1..] == "123" && "123"[1..] == "23" && "23"[1..] == "3";
    assert "07\""[1..] == "7\"" && "7\""[1..] == "\"";
    assert OctalRun("3", 0) == 0 && OctalRun("23", 1) == 1 && OctalRun("123", 2) == 2;
    assert OctalRun("\"", 1) == 0 && OctalRun("7\"", 2) == 1;
    assert [255 as char] + "" == [255 as char];
  }

  // ----- The round trip -----

  /** What is read back: a NUL and up to two octal digits after it are taken as one octal escape. */
  ghost function Misread(s: string): string
    decreases |s|
  {
    if s == "" then ""
    else if s[0] != '\0' then [s[0]] + Misread(s[1..])
    else
      var n := OctalRun(s[1..], 2);
      OctalIsByte(s[1..][..n]);
      [OctalValue(s[1..][..n]) as char] + Misread(s[1..][n..])
  }

  lemma OctalIsByte(s: string)
    requires |s| <= 2 && forall i :: 0 <= i < |s| ==> IsOctal(s[i])
    ensures OctalValue(s) < 64
  {
  }

  ghost predicate NulBeforeOctal(s: string) {
    exists i :: 0 <= i < |s| - 1 && s[i] == '\0' && IsOctal(s[i + 1])
  }

  /** What is still to be read from inside a literal. */
  ghost function Rest(s: string, previousHex: bool): string {
    Body(s, previousHex) + "\""
  }

  lemma FirstPrinted(c: char)
    ensures var text := PrintAsStringLiteral(c).0;
      text != "" && (text == [c] || text[0] == '\\') && (IsXDigit(c) ==> text == [c])
  {
  }

  lemma RestStep(s: string)
    requires s != ""
    ensures var (text, format) := PrintAsStringLiteral(s[0]);
      Rest(s, false) == text + Rest(s[1..], format == HexEscape)
  {
  }

  lemma {:induction false} HexRunStops(digits: string, rest: string)
    requires forall i :: 0 <= i < |digits| ==> IsXDigit(digits[i])
    requires rest != "" && !IsXDigit(rest[0])
    ensures HexRun(digits + rest) == |digits|
  {
    if digits == "" {
      assert digits + rest == rest;
    } else {
      HexRunStops(digits[1..], rest);
      assert (digits + rest)[1..] == digits[1..] + rest;
    }
  }

  lemma ReadsHex(c: char, rest: string)
    requires rest != "" && !IsXDigit(rest[0])
    ensures ReadInside("\\x" + Hex(c as nat) + rest) == Prepend(c as nat, ReadInside(rest))
  {
    var digits := Hex(c as nat);
    var text := "\\x" + digits + rest;
    assert text[2..] == digits + rest;
    HexRunStops(digits, rest);
    HexReadsBack(c as nat);
    assert (digits + rest)[..|digits|] == digits && (digits + rest)[|digits|..] == rest;
  }

  /** A character that is neither NUL nor written in hex reads as itself. */
  lemma ReadsPlain(c: char, rest: string)
    requires c != '\0' && PrintAsStringLiteral(c).1 != HexEscape
    ensures ReadInside(PrintAsStringLiteral(c).0 + rest) == Prepend(c as nat, ReadInside(rest))
  {
    var text := PrintAsStringLiteral(c).0;
    assert |text| == 1 || |text| == 2;
    assert (text + rest)[|text|..] == rest;
    if |text| == 2 {
      assert SimpleEscape(text[1]) == Some(c) && text[1] != 'x' && !IsOctal(text[1]);
    }
  }

  lemma ReadsBreak(rest: string)
    ensures ReadInside("\" \"" + rest) == ReadInside(rest)
  {
    assert ("\" \"" + rest)[1..] == " \"" + rest;
    assert (" \"" + rest)[1..] == "\"" + rest;
    assert ("\"" + rest)[1..] == rest;
    assert ReadInside("\" \"" + rest) == ReadOutside(" \"" + rest) == ReadOutside("\"" + rest);
  }

  /** The literal is broken off just where a hex digit would be taken into the escape before it. */
  lemma BreakReads(s: string)
    ensures ReadInside(Rest(s, true)) == ReadInside(Rest(s, false))
    ensures Rest(s, true) != "" && !IsXDigit(Rest(s, true)[0])
  {
    if s != "" {
      FirstPrinted(s[0]);
      if IsXDigit(s[0]) {
        assert Rest(s, true) == "\" \"" + Rest(s, false);
        ReadsBreak(Rest(s, false));
      } else {
        assert Rest(s, true) == Rest(s, false);
      }
    }
  }

  lemma OctalStep(s: string)
    requires s != "" && IsOctal(s[0])
    ensures Rest(s, false) == [s[0]] + Rest(s[1..], false)
  {
    FirstPrinted(s[0]);
    RestStep(s);
  }

  lemma FirstApart(s: string, n: nat)
    requires 0 < n <= |s|
    ensures s[1..][n - 1..] == s[n..] && [s[0]] + s[1..][..n - 1] == s[..n]
  {
  }

  /** Octal digits are printed as they are. */
  lemma {:induction false} OctalDigitsAsIs(s: string, n: nat)
    requires n <= |s| && forall i :: 0 <= i < n ==> IsOctal(s[i])
    ensures Rest(s, false) == s[..n] + Rest(s[n..], false)
  {
    if n == 0 {
      assert s[..0] == "" && s[0..] == s;
    } else {
      OctalStep(s);
      OctalDigitsAsIs(s[1..], n - 1);
      FirstApart(s, n);
      Regroup([s[0]], s[1..][..n - 1], Rest(s[n..], false));
    }
  }

  /** A reader meets as many octal digits in the output as there are in the text. */
  lemma {:induction false} OctalRunSame(s: string, most: nat)
    ensures OctalRun(Rest(s, false), most) == OctalRun(s, most)
    decreases most
  {
    if most > 0 && s != "" {
      if IsOctal(s[0]) {
        OctalStep(s);
        OctalRunSame(s[1..], most - 1);
        assert Rest(s, false)[1..] == Rest(s[1..], false);
      } else {
        FirstPrinted(s[0]);
        RestStep(s);
      }
    }
  }

  lemma ReadsNul(s: string)
    requires s != "" && s[0] == '\0'
    ensures var n := OctalRun(s[1..], 2);
      ReadInside(Rest(s, false)) == Prepend(OctalValue(s[1..][..n]), ReadInside(Rest(s[1..][n..], false)))
  {
    var tail := s[1..];
    RestStep(s);
    OctalRunSame(tail, 2);
    OctalDigitsAsIs(tail, OctalRun(tail, 2));
    LeadingZero(tail[..OctalRun(tail, 2)]);
    ReadsOctal(Rest(tail, false));
  }

  lemma ReadsOctal(rest: string)
    ensures var n := OctalRun(rest, 2);
      ReadInside("\\0" + rest) == Prepend(OctalValue("0" + rest[..n]), ReadInside(rest[n..]))
  {
    var n, text := OctalRun(rest, 2), "\\0" + rest;
    var octal := text[1..];
    assert octal == "0" + rest && octal[1..] == rest;
    assert OctalRun(octal, 3) == n + 1;
    assert octal[..n + 1] == "0" + rest[..n] && octal[n + 1..] == rest[n..];
  }

  lemma {:induction false} LeadingZero(s: string)
    requires forall i :: 0 <= i < |s| ==> IsOctal(s[i])
    ensures OctalValue("0" + s) == OctalValue(s)
  {
    if s == "" {
      assert "0" + s == "0" && "0"[..0] == "";
    } else {
      LeadingZero(s[..|s| - 1]);
      assert ("0" + s)[..|s|] == "0" + s[..|s| - 1];
    }
  }

  lemma ReadsChar(s: string)
    requires s != "" && s[0] != '\0'
    ensures ReadInside(Rest(s, false)) == Prepend(s[0] as nat, ReadInside(Rest(s[1..], false)))
  {
    RestStep(s);
    if PrintAsStringLiteral(s[0]).1 == HexEscape {
      BreakReads(s[1..]);
      ReadsHex(s[0], Rest(s[1..], true));
    } else {
      ReadsPlain(s[0], Rest(s[1..], false));
    }
  }

  lemma {:induction false} ReadsMisread(s: string)
    requires IsBytes(s)
    ensures ReadInside(Rest(s, false)) == Some(Misread(s))
    decreases |s|
  {
    if s != "" {
      if s[0] == '\0' {
        var n := OctalRun(s[1..], 2);
        ReadsNul(s);
        OctalIsByte(s[1..][..n]);
        ReadsMisread(s[1..][n..]);
      } else {
        ReadsChar(s);
        ReadsMisread(s[1..]);
      }
    } else {
      assert Rest(s, false) == "\"" && "\""[1..] == "";
    }
  }

  lemma {:induction false} MisreadIsShorter(s: string)
    ensures |Misread(s)| <= |s|
    ensures NulBeforeOctal(s) ==> |Misread(s)| < |s|
    ensures !NulBeforeOctal(s) ==> Misread(s) == s
    decreases |s|
  {
    if s != "" {
      var n := if s[0] == '\0' then OctalRun(s[1..], 2) else 0;
      var tail := s[1..][n..];
      MisreadIsShorter(tail);
      assert forall i :: 0 <= i < |tail| ==> tail[i] == s[i + 1 + n];
      if n == 0 {
        assert s == [s[0]] + tail;
        if s[0] == '\0' {
          assert s[1..][..0] == "";
        }
      } else {
        assert s[0] == '\0' && IsOctal(s[1]);
      }
    }
  }

  /** Reading the printed literal gives back the bytes exactly when no NUL is directly followed by an
      octal digit. */
  lemma LiteralReadsBackExactly(s: string)
    requires IsBytes(s)
    ensures ReadOutside(Printed(s)) == Some(s) <==> !NulBeforeOctal(s)
    ensures ReadOutside(Printed(s)) == Some(Misread(s))
  {
    assert Printed(s)[1..] == Rest(s, false);
    ReadsMisread(s);
    MisreadIsShorter(s);
  }
}
