/** UTF-8 validation and encoding of code points and wide strings. */
module Utf8 {
  import Hexadecimal
  import opened Text

  type uint32 = u: int | 0 <= u < 0x1_0000_0000

  // ----- UTF-8 by section 4 of RFC 3629 -----

  predicate IsTail(b: byte) {
    0x80 <= b <= 0xBF
  }

  /** One character in the grammar's terms. */
  ghost predicate IsUtf8Char(s: seq<byte>) {
    match |s|
    case 1 => s[0] <= 0x7F
    case 2 => 0xC2 <= s[0] <= 0xDF && IsTail(s[1])
    case 3 =>
      && ((s[0] == 0xE0 && 0xA0 <= s[1] <= 0xBF) || (0xE1 <= s[0] <= 0xEC && IsTail(s[1]))
          || (s[0] == 0xED && 0x80 <= s[1] <= 0x9F) || (0xEE <= s[0] <= 0xEF && IsTail(s[1])))
      && IsTail(s[2])
    case 4 =>
      && ((s[0] == 0xF0 && 0x90 <= s[1] <= 0xBF) || (0xF1 <= s[0] <= 0xF3 && IsTail(s[1]))
          || (s[0] == 0xF4 && 0x80 <= s[1] <= 0x8F))
      && IsTail(s[2]) && IsTail(s[3])
    case _ => false
  }

  ghost predicate IsUtf8(s: seq<byte>) {
    s == [] || exists n :: 1 <= n <= 4 && n <= |s| && IsUtf8Char(s[..n]) && IsUtf8(s[n..])
  }

  // ----- Scalar values and their encoding by section 3 of RFC 3629 -----

  ghost predicate IsSurrogate(c: int) {
    0xD800 <= c <= 0xDFFF
  }

  ghost predicate IsScalar(c: int) {
    0 <= c <= 0x10FFFF && !IsSurrogate(c)
  }

  /** The bit layout of a code point of at most 21 bits. */
  ghost function Layout(c: int): (s: seq<byte>)
    requires 0 <= c < 0x20_0000
  {
    if c < 0x80 then [c]
    else if c < 0x800 then [0xC0 + c / 0x40, 0x80 + c % 0x40]
    else if c < 0x1_0000 then [0xE0 + c / 0x1000, 0x80 + c / 0x40 % 0x40, 0x80 + c % 0x40]
    else [0xF0 + c / 0x4_0000, 0x80 + c / 0x1000 % 0x40, 0x80 + c / 0x40 % 0x40, 0x80 + c % 0x40]
  }

  /** The code point that a character stands for. */
  ghost function ScalarOf(s: seq<byte>): int
    requires IsUtf8Char(s)
  {
    match |s|
    case 1 => s[0]
    case 2 => Join(0, 0, s[0] as int - 0xC0, s[1] as int - 0x80)
    case 3 => Join(0, s[0] as int - 0xE0, s[1] as int - 0x80, s[2] as int - 0x80)
    case _ => Join(s[0] as int - 0xF0, s[1] as int - 0x80, s[2] as int - 0x80, s[3] as int - 0x80)
  }

  /** The number with the given digits to base 64. */
  ghost function Join(w: int, x: int, y: int, z: int): int {
    w * 0x4_0000 + x * 0x1000 + y * 0x40 + z
  }

  /** The layout of a code point is a character of the grammar exactly for scalar values. */
  lemma LayoutIsChar(c: int)
    requires 0 <= c < 0x20_0000
    ensures IsUtf8Char(Layout(c)) <==> IsScalar(c)
    ensures IsScalar(c) ==> ScalarOf(Layout(c)) == c
  {
    if c < 0x800 {
    } else if c < 0x1_0000 {
      ThreeDigits(c, c / 0x1000, c / 0x40 % 0x40, c % 0x40);
    } else {
      FourDigits(c, c / 0x4_0000, c / 0x1000 % 0x40, c / 0x40 % 0x40, c % 0x40);
    }
  }

  lemma ThreeDigits(c: int, x: int, y: int, z: int)
    requires 0x800 <= c < 0x1_0000 && x == c / 0x1000 && y == c / 0x40 % 0x40 && z == c % 0x40
    ensures c == x * 0x1000 + y * 0x40 + z && 0 <= x < 16 && 0 <= y < 0x40 && 0 <= z < 0x40
  {
    assert c / 0x1000 == c / 0x40 / 0x40;
  }

  lemma FourDigits(c: int, w: int, x: int, y: int, z: int)
    requires 0x1_0000 <= c < 0x20_0000
    requires w == c / 0x4_0000 && x == c / 0x1000 % 0x40 && y == c / 0x40 % 0x40 && z == c % 0x40
    ensures c == w * 0x4_0000 + x * 0x1000 + y * 0x40 + z
    ensures 0 <= w < 8 && 0 <= x < 0x40 && 0 <= y < 0x40 && 0 <= z < 0x40
  {
    assert c / 0x1000 == c / 0x40 / 0x40 && c / 0x4_0000 == c / 0x1000 / 0x40;
  }

  lemma DigitsBack(w: int, x: int, y: int, z: int)
    requires 0 <= w && 0 <= x < 0x40 && 0 <= y < 0x40 && 0 <= z < 0x40
    ensures var c := Join(w, x, y, z);
      c / 0x4_0000 == w && c / 0x1000 % 0x40 == x && c / 0x40 % 0x40 == y && c % 0x40 == z
    ensures Join(w, x, y, z) / 0x1000 == w * 0x40 + x && Join(w, x, y, z) / 0x40 == w * 0x1000 + x * 0x40 + y
  {
    var c := Join(w, x, y, z);
    assert c / 0x40 == w * 0x1000 + x * 0x40 + y;
    assert c / 0x1000 == w * 0x40 + x;
  }

  lemma ShortCharIsLayout(s: seq<byte>)
    requires IsUtf8Char(s) && |s| <= 2
    ensures IsScalar(ScalarOf(s)) && Layout(ScalarOf(s)) == s
  {
    if |s| == 2 {
      DigitsBack(0, 0, s[0] as int - 0xC0, s[1] as int - 0x80);
    }
  }

  lemma MediumCharIsLayout(s: seq<byte>)
    requires IsUtf8Char(s) && |s| == 3
    ensures IsScalar(ScalarOf(s)) && Layout(ScalarOf(s)) == s
  {
    DigitsBack(0, s[0] as int - 0xE0, s[1] as int - 0x80, s[2] as int - 0x80);
    var c := ScalarOf(s);
    assert 0x800 <= c < 0x1_0000 && |Layout(c)| == 3;
  }

  lemma LongCharIsLayout(s: seq<byte>)
    requires IsUtf8Char(s) && |s| == 4
    ensures IsScalar(ScalarOf(s)) && Layout(ScalarOf(s)) == s
  {
    DigitsBack(s[0] as int - 0xF0, s[1] as int - 0x80, s[2] as int - 0x80, s[3] as int - 0x80);
    var c := ScalarOf(s);
    assert 0x1_0000 <= c <= 0x10FFFF && |Layout(c)| == 4;
  }

  lemma CharIsLayout(s: seq<byte>)
    requires IsUtf8Char(s)
    ensures IsScalar(ScalarOf(s)) && Layout(ScalarOf(s)) == s
  {
    if |s| <= 2 {
      ShortCharIsLayout(s);
    } else if |s| == 3 {
      MediumCharIsLayout(s);
    } else {
      LongCharIsLayout(s);
    }
  }

  /** The grammar's characters are exactly the encodings of the scalar values. */
  lemma CharsAreScalars(s: seq<byte>)
    ensures IsUtf8Char(s) <==> exists c :: IsScalar(c) && Layout(c) == s
  {
    if IsUtf8Char(s) {
      CharIsLayout(s);
    }
    if exists c :: IsScalar(c) && Layout(c) == s {
      var c :| IsScalar(c) && Layout(c) == s;
      LayoutIsChar(c);
    }
  }

  ghost function Concat(scalars: seq<int>): seq<byte>
    requires forall i :: 0 <= i < |scalars| ==> IsScalar(scalars[i])
  {
    if scalars == [] then []
    else
      assert IsScalar(scalars[0]);
      Layout(scalars[0]) + Concat(scalars[1..])
  }

  /** No character is a proper beginning of another: the first byte tells the length. */
  lemma LeadTellsLength(s: seq<byte>, n: nat, m: nat)
    requires n <= |s| && m <= |s| && IsUtf8Char(s[..n]) && IsUtf8Char(s[..m])
    ensures n == m
  {
  }

  ghost predicate Encodes(s: seq<byte>, scalars: seq<int>) {
    (forall i :: 0 <= i < |scalars| ==> IsScalar(scalars[i])) && Concat(scalars) == s
  }

  lemma {:induction false} TextIsEncoding(s: seq<byte>) returns (scalars: seq<int>)
    requires IsUtf8(s)
    ensures Encodes(s, scalars)
    decreases |s|
  {
    scalars := [];
    if s != [] {
      var n :| 1 <= n <= 4 && n <= |s| && IsUtf8Char(s[..n]) && IsUtf8(s[n..]);
      var rest := TextIsEncoding(s[n..]);
      CharsAreScalars(s[..n]);
      var c :| IsScalar(c) && Layout(c) == s[..n];
      PrependScalar(c, s[n..], rest);
      scalars := [c] + rest;
      SplitAt(s, n);
    }
  }

  lemma SplitAt(s: seq<byte>, n: nat)
    requires n <= |s|
    ensures s[..n] + s[n..] == s
  {
  }

  lemma PrependScalar(c: int, s: seq<byte>, scalars: seq<int>)
    requires IsScalar(c) && Encodes(s, scalars)
    ensures Encodes(Layout(c) + s, [c] + scalars)
  {
    assert ([c] + scalars)[1..] == scalars;
  }

  lemma {:induction false} EncodingIsText(s: seq<byte>, scalars: seq<int>)
    requires Encodes(s, scalars)
    ensures IsUtf8(s)
    decreases |scalars|
  {
    if scalars != [] {
      var first := Layout(scalars[0]);
      LayoutIsChar(scalars[0]);
      assert s[..|first|] == first && s[|first|..] == Concat(scalars[1..]);
      EncodingIsText(s[|first|..], scalars[1..]);
    }
  }

  /** The grammar's texts are exactly the encodings of sequences of scalar values. */
  lemma TextsAreScalars(s: seq<byte>)
    ensures IsUtf8(s) <==> exists scalars :: Encodes(s, scalars)
  {
    if IsUtf8(s) {
      var scalars := TextIsEncoding(s);
    }
    if exists scalars :: Encodes(s, scalars) {
      var scalars :| Encodes(s, scalars);
      EncodingIsText(s, scalars);
    }
  }

  /** A text encodes only one sequence of scalar values. */
  lemma {:induction false} DecodingIsUnique(a: seq<int>, b: seq<int>)
    requires forall i :: 0 <= i < |a| ==> IsScalar(a[i])
    requires Encodes(Concat(a), b)
    ensures a == b
    decreases |a|
  {
    if a != [] && b != [] {
      var s := Concat(a);
      LayoutIsChar(a[0]);
      LayoutIsChar(b[0]);
      assert s[..|Layout(a[0])|] == Layout(a[0]) && s[..|Layout(b[0])|] == Layout(b[0]);
      LeadTellsLength(s, |Layout(a[0])|, |Layout(b[0])|);
      assert s[|Layout(a[0])|..] == Concat(a[1..]) && s[|Layout(b[0])|..] == Concat(b[1..]);
      DecodingIsUnique(a[1..], b[1..]);
      assert a == [a[0]] + a[1..] && b == [b[0]] + b[1..];
    }
  }

  // ----- Validation -----

  /** Passing over a character keeps the question. */
  lemma CharPassed(s: seq<byte>, i: nat, n: nat)
    requires 1 <= n <= 4 && i + n <= |s| && IsUtf8Char(s[i..][..n])
    ensures IsUtf8(s[i..]) <==> IsUtf8(s[i + n..])
  {
    var t := s[i..];
    assert t[n..] == s[i + n..];
    if IsUtf8(t) {
      var m :| 1 <= m <= 4 && m <= |t| && IsUtf8Char(t[..m]) && IsUtf8(t[m..]);
      LeadTellsLength(t, n, m);
    }
  }

  predicate IsUTF8TrailByte(t: byte) {
    0x80 <= t && t <= 0xBF
  }

  /** The length of the character that the bytes at i start, 0 if they start none. */
  ghost function HeadLength(s: seq<byte>, i: nat): nat
    requires i < |s|
  {
    var lead, n := s[i], |s| - i;
    if lead <= 0x7F then 1
    else if 0xC2 <= lead <= 0xDF && n >= 2 && IsUTF8TrailByte(s[i + 1]) then 2
    else if 0xE0 <= lead <= 0xEF && n >= 3 && IsUTF8TrailByte(s[i + 1]) && IsUTF8TrailByte(s[i + 2])
            && (lead == 0xE0 ==> s[i + 1] >= 0xA0) && (lead == 0xED ==> s[i + 1] < 0xA0) then 3
    else if 0xF0 <= lead <= 0xF4 && n >= 4 && IsUTF8TrailByte(s[i + 1]) && IsUTF8TrailByte(s[i + 2])
            && IsUTF8TrailByte(s[i + 3])
            && (lead == 0xF0 ==> s[i + 1] >= 0x90) && (lead == 0xF4 ==> s[i + 1] < 0x90) then 4
    else 0
  }

  lemma HeadIsChar(s: seq<byte>, i: nat, n: nat)
    requires i < |s| && 1 <= n <= 4 && i + n <= |s|
    ensures IsUtf8Char(s[i..][..n]) <==> HeadLength(s, i) == n
  {
  }

  lemma HeadDecides(s: seq<byte>, i: nat)
    requires i < |s|
    ensures var n := HeadLength(s, i);
      if n == 0 then !IsUtf8(s[i..]) else i + n <= |s| && (IsUtf8(s[i..]) <==> IsUtf8(s[i + n..]))
  {
    var n, t := HeadLength(s, i), s[i..];
    if n > 0 {
      HeadIsChar(s, i, n);
      CharPassed(s, i, n);
    } else if IsUtf8(t) {
      var m :| 1 <= m <= 4 && m <= |t| && IsUtf8Char(t[..m]) && IsUtf8(t[m..]);
      HeadIsChar(s, i, m);
    }
  }

  method IsValidUTF8(s: seq<byte>) returns (ok: bool)
    ensures ok <==> IsUtf8(s)
  {
    var i := 0;
    assert s[0..] == s;
    ghost var valid := IsUtf8(s);
    while i < |s|
      invariant 0 <= i <= |s| && (IsUtf8(s[i..]) <==> valid)
    {
      HeadDecides(s, i);
      ghost var start, n := i, HeadLength(s, i);
      var lead := s[i];
      i := i + 1;
      if lead <= 0x7F {
        assert n == 1;
        continue;
      } else if lead < 0xC2 {
        assert n == 0;
        return false;
      } else if lead <= 0xDF && i + 1 <= |s| && IsUTF8TrailByte(s[i]) {
        i := i + 1;
      } else if 0xE0 <= lead && lead <= 0xEF && i + 2 <= |s| && IsUTF8TrailByte(s[i]) && IsUTF8TrailByte(s[i + 1])
                && (lead != 0xE0 || s[i] >= 0xA0) && (lead != 0xED || s[i] < 0xA0) {
        i := i + 2;
      } else if 0xF0 <= lead && lead <= 0xF4 && i + 3 <= |s| && IsUTF8TrailByte(s[i]) && IsUTF8TrailByte(s[i + 1])
                && IsUTF8TrailByte(s[i + 2]) && (lead != 0xF0 || s[i] >= 0x90) && (lead != 0xF4 || s[i] < 0x90) {
        i := i + 3;
      } else {
        assert n == 0;
        return false;
      }
      assert i == start + n;
    }
    return true;
  }

  // ----- Code points -----

  function Ascii(s: string): seq<byte>
    requires forall i :: 0 <= i < |s| ==> s[i] < 128 as char
  {
    seq(|s|, i requires 0 <= i < |s| => s[i] as int)
  }

  function InvalidText(c: nat): seq<byte> {
    Ascii("(Invalid Unicode 0x" + Hexadecimal.Hex(c) + ")")
  }

  /** The remark on an invalid code point, character by character. */
  lemma InvalidTextIs(c: nat)
    ensures var text := "(Invalid Unicode 0x" + Hexadecimal.Hex(c) + ")";
      |InvalidText(c)| == |text| && forall i :: 0 <= i < |text| ==> InvalidText(c)[i] == text[i] as int
  {
  }

  /** What the encoder writes: nothing for NUL, the bit layout up to 21 bits, and a remark beyond. */
  ghost function Utf8Of(c: uint32): seq<byte> {
    if c == 0 then [] else if c < 0x20_0000 then Layout(c) else InvalidText(c)
  }

  lemma {:induction false} AsciiIsUtf8(s: string)
    requires forall i :: 0 <= i < |s| ==> s[i] < 128 as char
    ensures IsUtf8(Ascii(s))
  {
    if s != "" {
      AsciiIsUtf8(s[1..]);
      assert Ascii(s)[1..] == Ascii(s[1..]) && IsUtf8Char(Ascii(s)[..1]);
    }
  }

  lemma NonScalarIsNotUtf8(c: int, rest: seq<byte>)
    requires 0 <= c < 0x20_0000 && !IsScalar(c)
    ensures !IsUtf8(Layout(c) + rest)
  {
    var s := Layout(c) + rest;
    LayoutIsChar(c);
    assert c >= 0x800;
    if c < 0x1_0000 {
      ThreeDigits(c, c / 0x1000, c / 0x40 % 0x40, c % 0x40);
      assert s[..3] == Layout(c);
    } else {
      FourDigits(c, c / 0x4_0000, c / 0x1000 % 0x40, c / 0x40 % 0x40, c % 0x40);
      assert s[..4] == Layout(c);
    }
    assert s[0] == Layout(c)[0] >= 0xE0;
    assert forall n :: 1 <= n <= 4 && n <= |s| && IsUtf8Char(s[..n]) ==> n == |Layout(c)|;
  }

  /** A code point is encoded so that it can be read back exactly if it is a scalar value other than NUL;
      and the text written is not UTF-8 at all exactly for surrogates and for 0x110000 to 0x1FFFFF. */
  lemma EncodesScalarsExactly(c: uint32)
    ensures Encodes(Utf8Of(c), [c]) <==> IsScalar(c) && c != 0
    ensures IsUtf8(Utf8Of(c)) <==> IsScalar(c) || c >= 0x20_0000
  {
    assert [c][1..] == [];
    if c == 0 {
      LayoutIsChar(c);
    } else if c >= 0x20_0000 {
      AsciiIsUtf8("(Invalid Unicode 0x" + Hexadecimal.Hex(c) + ")");
    } else if IsScalar(c) {
      assert Layout(c) + [] == Layout(c);
      assert Encodes(Layout(c), [c]);
      EncodingIsText(Layout(c), [c]);
    } else {
      NonScalarIsNotUtf8(c, []);
      assert Layout(c) + [] == Layout(c);
    }
  }

  /** Takes the six lowest bits off a bit pattern. */
  method ChopLowBits(bits: uint32) returns (low: byte, rest: uint32)
    ensures low == bits % 0x40 && rest == bits / 0x40
  {
    low, rest := bits % 0x40, bits / 0x40;
  }

  /** The bytes before the first NUL. */
  method CString(buffer: array<byte>) returns (s: seq<byte>)
    requires exists n :: 0 <= n < buffer.Length && buffer[n] == 0
    ensures |s| < buffer.Length && s == buffer[..|s|] && 0 !in s && buffer[|s|] == 0
  {
    var n := 0;
    while buffer[n] != 0
      invariant 0 <= n < buffer.Length && 0 !in buffer[..n]
      invariant exists m :: n <= m < buffer.Length && buffer[m] == 0
      decreases buffer.Length - n
    {
      n := n + 1;
    }
    s := buffer[..n];
  }

  lemma LayoutByChopping(c: int)
    requires 0 <= c < 0x20_0000
    ensures c / 0x40 / 0x40 == c / 0x1000 && c / 0x40 / 0x40 / 0x40 == c / 0x4_0000
    ensures c != 0 ==> 0 !in Layout(c)
  {
  }

  method CodePointToUtf8(codePoint: uint32) returns (r: seq<byte>)
    ensures r == Utf8Of(codePoint)
  {
    if codePoint > 0x1F_FFFF {
      return InvalidText(codePoint);
    }
    var str := new byte[5];
    var bits := codePoint;
    if codePoint <= 0x7F {
      str[1] := 0;
      str[0] := bits;
    } else if codePoint <= 0x7FF {
      var t1;
      str[2] := 0;
      t1, bits := ChopLowBits(bits);
      str[1] := 0x80 + t1;
      str[0] := 0xC0 + bits;
    } else if codePoint <= 0xFFFF {
      var t1, t2;
      str[3] := 0;
      t2, bits := ChopLowBits(bits);
      str[2] := 0x80 + t2;
      t1, bits := ChopLowBits(bits);
      str[1] := 0x80 + t1;
      str[0] := 0xE0 + bits;
    } else {
      var t1, t2, t3;
      str[4] := 0;
      t3, bits := ChopLowBits(bits);
      str[3] := 0x80 + t3;
      t2, bits := ChopLowBits(bits);
      str[2] := 0x80 + t2;
      t1, bits := ChopLowBits(bits);
      str[1] := 0x80 + t1;
      str[0] := 0xF0 + bits;
    }
    LayoutByChopping(codePoint);
    ghost var n := |Utf8Of(codePoint)|;
    assert str[n] == 0 && forall k :: 0 <= k < n ==> str[k] == Utf8Of(codePoint)[k];
    r := CString(str);
  }

  // ----- UTF-16 by section 2 of RFC 2781 -----

  ghost function Utf16Of(c: int): seq<uint32>
    requires IsScalar(c)
  {
    if c < 0x1_0000 then [c] else [0xD800 + (c - 0x1_0000) / 0x400, 0xDC00 + (c - 0x1_0000) % 0x400]
  }

  ghost predicate Encodes16(units: seq<uint32>, scalars: seq<int>)
    decreases |scalars|
  {
    if scalars == [] then units == []
    else
      && IsScalar(scalars[0]) && Utf16Of(scalars[0]) <= units
      && Encodes16(units[|Utf16Of(scalars[0])|..], scalars[1..])
  }

  // ----- Wide strings -----

  /** wchar_t has two bytes, so that a string is UTF-16, or four. */
  datatype WideChar = TwoBytes | FourBytes

  predicate IsUtf16SurrogatePair(wide: WideChar, first: uint32, second: uint32) {
    wide == TwoBytes && first / 0x400 == 0x36 && second / 0x400 == 0x37
  }

  function CreateCodePointFromUtf16SurrogatePair(wide: WideChar, first: uint32, second: uint32): uint32 {
    if wide == TwoBytes then first % 0x400 * 0x400 + second % 0x400 + 0x1_0000 else first
  }

  ghost predicate Fits(wide: WideChar, units: seq<uint32>) {
    wide == TwoBytes ==> forall i :: 0 <= i < |units| ==> units[i] < 0x1_0000
  }

  /** The code points taken from the units up to a NUL: a pair counts as one. */
  ghost function CodePoints(wide: WideChar, units: seq<uint32>): seq<uint32> {
    if units == [] || units[0] == 0 then []
    else if |units| > 1 && IsUtf16SurrogatePair(wide, units[0], units[1]) then
      [CreateCodePointFromUtf16SurrogatePair(wide, units[0], units[1])] + CodePoints(wide, units[2..])
    else
      [units[0]] + CodePoints(wide, units[1..])
  }

  ghost function TextOf(codePoints: seq<uint32>): seq<byte> {
    if codePoints == [] then [] else Utf8Of(codePoints[0]) + TextOf(codePoints[1..])
  }

  /** The units that count when at most numChars are processed: all of them if it is -1 or passes the end of
      the string, where a NUL follows, and none if it is below -1. */
  function Processed(units: seq<uint32>, numChars: int): seq<uint32> {
    if numChars == -1 || numChars > |units| then units else if numChars < 0 then [] else units[..numChars]
  }

  /** A limit counts units from the front; -1 and a limit beyond the end are none, and below -1 nothing is processed. */
  lemma ProcessedMeans(units: seq<uint32>, numChars: int)
    ensures numChars == -1 ==> Processed(units, numChars) == units
    ensures numChars < -1 ==> Processed(units, numChars) == []
    ensures numChars >= 0 ==>
      Processed(units, numChars) == units[..if numChars < |units| then numChars else |units|]
  {
  }

  ghost predicate PairAt(wide: WideChar, units: seq<uint32>, i: nat) {
    i + 1 < |units| && IsUtf16SurrogatePair(wide, units[i], units[i + 1])
  }

  /** The code point that one step takes from the units. */
  ghost function PointAt(wide: WideChar, units: seq<uint32>, i: nat): uint32
    requires i < |units|
  {
    if PairAt(wide, units, i) then CreateCodePointFromUtf16SurrogatePair(wide, units[i], units[i + 1]) else units[i]
  }

  /** The text of the units that are still to be converted. */
  ghost function TextFrom(wide: WideChar, units: seq<uint32>, i: nat): seq<byte>
    requires i <= |units|
  {
    TextOf(CodePoints(wide, units[i..]))
  }

  lemma PointTaken(wide: WideChar, units: seq<uint32>, i: nat)
    requires i < |units| && units[i] != 0
    ensures var next := if PairAt(wide, units, i) then i + 2 else i + 1;
      CodePoints(wide, units[i..]) == [PointAt(wide, units, i)] + CodePoints(wide, units[next..])
  {
    if PairAt(wide, units, i) {
      assert units[i..][2..] == units[i + 2..];
    } else {
      assert units[i..][1..] == units[i + 1..];
    }
  }

  lemma StepTaken(wide: WideChar, units: seq<uint32>, i: nat, before: seq<byte>)
    requires i < |units| && units[i] != 0
    ensures var next := if PairAt(wide, units, i) then i + 2 else i + 1;
      before + Utf8Of(PointAt(wide, units, i)) + TextFrom(wide, units, next) == before + TextFrom(wide, units, i)
  {
    PointTaken(wide, units, i);
    var next := if PairAt(wide, units, i) then i + 2 else i + 1;
    FirstText(PointAt(wide, units, i), CodePoints(wide, units[next..]), before);
  }

  lemma FirstText(c: uint32, others: seq<uint32>, before: seq<byte>)
    ensures before + Utf8Of(c) + TextOf(others) == before + TextOf([c] + others)
  {
    assert ([c] + others)[1..] == others;
    Regroup(before, Utf8Of(c), TextOf(others));
  }

  lemma NothingLeft(wide: WideChar, units: seq<uint32>, i: nat)
    requires i <= |units| && (i < |units| ==> units[i] == 0)
    ensures TextFrom(wide, units, i) == []
  {
  }

  /** The code point at i, which is a unit or a pair of them, and the place behind it. */
  method TakePoint(wide: WideChar, str: seq<uint32>, i: nat) returns (codePoint: uint32, next: nat)
    requires i < |str|
    ensures codePoint == PointAt(wide, str, i) && next == (if PairAt(wide, str, i) then i + 2 else i + 1)
    ensures i < next <= |str|
  {
    if i + 1 < |str| && IsUtf16SurrogatePair(wide, str[i], str[i + 1]) {
      codePoint := CreateCodePointFromUtf16SurrogatePair(wide, str[i], str[i + 1]);
      next := i + 2;
    } else {
      codePoint := str[i];
      next := i + 1;
    }
  }

  method WideStringToUtf8(wide: WideChar, units: seq<uint32>, numChars: int) returns (stream: seq<byte>)
    requires Fits(wide, units)
    ensures stream == TextOf(CodePoints(wide, Processed(units, numChars)))
  {
    var str := Processed(units, numChars);
    assert str[0..] == str;
    stream := [];
    ghost var all := TextFrom(wide, str, 0);
    assert stream + all == all;
    var i := 0;
    while i < |str|
      invariant 0 <= i <= |str|
      invariant stream + TextFrom(wide, str, i) == all
    {
      if str[i] == 0 {
        NothingLeft(wide, str, i);
        return;
      }
      StepTaken(wide, str, i, stream);
      var codePoint;
      codePoint, i := TakePoint(wide, str, i);
      var text := CodePointToUtf8(codePoint);
      stream := stream + text;
    }
    NothingLeft(wide, str, i);
  }

  ghost predicate AllScalars(codePoints: seq<int>) {
    forall i :: 0 <= i < |codePoints| ==> IsScalar(codePoints[i])
  }

  /** The text of code points below 2^21 is UTF-8 exactly when all of them are scalar values. */
  lemma {:induction false} TextOfScalars(codePoints: seq<uint32>)
    requires forall i :: 0 <= i < |codePoints| ==> 0 < codePoints[i] < 0x20_0000
    ensures IsUtf8(TextOf(codePoints)) <==> AllScalars(codePoints)
    ensures AllScalars(codePoints) ==> Encodes(TextOf(codePoints), codePoints)
    decreases |codePoints|
  {
    if codePoints != [] {
      var c, rest := codePoints[0], codePoints[1..];
      TextOfScalars(rest);
      if IsScalar(c) {
        LayoutIsChar(c);
        var s := TextOf(codePoints);
        assert s[0..] == s && s[..|Layout(c)|] == Layout(c) && s[|Layout(c)|..] == TextOf(rest);
        CharPassed(s, 0, |Layout(c)|);
        assert AllScalars(codePoints) <==> AllScalars(rest) by {
          assert codePoints == [c] + rest;
        }
      } else {
        NonScalarIsNotUtf8(c, TextOf(rest));
      }
    }
  }

  /** Surrogate pairs are combined exactly as UTF-16 prescribes: NUL-free units encode the code points
      taken from them if these are all scalar values, and otherwise encode nothing. */
  lemma {:induction false} PairsAreUtf16(units: seq<uint32>)
    requires Fits(TwoBytes, units) && 0 !in units
    ensures forall i :: 0 <= i < |CodePoints(TwoBytes, units)| ==> 0 < CodePoints(TwoBytes, units)[i] < 0x20_0000
    ensures AllScalars(CodePoints(TwoBytes, units)) ==> Encodes16(units, CodePoints(TwoBytes, units))
    decreases |units|
  {
    if units != [] {
      var n := if |units| > 1 && IsUtf16SurrogatePair(TwoBytes, units[0], units[1]) then 2 else 1;
      PairsAreUtf16(units[n..]);
      var all := CodePoints(TwoBytes, units);
      assert all[1..] == CodePoints(TwoBytes, units[n..]);
      if n == 2 {
        var hi, lo := units[0] % 0x400, units[1] % 0x400;
        assert all[0] - 0x1_0000 == hi * 0x400 + lo && units[0] == 0xD800 + hi && units[1] == 0xDC00 + lo;
        assert Utf16Of(all[0]) == units[..2];
      }
      if AllScalars(all) {
        assert AllScalars(all[1..]);
        assert Utf16Of(all[0]) == units[..n];
      }
    }
  }

  lemma {:induction false} Utf16IsPairs(units: seq<uint32>, scalars: seq<int>)
    requires Fits(TwoBytes, units) && 0 !in units && Encodes16(units, scalars)
    ensures AllScalars(scalars) && CodePoints(TwoBytes, units) == scalars
    decreases |scalars|
  {
    if scalars != [] {
      var c := scalars[0];
      var n := |Utf16Of(c)|;
      Utf16IsPairs(units[n..], scalars[1..]);
      FirstPoint(units, c);
      assert scalars == [c] + scalars[1..];
    }
  }

  lemma FirstPoint(units: seq<uint32>, c: int)
    requires IsScalar(c) && Utf16Of(c) <= units && 0 !in units
    ensures CodePoints(TwoBytes, units) == [c] + CodePoints(TwoBytes, units[|Utf16Of(c)|..])
  {
    assert units[0] == Utf16Of(c)[0] && units[0] in units;
    if c >= 0x1_0000 {
      assert units[1] == Utf16Of(c)[1];
      PairOf(c);
    } else {
      assert units[0] / 0x400 != 0x36;
    }
  }

  lemma PairOf(c: int)
    requires 0x1_0000 <= c <= 0x10FFFF
    ensures var high, low := 0xD800 + (c - 0x1_0000) / 0x400, 0xDC00 + (c - 0x1_0000) % 0x400;
      && high / 0x400 == 0x36 && low / 0x400 == 0x37
      && high % 0x400 * 0x400 + low % 0x400 + 0x1_0000 == c
  {
  }

  /** NUL-free UTF-16 becomes UTF-8 for the same scalar values. */
  lemma WideTextOfUtf16(units: seq<uint32>, scalars: seq<int>)
    requires Fits(TwoBytes, units) && 0 !in units && Encodes16(units, scalars)
    ensures Encodes(TextOf(CodePoints(TwoBytes, units)), scalars) && IsUtf8(TextOf(CodePoints(TwoBytes, units)))
  {
    Utf16IsPairs(units, scalars);
    PairsAreUtf16(units);
    TextOfScalars(CodePoints(TwoBytes, units));
  }

  ghost predicate IsUtf16(units: seq<uint32>) {
    exists scalars :: Encodes16(units, scalars)
  }

  /** A NUL-free string of 16-bit units becomes UTF-8 exactly when it is UTF-16. */
  lemma WideTextIsUtf8Exactly(units: seq<uint32>)
    requires Fits(TwoBytes, units) && 0 !in units
    ensures IsUtf8(TextOf(CodePoints(TwoBytes, units))) <==> IsUtf16(units)
  {
    if IsUtf16(units) {
      var scalars :| Encodes16(units, scalars);
      WideTextOfUtf16(units, scalars);
    } else {
      PairsAreUtf16(units);
      TextOfScalars(CodePoints(TwoBytes, units));
    }
  }

  // ----- Four-byte wide strings -----

  lemma {:induction false} AsciiPassed(a: seq<byte>, b: seq<byte>)
    requires forall i :: 0 <= i < |a| ==> a[i] < 0x80
    ensures IsUtf8(a + b) <==> IsUtf8(b)
  {
    if a == [] {
      assert a + b == b;
    } else {
      var s := a + b;
      AsciiPassed(a[1..], b);
      assert s[0..] == s && s[..1] == [a[0]] && s[1..] == a[1..] + b;
      CharPassed(s, 0, 1);
    }
  }

  /** A code point that is written either as itself or as the remark on an invalid one. */
  ghost predicate IsWritable(c: uint32) {
    IsScalar(c) || c >= 0x20_0000
  }

  ghost predicate AllWritable(codePoints: seq<uint32>) {
    forall i :: 0 <= i < |codePoints| ==> IsWritable(codePoints[i])
  }

  lemma FirstDecides(c: uint32, rest: seq<byte>)
    requires c != 0
    ensures IsUtf8(Utf8Of(c) + rest) <==> IsWritable(c) && IsUtf8(rest)
  {
    var s, n := Utf8Of(c) + rest, |Utf8Of(c)|;
    if IsScalar(c) {
      LayoutIsChar(c);
      assert s[0..] == s && s[..n] == Layout(c) && s[n..] == rest;
      CharPassed(s, 0, n);
    } else if c < 0x20_0000 {
      NonScalarIsNotUtf8(c, rest);
    } else {
      AsciiPassed(InvalidText(c), rest);
    }
  }

  lemma {:induction false} TextOfAny(codePoints: seq<uint32>)
    requires 0 !in codePoints
    ensures IsUtf8(TextOf(codePoints)) <==> AllWritable(codePoints)
    decreases |codePoints|
  {
    if codePoints != [] {
      var c, rest := codePoints[0], codePoints[1..];
      TextOfAny(rest);
      FirstDecides(c, TextOf(rest));
      assert codePoints == [c] + rest;
    }
  }

  lemma {:induction false} FourBytesAreCodePoints(units: seq<uint32>)
    requires 0 !in units
    ensures CodePoints(FourBytes, units) == units
  {
    if units != [] {
      FourBytesAreCodePoints(units[1..]);
    }
  }

  lemma ScalarsReadBack(units: seq<uint32>)
    requires 0 !in units && AllScalars(units)
    ensures Encodes(TextOf(units), units)
  {
    forall i | 0 <= i < |units| ensures 0 < units[i] < 0x20_0000 {
      assert units[i] in units;
    }
    TextOfScalars(units);
  }

  /** A NUL-free string of 32-bit units becomes UTF-8 exactly when every unit below 2^21 is a scalar value, and
      decodes back to its units exactly when all of them are. */
  lemma WideTextOfUtf32(units: seq<uint32>)
    requires 0 !in units
    ensures IsUtf8(TextOf(CodePoints(FourBytes, units))) <==> AllWritable(units)
    ensures Encodes(TextOf(CodePoints(FourBytes, units)), units) <==> AllScalars(units)
  {
    FourBytesAreCodePoints(units);
    TextOfAny(units);
    if AllScalars(units) {
      ScalarsReadBack(units);
    }
  }
}
