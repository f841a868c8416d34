/** Base64 decoding, against the alphabet and the encoding of section 4 of RFC 4648. */
module Base64 {
  import opened Division
  import opened Text

  type six = v: int | 0 <= v < 0x40

  const UPPER := "ABCDEFGHIJKLMNOPQRSTUVWXYZ"
  const LOWER := "abcdefghijklmnopqrstuvwxyz"
  const DIGITS := "0123456789"
  const ALPHABET := UPPER + LOWER + DIGITS + "+/"

  // ----- The table -----

  /** The position of a character in a list, counted on from the given start; 65 if it is not there. */
  function UnBase64Impl(c: char, base64: string, carry: nat): nat {
    if base64 == "" then 65 else if base64[0] == c then carry else UnBase64Impl(c, base64[1..], carry + 1)
  }

  function UnBase64(c: char): nat {
    UnBase64Impl(c, ALPHABET, 0)
  }

  lemma {:induction false} TableFinds(c: char, base64: string, carry: nat)
    requires carry + |base64| <= 64
    ensures var v := UnBase64Impl(c, base64, carry);
      && (c in base64 <==> v < 64) && (c in base64 ==> carry <= v < carry + |base64| && base64[v - carry] == c)
      && (c !in base64 ==> v == 65)
  {
    if base64 != "" {
      TableFinds(c, base64[1..], carry + 1);
    }
  }

  lemma UpperAt(i: nat)
    requires i < 26
    ensures UPPER[i] == 'A' + i as char
  {
  }

  lemma LowerAt(i: nat)
    requires i < 26
    ensures LOWER[i] == 'a' + i as char
  {
  }

  lemma DigitAt(i: nat)
    requires i < 10
    ensures DIGITS[i] == '0' + i as char
  {
  }

  /** The symbol for a 6-bit value. */
  ghost function Symbol(v: nat): char
    requires v < 64
  {
    if v < 26 then 'A' + v as char else if v < 52 then 'a' + (v - 26) as char
    else if v < 62 then '0' + (v - 52) as char else if v == 62 then '+' else '/'
  }

  lemma AlphabetAt(v: nat)
    requires v < 64
    ensures |ALPHABET| == 64 && ALPHABET[v] == Symbol(v)
  {
    if v < 26 {
      UpperAt(v);
    } else if v < 52 {
      LowerAt(v - 26);
    } else if v < 62 {
      DigitAt(v - 52);
    }
  }

  ghost predicate InAlphabet(c: char) {
    'A' <= c <= 'Z' || 'a' <= c <= 'z' || '0' <= c <= '9' || c == '+' || c == '/'
  }

  /** The 6-bit value of a symbol. */
  ghost function SixOf(c: char): six
    requires InAlphabet(c)
  {
    if 'A' <= c <= 'Z' then (c - 'A') as int else if 'a' <= c <= 'z' then (c - 'a') as int + 26
    else if '0' <= c <= '9' then (c - '0') as int + 52 else if c == '+' then 62 else 63
  }

  lemma SymbolHasSix(v: nat)
    requires v < 64
    ensures InAlphabet(Symbol(v)) && SixOf(Symbol(v)) == v
  {
  }

  lemma FoundIsSymbol(c: char)
    requires UnBase64(c) < 64
    ensures InAlphabet(c) && UnBase64(c) == SixOf(c)
  {
    var v := UnBase64(c);
    FoundInTable(c, v);
    AlphabetAt(v);
    SymbolHasSix(v);
  }

  lemma FoundInTable(c: char, v: nat)
    requires v == UnBase64(c) < 64
    ensures v < |ALPHABET| && ALPHABET[v] == c
  {
    AlphabetAt(0);
    FoundIn(c, ALPHABET, v);
  }

  lemma FoundIn(c: char, base64: string, v: nat)
    requires |base64| == 64 && v == UnBase64Impl(c, base64, 0) < 64
    ensures base64[v] == c
  {
    TableFinds(c, base64, 0);
  }

  lemma SymbolIsFound(c: char)
    requires InAlphabet(c)
    ensures UnBase64(c) < 64
  {
    AlphabetAt(SixOf(c));
    assert c == ALPHABET[SixOf(c)];
    TableFinds(c, ALPHABET, 0);
  }

  /** The table holds exactly the values of the symbols. */
  lemma TableIsAlphabet(c: char)
    ensures UnBase64(c) < 64 <==> InAlphabet(c)
    ensures UnBase64(c) == if InAlphabet(c) then SixOf(c) else 65
  {
    AlphabetAt(0);
    TableFinds(c, ALPHABET, 0);
    if UnBase64(c) < 64 {
      FoundIsSymbol(c);
    }
    if InAlphabet(c) {
      SymbolIsFound(c);
    }
  }

  // ----- Numbers -----

  /** The bytes as one number to base 256. */
  ghost function BytesNumber(s: seq<byte>): nat {
    if s == [] then 0 else BytesNumber(s[..|s| - 1]) * 0x100 + s[|s| - 1]
  }

  /** The 6-bit values as one number to base 64: their bits one after the other. */
  ghost function SixesNumber(s: seq<six>): nat {
    if s == [] then 0 else SixesNumber(s[..|s| - 1]) * 0x40 + s[|s| - 1]
  }

  lemma {:induction false} BytesNumberInjective(a: seq<byte>, b: seq<byte>)
    requires |a| == |b| && BytesNumber(a) == BytesNumber(b)
    ensures a == b
  {
    if a != [] {
      var n := |a| - 1;
      BytesNumberInjective(a[..n], b[..n]);
      assert a == a[..n] + [a[n]] && b == b[..n] + [b[n]];
    }
  }

  // ----- Decoding -----

  predicate IsSpace(c: char) {
    c == ' ' || 9 as char <= c <= 13 as char
  }

  predicate IsSkipped(c: char) {
    IsSpace(c) || c == '='
  }

  ghost predicate IsDecodable(encoded: string) {
    forall i :: 0 <= i < |encoded| ==> IsSkipped(encoded[i]) || InAlphabet(encoded[i])
  }

  /** Whitespace, line breaks of wrapped text among it, and padding by their codes. */
  ghost predicate IsBlankOrPadding(c: char) {
    c as int in {9, 10, 11, 12, 13, 32, 61}
  }

  /** Blanks and padding may stand anywhere and change nothing; any other character that is no symbol is an error. */
  lemma BlanksAreIgnored(a: string, c: char, b: string)
    ensures IsBlankOrPadding(c) ==> (IsDecodable(a + [c] + b) <==> IsDecodable(a + b))
    ensures IsBlankOrPadding(c) && IsDecodable(a + b) ==> Sixes(a + [c] + b) == Sixes(a + b)
    ensures !IsBlankOrPadding(c) && !InAlphabet(c) ==> !IsDecodable(a + [c] + b)
  {
    var text := a + [c] + b;
    assert forall i :: 0 <= i < |a| ==> text[i] == a[i] && (a + b)[i] == a[i];
    assert forall i :: 0 <= i < |b| ==> text[|a| + 1 + i] == b[i] && (a + b)[|a| + i] == b[i];
    assert text[|a|] == c;
    if IsBlankOrPadding(c) && IsDecodable(a + b) {
      SkippedInside(a, c, b);
    }
  }

  lemma {:induction false} SkippedInside(a: string, c: char, b: string)
    requires IsSkipped(c) && IsDecodable(a + b) && IsDecodable(a + [c] + b)
    ensures Sixes(a + [c] + b) == Sixes(a + b)
    decreases |b|
  {
    if b == "" {
      assert a + b == a && a + [c] + b == a + [c] && IsDecodable(a);
      SixesPush(a, c);
    } else {
      var n := |b| - 1;
      assert a + b == a + b[..n] + [b[n]] && a + [c] + b == a + [c] + b[..n] + [b[n]];
      DecodableFront(a + b[..n], b[n]);
      DecodableFront(a + [c] + b[..n], b[n]);
      SkippedInside(a, c, b[..n]);
      SixesPush(a + b[..n], b[n]);
      SixesPush(a + [c] + b[..n], b[n]);
    }
  }

  lemma DecodableFront(text: string, c: char)
    requires IsDecodable(text + [c])
    ensures IsDecodable(text) && (IsSkipped(c) || InAlphabet(c))
  {
    assert forall i :: 0 <= i < |text| ==> text[i] == (text + [c])[i];
    assert (text + [c])[|text|] == c;
  }

  /** The 6-bit values of the symbols, with whitespace and padding left out. */
  ghost function Sixes(encoded: string): seq<six>
    requires IsDecodable(encoded)
  {
    if encoded == "" then []
    else
      var n := |encoded| - 1;
      Sixes(encoded[..n]) + if IsSkipped(encoded[n]) then [] else [SixOf(encoded[n])]
  }

  lemma SixesPush(text: string, c: char)
    requires IsDecodable(text) && (IsSkipped(c) || InAlphabet(c))
    ensures IsDecodable(text + [c])
    ensures Sixes(text + [c]) == if IsSkipped(c) then Sixes(text) else Sixes(text) + [SixOf(c)]
  {
    assert (text + [c])[..|text|] == text;
  }

  /** What is left over after the whole bytes of k symbols: 0, 2 or 4 bits, and 6 after a lone symbol. */
  ghost function LeftOver(k: nat): nat {
    match 6 * k % 8
    case 0 => 1
    case 2 => 4
    case 4 => 16
    case _ => 64
  }

  /** The first floor(6k / 8) bytes of the bits of k symbols. */
  ghost predicate IsDecoding(decoded: seq<byte>, sixes: seq<six>) {
    && |decoded| == 6 * |sixes| / 8
    && BytesNumber(decoded) == SixesNumber(sixes) / LeftOver(|sixes|)
  }

  /** The decoded bytes and the byte under construction are the symbols' bits, followed by zero bits. */
  ghost predicate Holds(decoded: seq<byte>, dst: byte, bitPos: int, sixes: seq<six>) {
    && 8 * |decoded| + bitPos == 6 * |sixes|
    && var bits, number := BytesNumber(decoded) * 0x100 + dst, SixesNumber(sixes);
       match bitPos
       case 0 => bits == number * 0x100
       case 2 => bits == number * 0x40
       case 4 => bits == number * 0x10
       case 6 => bits == number * 4
       case _ => false
  }

  /** Shifts to the left by 2 to 8 bits within a byte, and to the right by 0 to 4 bits. */
  function ShiftLeft(v: six, n: int): byte
    requires n == 2 || n == 4 || n == 6 || n == 8
  {
    if n == 2 then v * 4 else if n == 4 then v * 0x10 % 0x100 else if n == 6 then v * 0x40 % 0x100 else 0
  }

  function ShiftRight(v: six, n: int): six
    requires n == 0 || n == 2 || n == 4
  {
    if n == 0 then v else if n == 2 then v / 4 else v / 0x10
  }

  /** A symbol's bits are divided between the byte under construction and the next one. */
  lemma Shifted(v: six)
    ensures ShiftRight(v, 4) < 4 && ShiftRight(v, 4) * 0x100 + ShiftLeft(v, 4) == v * 0x10
    ensures ShiftRight(v, 2) < 0x10 && ShiftRight(v, 2) * 0x100 + ShiftLeft(v, 6) == v * 0x40
    ensures ShiftRight(v, 0) < 0x40 && ShiftRight(v, 0) * 0x100 + ShiftLeft(v, 8) == v * 0x100
  {
    QuotientIsUnique(v * 0x10, 0x100, v / 0x10, v % 0x10 * 0x10);
    QuotientIsUnique(v * 0x40, 0x100, v / 4, v % 4 * 0x40);
  }

  lemma HoldsNext(decoded: seq<byte>, dst: byte, bitPos: int, sixes: seq<six>, v: six)
    requires Holds(decoded, dst, bitPos, sixes)
    ensures bitPos == 0 || bitPos == 2 || bitPos == 4 || bitPos == 6
    ensures bitPos == 0 ==> dst + ShiftLeft(v, 2) < 0x100 && Holds(decoded, dst + ShiftLeft(v, 2), 6, sixes + [v])
    ensures bitPos > 0 ==> dst + ShiftRight(v, bitPos - 2) < 0x100
    ensures bitPos > 0 ==> Holds(decoded + [dst + ShiftRight(v, bitPos - 2)], ShiftLeft(v, 10 - bitPos),
                                 (bitPos + 6) % 8, sixes + [v])
  {
    if bitPos == 6 {
      HoldsAfterSix(decoded, dst, sixes, v);
    } else if bitPos == 4 {
      HoldsAfterFour(decoded, dst, sixes, v);
    } else if bitPos == 2 {
      HoldsAfterTwo(decoded, dst, sixes, v);
    } else {
      SixesNumberPush(sixes, v);
    }
  }

  lemma HoldsAfterSix(decoded: seq<byte>, dst: byte, sixes: seq<six>, v: six)
    requires Holds(decoded, dst, 6, sixes)
    ensures dst + ShiftRight(v, 4) < 0x100
    ensures Holds(decoded + [dst + ShiftRight(v, 4)], ShiftLeft(v, 4), 4, sixes + [v])
  {
    SixesNumberPush(sixes, v);
    Shifted(v);
    AfterSix(BytesNumber(decoded), dst, SixesNumber(sixes), v, ShiftRight(v, 4), ShiftLeft(v, 4));
    PushByte(decoded, dst + ShiftRight(v, 4));
  }

  lemma HoldsAfterFour(decoded: seq<byte>, dst: byte, sixes: seq<six>, v: six)
    requires Holds(decoded, dst, 4, sixes)
    ensures dst + ShiftRight(v, 2) < 0x100
    ensures Holds(decoded + [dst + ShiftRight(v, 2)], ShiftLeft(v, 6), 2, sixes + [v])
  {
    SixesNumberPush(sixes, v);
    Shifted(v);
    AfterFour(BytesNumber(decoded), dst, SixesNumber(sixes), v, ShiftRight(v, 2), ShiftLeft(v, 6));
    PushByte(decoded, dst + ShiftRight(v, 2));
  }

  lemma HoldsAfterTwo(decoded: seq<byte>, dst: byte, sixes: seq<six>, v: six)
    requires Holds(decoded, dst, 2, sixes)
    ensures dst + ShiftRight(v, 0) < 0x100
    ensures Holds(decoded + [dst + ShiftRight(v, 0)], ShiftLeft(v, 8), 0, sixes + [v])
  {
    SixesNumberPush(sixes, v);
    Shifted(v);
    AfterTwo(BytesNumber(decoded), dst, SixesNumber(sixes), v, ShiftRight(v, 0), ShiftLeft(v, 8));
    PushByte(decoded, dst + ShiftRight(v, 0));
  }

  lemma AfterSix(bytes: nat, dst: byte, number: nat, v: six, high: nat, low: nat)
    requires bytes * 0x100 + dst == number * 4 && high < 4 && high * 0x100 + low == v * 0x10
    ensures dst + high < 0x100 && (bytes * 0x100 + (dst + high)) * 0x100 + low == (number * 0x40 + v) * 0x10
  {
    assert dst == (number - bytes * 0x40) * 4;
  }

  lemma AfterFour(bytes: nat, dst: byte, number: nat, v: six, high: nat, low: nat)
    requires bytes * 0x100 + dst == number * 0x10 && high < 0x10 && high * 0x100 + low == v * 0x40
    ensures dst + high < 0x100 && (bytes * 0x100 + (dst + high)) * 0x100 + low == (number * 0x40 + v) * 0x40
  {
    assert dst == (number - bytes * 0x10) * 0x10;
  }

  lemma AfterTwo(bytes: nat, dst: byte, number: nat, v: six, high: nat, low: nat)
    requires bytes * 0x100 + dst == number * 0x40 && high < 0x40 && high * 0x100 + low == v * 0x100
    ensures dst + high < 0x100 && (bytes * 0x100 + (dst + high)) * 0x100 + low == (number * 0x40 + v) * 0x100
  {
    assert dst == (number - bytes * 4) * 0x40;
  }

  lemma SixesNumberPush(sixes: seq<six>, v: six)
    ensures SixesNumber(sixes + [v]) == SixesNumber(sixes) * 0x40 + v
  {
    assert (sixes + [v])[..|sixes|] == sixes;
  }

  lemma PushByte(s: seq<byte>, b: byte)
    ensures BytesNumber(s + [b]) == BytesNumber(s) * 0x100 + b
  {
    assert (s + [b])[..|s|] == s;
  }

  lemma HoldsIsDecoding(decoded: seq<byte>, dst: byte, bitPos: int, sixes: seq<six>)
    requires Holds(decoded, dst, bitPos, sixes)
    ensures IsDecoding(decoded, sixes)
  {
    assert 6 * |sixes| % 8 == bitPos && 6 * |sixes| / 8 == |decoded|;
  }

  /** The bits that dst already holds and those or-ed into it never overlap, so they are added. */
  method TakeSix(decoded: seq<byte>, dst: byte, bitPos: int, srcBin: six, ghost sixes: seq<six>)
    returns (decoded': seq<byte>, dst': byte, bitPos': int)
    requires Holds(decoded, dst, bitPos, sixes)
    ensures Holds(decoded', dst', bitPos', sixes + [srcBin])
  {
    HoldsNext(decoded, dst, bitPos, sixes, srcBin);
    if bitPos == 0 {
      decoded', dst', bitPos' := decoded, dst + ShiftLeft(srcBin, 2), 6;
    } else {
      dst' := dst + ShiftRight(srcBin, bitPos - 2);
      decoded' := decoded + [dst'];
      dst' := ShiftLeft(srcBin, 10 - bitPos);
      bitPos' := (bitPos + 6) % 8;
    }
  }

  method Base64Unescape(encoded: string) returns (ok: bool, decoded: seq<byte>)
    requires forall i :: 0 <= i < |encoded| ==> encoded[i] < 256 as char
    ensures ok <==> IsDecodable(encoded)
    ensures if ok then IsDecoding(decoded, Sixes(encoded)) else decoded == []
  {
    decoded := [];
    var bitPos := 0;
    var dst: byte := 0;
    ghost var sixes: seq<six> := [];
    for i := 0 to |encoded|
      invariant IsDecodable(encoded[..i]) && sixes == Sixes(encoded[..i]) && Holds(decoded, dst, bitPos, sixes)
    {
      assert encoded[..i + 1] == encoded[..i] + [encoded[i]];
      var src := encoded[i];
      if IsSkipped(src) {
        SixesPush(encoded[..i], src);
        continue;
      }
      TableIsAlphabet(src);
      var srcBin := UnBase64(src);
      if srcBin >= 64 {
        return false, [];
      }
      SixesPush(encoded[..i], src);
      decoded, dst, bitPos := TakeSix(decoded, dst, bitPos, srcBin, sixes);
      sixes := sixes + [srcBin];
    }
    assert encoded[..|encoded|] == encoded;
    HoldsIsDecoding(decoded, dst, bitPos, sixes);
    ok := true;
  }

  // ----- Encoding -----

  /** The 6-bit values that encode bytes: four for each three, and two or three for what remains. */
  ghost function SixesOf(s: seq<byte>): seq<six> {
    var n := |s|;
    if n == 0 then []
    else if n % 3 == 0 then
      var a, b, c := s[n - 3], s[n - 2], s[n - 1];
      SixesOf(s[..n - 3]) + [a / 4, a % 4 * 0x10 + b / 0x10, b % 0x10 * 4 + c / 0x40, c % 0x40]
    else if n % 3 == 1 then
      var a := s[n - 1];
      SixesOf(s[..n - 1]) + [a / 4, a % 4 * 0x10]
    else
      var a, b := s[n - 2], s[n - 1];
      SixesOf(s[..n - 2]) + [a / 4, a % 4 * 0x10 + b / 0x10, b % 0x10 * 4]
  }

  ghost function Symbols(sixes: seq<six>): string {
    if sixes == [] then "" else Symbols(sixes[..|sixes| - 1]) + [Symbol(sixes[|sixes| - 1])]
  }

  /** The encoding: the symbols, padded to a multiple of four. */
  ghost function Encode(s: seq<byte>): string {
    Symbols(SixesOf(s)) + if |s| % 3 == 0 then "" else if |s| % 3 == 1 then "==" else "="
  }

  /** Four characters for every three bytes begun, and padding at the end alone. */
  lemma EncodeIsPadded(s: seq<byte>)
    ensures |Encode(s)| == (|s| + 2) / 3 * 4
    ensures '=' !in Symbols(SixesOf(s))
  {
    SixesCount(s);
    SymbolsCount(SixesOf(s));
    PaddedCount(|s|);
  }

  lemma PaddedCount(n: nat)
    ensures var sixes := n / 3 * 4 + if n % 3 == 0 then 0 else n % 3 + 1;
      sixes + (if n % 3 == 0 then 0 else if n % 3 == 1 then 2 else 1) == (n + 2) / 3 * 4
  {
  }

  lemma {:induction false} SixesCount(s: seq<byte>)
    ensures |SixesOf(s)| == |s| / 3 * 4 + if |s| % 3 == 0 then 0 else |s| % 3 + 1
    decreases |s|
  {
    var n := |s|;
    if n >= 3 && n % 3 == 0 {
      SixesCount(s[..n - 3]);
    } else if n % 3 == 1 {
      SixesCount(s[..n - 1]);
    } else if n % 3 == 2 {
      SixesCount(s[..n - 2]);
    }
  }

  lemma {:induction false} SymbolsCount(sixes: seq<six>)
    ensures |Symbols(sixes)| == |sixes| && '=' !in Symbols(sixes)
  {
    if sixes != [] {
      SymbolsCount(sixes[..|sixes| - 1]);
    }
  }

  lemma PushSixes(s: seq<six>, a: six, b: six)
    ensures SixesNumber(s + [a]) == SixesNumber(s) * 0x40 + a
    ensures SixesNumber(s + [a, b]) == (SixesNumber(s) * 0x40 + a) * 0x40 + b
  {
    assert (s + [a])[..|s|] == s;
    assert (s + [a, b])[..|s| + 1] == s + [a];
  }

  lemma PushQuadruple(s: seq<six>, a: byte, b: byte, c: byte)
    ensures SixesNumber(s + [a / 4, a % 4 * 0x10 + b / 0x10]) == SixesNumber(s) * 0x1000 + a * 0x10 + b / 0x10
    ensures SixesNumber(s + [a / 4, a % 4 * 0x10 + b / 0x10, b % 0x10 * 4])
      == (SixesNumber(s) * 0x1_0000 + a * 0x100 + b) * 4
    ensures SixesNumber(s + [a / 4, a % 4 * 0x10 + b / 0x10, b % 0x10 * 4 + c / 0x40, c % 0x40])
         == SixesNumber(s) * 0x100_0000 + a * 0x1_0000 + b * 0x100 + c
  {
    var two := s + [a / 4, a % 4 * 0x10 + b / 0x10];
    PushSixes(s, a / 4, a % 4 * 0x10 + b / 0x10);
    PushSixes(two, b % 0x10 * 4, 0);
    PushSixes(two, b % 0x10 * 4 + c / 0x40, c % 0x40);
    assert two + [b % 0x10 * 4] == s + [a / 4, a % 4 * 0x10 + b / 0x10, b % 0x10 * 4];
    assert two + [b % 0x10 * 4 + c / 0x40, c % 0x40] ==
           s + [a / 4, a % 4 * 0x10 + b / 0x10, b % 0x10 * 4 + c / 0x40, c % 0x40];
  }

  /** Dropping the last one, two or three bytes from the number. */
  ghost function Dropped(s: seq<byte>, k: nat): nat
    requires k <= |s|
  {
    BytesNumber(s[..|s| - k])
  }

  lemma PullBytes(s: seq<byte>)
    ensures |s| >= 1 ==> BytesNumber(s) == Dropped(s, 1) * 0x100 + s[|s| - 1]
    ensures |s| >= 2 ==> Dropped(s, 1) == Dropped(s, 2) * 0x100 + s[|s| - 2]
    ensures |s| >= 3 ==> Dropped(s, 2) == Dropped(s, 3) * 0x100 + s[|s| - 3]
  {
    if |s| >= 2 {
      assert s[..|s| - 1][..|s| - 2] == s[..|s| - 2];
      if |s| >= 3 {
        assert s[..|s| - 2][..|s| - 3] == s[..|s| - 3];
      }
    }
  }

  lemma WholeGroup(s: seq<byte>)
    requires |s| > 0 && |s| % 3 == 0 && SixesNumber(SixesOf(s[..|s| - 3])) == Dropped(s, 3)
    ensures SixesNumber(SixesOf(s)) == BytesNumber(s) && |SixesOf(s)| == |SixesOf(s[..|s| - 3])| + 4
  {
    PullBytes(s);
    PushQuadruple(SixesOf(s[..|s| - 3]), s[|s| - 3], s[|s| - 2], s[|s| - 1]);
  }

  lemma LastByte(s: seq<byte>)
    requires |s| % 3 == 1 && SixesNumber(SixesOf(s[..|s| - 1])) == Dropped(s, 1)
    ensures SixesNumber(SixesOf(s)) == BytesNumber(s) * 0x10 && |SixesOf(s)| == |SixesOf(s[..|s| - 1])| + 2
  {
    PullBytes(s);
    PushQuadruple(SixesOf(s[..|s| - 1]), s[|s| - 1], 0, 0);
  }

  lemma LastTwoBytes(s: seq<byte>)
    requires |s| % 3 == 2 && SixesNumber(SixesOf(s[..|s| - 2])) == Dropped(s, 2)
    ensures SixesNumber(SixesOf(s)) == BytesNumber(s) * 4 && |SixesOf(s)| == |SixesOf(s[..|s| - 2])| + 3
  {
    PullBytes(s);
    PushQuadruple(SixesOf(s[..|s| - 2]), s[|s| - 2], s[|s| - 1], 0);
  }

  /** Whole groups of three bytes keep their number. */
  lemma {:induction false} WholeGroups(s: seq<byte>)
    requires |s| % 3 == 0
    ensures SixesNumber(SixesOf(s)) == BytesNumber(s) && |SixesOf(s)| == |s| / 3 * 4
    decreases |s|
  {
    if |s| > 0 {
      WholeGroups(s[..|s| - 3]);
      WholeGroup(s);
    }
  }

  /** Encoding keeps the bits, with zero bits filled in at the end. */
  lemma SixesOfNumber(s: seq<byte>)
    ensures |SixesOf(s)| == |s| / 3 * 4 + if |s| % 3 == 0 then 0 else |s| % 3 + 1
    ensures |s| % 3 == 0 ==> SixesNumber(SixesOf(s)) == BytesNumber(s)
    ensures |s| % 3 == 1 ==> SixesNumber(SixesOf(s)) == BytesNumber(s) * 0x10
    ensures |s| % 3 == 2 ==> SixesNumber(SixesOf(s)) == BytesNumber(s) * 4
  {
    WholeGroups(s[..|s| - |s| % 3]);
    if |s| % 3 == 1 {
      LastByte(s);
    } else if |s| % 3 == 2 {
      LastTwoBytes(s);
    } else {
      assert s[..|s|] == s;
    }
  }

  /** Whatever decodes the symbols that encode some bytes gives back these bytes, wherever whitespace and
      padding are put. */
  lemma EncodingDecodesBack(s: seq<byte>, decoded: seq<byte>)
    requires IsDecoding(decoded, SixesOf(s))
    ensures decoded == s
  {
    SixesOfNumber(s);
    var k := |SixesOf(s)|;
    assert 6 * k / 8 == |s|;
    BytesNumberInjective(decoded, s);
  }

  lemma {:induction false} PaddingSkipped(text: string, padding: string)
    requires IsDecodable(text) && forall i :: 0 <= i < |padding| ==> IsSkipped(padding[i])
    ensures IsDecodable(text + padding) && Sixes(text + padding) == Sixes(text)
    decreases |padding|
  {
    if padding == "" {
      assert text + padding == text;
    } else {
      var p := |padding| - 1;
      PaddingSkipped(text, padding[..p]);
      SixesPush(text + padding[..p], padding[p]);
      assert text + padding == text + padding[..p] + [padding[p]];
    }
  }

  lemma {:induction false} SymbolsDecode(sixes: seq<six>)
    ensures IsDecodable(Symbols(sixes)) && Sixes(Symbols(sixes)) == sixes
  {
    if sixes != [] {
      var n := |sixes| - 1;
      SymbolsDecode(sixes[..n]);
      SymbolInAlphabet(sixes[n]);
      SixesPush(Symbols(sixes[..n]), Symbol(sixes[n]));
    }
  }

  lemma SymbolInAlphabet(v: six)
    ensures InAlphabet(Symbol(v)) && SixOf(Symbol(v)) == v && !IsSkipped(Symbol(v))
  {
  }

  /** The padded encoding is decodable, to exactly the bytes it encodes. */
  lemma EncodeIsDecodable(s: seq<byte>)
    ensures IsDecodable(Encode(s)) && Sixes(Encode(s)) == SixesOf(s)
  {
    SymbolsDecode(SixesOf(s));
    PaddingSkipped(Symbols(SixesOf(s)), if |s| % 3 == 0 then "" else if |s| % 3 == 1 then "==" else "=");
  }
}
