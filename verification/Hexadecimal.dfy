/** Upper-case hexadecimal text without leading zeros, as a stream prints an unsigned number. */
module Hexadecimal {

  predicate IsXDigit(c: char) {
    '0' <= c <= '9' || 'A' <= c <= 'F' || 'a' <= c <= 'f'
  }

  function DigitValue(c: char): nat
    requires IsXDigit(c)
  {
    if c <= '9' then (c - '0') as nat else if c <= 'F' then (c - 'A') as nat + 10 else (c - 'a') as nat + 10
  }

  function Digit(v: nat): char
    requires v < 16
  {
    if v < 10 then '0' + v as char else 'A' + (v - 10) as char
  }

  function Hex(v: nat): (s: string)
    ensures s != "" && forall i :: 0 <= i < |s| ==> IsXDigit(s[i])
  {
    if v < 16 then [Digit(v)] else Hex(v / 16) + [Digit(v % 16)]
  }

  function Value(s: string): nat
    requires forall i :: 0 <= i < |s| ==> IsXDigit(s[i])
  {
    if s == "" then 0 else 16 * Value(s[..|s| - 1]) + DigitValue(s[|s| - 1])
  }

  /** The digits by their codes. */
  lemma XDigitCodes(c: char)
    ensures IsXDigit(c) <==> var code := c as int; 48 <= code <= 57 || 65 <= code <= 70 || 97 <= code <= 102
  {
  }

  /** Letters of either case are the values from ten to fifteen. */
  lemma LetterValues(k: nat)
    requires k < 6
    ensures DigitValue('A' + k as char) == DigitValue('a' + k as char) == 10 + k
    ensures DigitValue('0' + k as char) == k
  {
  }

  /** Capital letters, and no leading zero. */
  lemma {:induction false} HexIsUpperCase(v: nat)
    ensures forall c :: c in Hex(v) ==> '0' <= c <= '9' || 'A' <= c <= 'F'
    ensures Hex(v)[0] == '0' ==> v == 0
  {
    if v >= 16 {
      HexIsUpperCase(v / 16);
    }
  }

  /** Reading the digits back gives the number. */
  lemma {:induction false} HexReadsBack(v: nat)
    ensures Value(Hex(v)) == v
  {
    if v >= 16 {
      HexReadsBack(v / 16);
      assert Hex(v)[..|Hex(v)| - 1] == Hex(v / 16);
    } else {
      assert Hex(v)[..0] == "";
    }
  }
}
