/** Decimal text without leading zeros, as a stream prints an unsigned number. */
module Decimal {

  predicate IsDigit(c: char) {
    '0' <= c <= '9'
  }

  ghost predicate AllDigits(s: string) {
    forall i :: 0 <= i < |s| ==> IsDigit(s[i])
  }

  /** The number that a reader takes from the digits. */
  ghost function DecimalValue(s: string): nat
    requires AllDigits(s)
  {
    if s == "" then 0 else DecimalValue(s[..|s| - 1]) * 10 + (s[|s| - 1] - '0') as nat
  }

  /** The digits read as the value, without leading zeros. */
  ghost predicate IsDecimal(s: string, v: nat) {
    s != "" && AllDigits(s) && DecimalValue(s) == v && (s[0] == '0' ==> s == "0")
  }

  function DigitOf(d: nat): char
    requires d < 10
  {
    '0' + d as char
  }

  /** The digits of a positive value, most significant first; none for zero. */
  function Digits(v: nat): string {
    if v == 0 then "" else Digits(v / 10) + [DigitOf(v % 10)]
  }

  lemma {:induction false} DigitsReadBack(v: nat)
    ensures AllDigits(Digits(v)) && DecimalValue(Digits(v)) == v
    ensures v > 0 ==> Digits(v) != "" && Digits(v)[0] != '0'
  {
    if v > 0 {
      DigitsReadBack(v / 10);
      assert Digits(v)[..|Digits(v)| - 1] == Digits(v / 10);
    }
  }

  function DecimalText(v: nat): (s: string)
    ensures IsDecimal(s, v)
  {
    DigitsReadBack(v);
    assert "0"[..0] == "";
    if v == 0 then "0" else Digits(v)
  }
}
