/** Decimal printing of 128-bit integers by long division on two 64-bit limbs. */
module WideInteger {
  import opened Decimal

  const TWO_64 := 0x1_0000_0000_0000_0000
  const TWO_127 := 0x8000_0000_0000_0000_0000_0000_0000_0000
  const TWO_128 := 0x1_0000_0000_0000_0000_0000_0000_0000_0000

  /** 2^64 / 10; the remainder is 6. */
  const TENTH := 1844674407370955161

  type uint64 = u: int | 0 <= u < TWO_64

  /** 64-bit wrap-around. */
  function Wrap(x: nat): (r: uint64)
    ensures x < TWO_64 ==> r == x
  {
    x % TWO_64
  }

  // ----- How many digits there are -----

  ghost function Pow10(n: nat): nat {
    if n == 0 then 1 else 10 * Pow10(n - 1)
  }

  lemma {:induction false} Pow10Sum(m: nat, n: nat)
    ensures Pow10(m + n) == Pow10(m) * Pow10(n)
  {
    if m > 0 {
      Pow10Sum(m - 1, n);
      assert Pow10(m + n) == 10 * (Pow10(m - 1) * Pow10(n)) == Pow10(m) * Pow10(n);
    }
  }

  lemma Pow10Of39()
    ensures Pow10(39) > TWO_128
  {
    assert Pow10(3) == 1000;
    Pow10Sum(3, 3);
    assert Pow10(6) == 1_000_000;
    Pow10Sum(6, 6);
    assert Pow10(12) == 1_000_000_000_000;
    Pow10Sum(12, 12);
    assert Pow10(24) == 1_000_000_000_000_000_000_000_000;
    Pow10Sum(24, 12);
    assert Pow10(36) == 1_000_000_000_000_000_000_000_000_000_000_000_000;
    Pow10Sum(36, 3);
  }

  lemma {:induction false} DigitsFit(v: nat, n: nat)
    requires v < Pow10(n)
    ensures |Digits(v)| <= n
  {
    if v > 0 {
      DigitsFit(v / 10, n - 1);
    }
  }

  // ----- One step of the division -----

  /** The step computes the exact quotient and remainder by ten, and the new low limb does not overflow. */
  lemma LongDivisionStep(high: uint64, low: uint64, rest: nat)
    requires rest == high * TWO_64 + low
    ensures var carry := 6 * (high % 10) + low % 10;
      var low' := low / 10 + high % 10 * TENTH + carry / 10;
      && carry < TWO_64 && low' < TWO_64
      && high / 10 * TWO_64 + low' == rest / 10
      && carry % 10 == rest % 10
  {
  }

  // ----- Printing -----

  lemma DigitTaken(v: nat, digits: string)
    requires v > 0
    ensures Digits(v / 10) + ([DigitOf(v % 10)] + digits) == Digits(v) + digits
  {
  }

  method PrintUint128(v: nat) returns (os: string)
    requires v < TWO_128
    ensures IsDecimal(os, v) && |os| <= 39
  {
    if v == 0 {
      assert "0"[..0] == "";
      return "0";
    }
    Pow10Of39();
    DigitsFit(v, 39);
    DigitsReadBack(v);
    os := PrintDigits(v);
  }

  /** The digits are written backwards into a buffer of 40 characters, which 39 digits and a NUL fill. */
  method PrintDigits(v: nat) returns (os: string)
    requires v < TWO_128 && |Digits(v)| <= 39
    ensures os == Digits(v)
  {
    var buf := new char[40];
    var p := buf.Length;
    var high: uint64 := v / TWO_64;
    var low: uint64 := v % TWO_64;
    p := p - 1;
    buf[p] := '\0';
    ghost var rest, digits := v, "";
    while high != 0 || low != 0
      invariant 0 <= p <= 39 && buf[39] == '\0' && buf[p..39] == digits
      invariant rest == high * TWO_64 + low && Digits(rest) + digits == Digits(v)
      decreases rest
    {
      DigitTaken(rest, digits);
      var digit;
      high, low, digit := DivideByTen(high, low);
      p := p - 1;
      buf[p] := DigitOf(digit);
      rest, digits := rest / 10, [DigitOf(rest % 10)] + digits;
    }
    os := buf[p..39];
  }

  /** One round of the division. */
  method DivideByTen(high: uint64, low: uint64) returns (high': uint64, low': uint64, digit: nat)
    ensures high' * TWO_64 + low' == (high * TWO_64 + low) / 10 && digit == (high * TWO_64 + low) % 10
  {
    LongDivisionStep(high, low, high * TWO_64 + low);
    var highMod := high % 10;
    high' := high / 10;
    var carry := Wrap(6 * highMod + low % 10);
    low' := Wrap(low / 10 + highMod * TENTH + carry / 10);
    digit := carry % 10;
  }

  /** 128-bit wrap-around; the conversion from the signed type is the same. */
  function Wrap128(x: int): int {
    x % TWO_128
  }

  /** Negation before the wrap-around does not overflow, even for the minimum. */
  lemma Magnitude(v: int)
    requires -TWO_127 <= v < TWO_127
    ensures if v < 0 then Wrap128(-Wrap128(v)) == -v else Wrap128(v) == v
  {
    if v < 0 {
      assert Wrap128(v) == v + TWO_128;
    }
  }

  lemma SignedText(sign: string, digits: string)
    ensures sign == "-" ==> (sign + digits)[0] == '-' && (sign + digits)[1..] == digits
    ensures sign == "" ==> sign + digits == digits
  {
  }

  method PrintInt128(v: int) returns (os: string)
    requires -TWO_127 <= v < TWO_127
    ensures v >= 0 ==> IsDecimal(os, v)
    ensures v < 0 ==> os != "" && os[0] == '-' && IsDecimal(os[1..], -v)
  {
    Magnitude(v);
    var uv := Wrap128(v);
    var sign := "";
    if v < 0 {
      sign := "-";
      uv := Wrap128(-uv);
    }
    var digits := PrintUint128(uv);
    os := sign + digits;
    SignedText(sign, digits);
  }
}
