/** Three prime tables: trial division, a sieve of fixed capacity, and a hybrid of the two. */
module PrimeTables {
  import opened Division

  ghost predicate Divides(d: int, n: int)
    requires d > 0
  {
    n % d == 0
  }

  ghost predicate IsPrimeNumber(n: int) {
    n >= 2 && forall d :: 2 <= d < n ==> !Divides(d, n)
  }

  /** q is the smallest prime greater than p. */
  ghost predicate IsNextPrime(p: int, q: int) {
    p < q && IsPrimeNumber(q) && forall n :: p < n < q ==> !IsPrimeNumber(n)
  }

  // ----- Divisors -----

  /** One of the divisors that trial division and the sieve look at. */
  ghost predicate IsSmallDivisor(d: int, n: int) {
    d >= 2 && d * d <= n && Divides(d, n)
  }

  ghost predicate HasSmallDivisor(n: int, bound: int) {
    exists d :: 2 <= d < bound && IsSmallDivisor(d, n)
  }

  lemma Quotient(d: int, n: int)
    requires 2 <= d < n && Divides(d, n)
    ensures 2 <= n / d < n && n == d * (n / d) && Divides(n / d, n)
  {
    var e := n / d;
    assert n == e * d;
    if e <= 1 {
      TimesMonotone(e, 1, d);
    }
    TimesMonotone(2, d, e);
    assert d * e == e * d;
    MultipleIsDivided(d, e);
  }

  lemma MultipleIsDivided(k: int, d: int)
    requires d > 0
    ensures Divides(d, k * d)
  {
    QuotientIsUnique(k * d, d, k, 0);
  }

  lemma DividesTransitive(a: int, b: int, c: int)
    requires a > 0 && b > 0 && Divides(a, b) && Divides(b, c)
    ensures Divides(a, c)
  {
    var x, y := b / a, c / b;
    assert b == x * a && c == y * b;
    assert c == (y * x) * a;
    MultipleIsDivided(y * x, a);
  }

  /** Only divisors up to the square root need a look. */
  lemma PrimeBySmallDivisors(n: int, bound: int)
    requires n >= 2 && bound >= 2 && n < bound * bound
    ensures IsPrimeNumber(n) <==> !HasSmallDivisor(n, bound)
  {
    if d :| 2 <= d < bound && IsSmallDivisor(d, n) {
      TimesMonotone(2, d, d);
      assert Divides(d, n);
    } else if d :| 2 <= d < n && Divides(d, n) {
      SmallerOfPair(d, n, bound);
    }
  }

  lemma SmallerOfPair(d: int, n: int, bound: int)
    requires 2 <= d < n < bound * bound && bound >= 2 && Divides(d, n)
    ensures HasSmallDivisor(n, bound)
  {
    Quotient(d, n);
    var e := n / d;
    if d <= e {
      TimesMonotone(d, e, d);
      RootBounds(d, n, bound);
      assert IsSmallDivisor(d, n);
    } else {
      TimesMonotone(e, d, e);
      RootBounds(e, n, bound);
      assert IsSmallDivisor(e, n);
    }
  }

  lemma RootBounds(d: int, n: int, bound: int)
    requires d * d <= n < bound * bound && bound >= 2
    ensures d < bound
  {
    if d >= bound {
      TimesMonotone(bound, d, bound);
      TimesMonotone(bound, d, d);
    }
  }

  // ----- There is always a larger prime -----

  ghost function Factorial(n: nat): (f: nat)
    ensures f > 0
  {
    if n == 0 then 1 else n * Factorial(n - 1)
  }

  lemma {:induction false} FactorialDivided(n: nat, k: int)
    requires 1 <= k <= n
    ensures Divides(k, Factorial(n))
  {
    if k == n {
      MultipleIsDivided(Factorial(n - 1), n);
    } else {
      FactorialDivided(n - 1, k);
      MultipleIsDivided(n, Factorial(n - 1));
      DividesTransitive(k, Factorial(n - 1), Factorial(n));
    }
  }

  lemma {:induction false} PrimeDivisor(n: int) returns (q: int)
    requires n >= 2
    ensures IsPrimeNumber(q) && q <= n && Divides(q, n)
    decreases n
  {
    q := n;
    if !IsPrimeNumber(n) {
      var d :| 2 <= d < n && Divides(d, n);
      q := PrimeDivisor(d);
      DividesTransitive(q, d, n);
    }
  }

  /** Euclid's theorem. */
  lemma PrimeAbove(p: nat) returns (q: int)
    ensures IsPrimeNumber(q) && q > p
  {
    var f := Factorial(p);
    q := PrimeDivisor(f + 1);
    if q <= p {
      FactorialDivided(p, q);
      QuotientIsUnique(f + 1, q, f / q, 1);
    }
  }

  // ----- Implementation 1 -----

  /** What trial division answers for the next prime after p. */
  ghost predicate OnTheFlyAnswer(p: int, r: int) {
    if p < 0 then r == -1 else IsNextPrime(p, r)
  }

  /** The answers at their limits. */
  lemma AnswersAtLimits()
    ensures IsNextPrime(3, 5) && !IsNextPrime(3, 3) && !IsNextPrime(3, 7)
    ensures OnTheFlyAnswer(0, 2) && OnTheFlyAnswer(2, 3) && OnTheFlyAnswer(-1, -1) && !OnTheFlyAnswer(-1, 2)
  {
    assert Divides(2, 4) && !Divides(2, 3) && !Divides(2, 5) && !Divides(3, 5) && !Divides(4, 5);
    assert IsPrimeNumber(2) && IsPrimeNumber(3) && IsPrimeNumber(5);
  }

  class OnTheFlyPrimeTable {
    constructor () {}

    method IsPrime(n: int) returns (r: bool)
      ensures r <==> IsPrimeNumber(n)
    {
      if n <= 1 {
        return false;
      }
      var i := 2;
      while i * i <= n
        invariant 2 <= i <= n && !HasSmallDivisor(n, i)
        decreases n - i
      {
        assert i < i * i;
        if n % i == 0 {
          assert Divides(i, n);
          return false;
        }
        i := i + 1;
      }
      PrimeBySmallDivisors(n, i);
      return true;
    }

    method GetNextPrime(p: int) returns (r: int)
      ensures OnTheFlyAnswer(p, r)
    {
      if p < 0 {
        return -1;
      }
      ghost var q := PrimeAbove(p);
      var n := p + 1;
      while true
        invariant p < n <= q && forall k :: p < k < n ==> !IsPrimeNumber(k)
        decreases q - n
      {
        var found := IsPrime(n);
        if found {
          return n;
        }
        n := n + 1;
      }
    }
  }

  // ----- Implementation 2 -----

  /** The entries up to max are cleared exactly where a divisor below i has been crossed out. */
  ghost predicate Sieved(isPrime: seq<bool>, i: int) {
    && |isPrime| >= 2 && !isPrime[0] && !isPrime[1]
    && forall n :: 2 <= n < |isPrime| ==> (isPrime[n] <==> !HasSmallDivisor(n, i))
  }

  /** While the multiples of i are crossed out, those below j are done. */
  ghost predicate CrossedOut(isPrime: seq<bool>, i: int, j: int) {
    && |isPrime| >= 2 && !isPrime[0] && !isPrime[1]
    && forall n :: 2 <= n < |isPrime| ==>
         (isPrime[n] <==> !HasSmallDivisor(n, i) && !(n < j && IsSmallDivisor(i, n)))
  }

  lemma SmallDivisorStep(n: int, i: int)
    requires i >= 2
    ensures HasSmallDivisor(n, i + 1) <==> HasSmallDivisor(n, i) || IsSmallDivisor(i, n)
  {
    if HasSmallDivisor(n, i) {
      var d :| 2 <= d < i && IsSmallDivisor(d, n);
      assert 2 <= d < i + 1;
    }
  }

  lemma Square(i: int)
    requires i >= 2
    ensures i < i * i
  {
  }

  /** Multiples of a number that is crossed out already are crossed out too. */
  lemma CompositeAddsNothing(n: int, i: int, c: int)
    requires 2 <= i <= c && HasSmallDivisor(c, i) && IsSmallDivisor(c, n)
    ensures HasSmallDivisor(n, i)
  {
    var d :| 2 <= d < i && IsSmallDivisor(d, c);
    assert d * d <= c && Divides(d, c);
    assert c * c <= n && Divides(c, n);
    Square(c);
    DividesTransitive(d, c, n);
    assert IsSmallDivisor(d, n);
  }

  lemma AllCrossedOut(isPrime: seq<bool>, i: int, j: int)
    requires i >= 2 && CrossedOut(isPrime, i, j) && |isPrime| <= j
    ensures Sieved(isPrime, i + 1)
  {
    forall n | 2 <= n < |isPrime| ensures isPrime[n] <==> !HasSmallDivisor(n, i + 1) {
      SmallDivisorStep(n, i);
    }
  }

  lemma CompositeSkipped(isPrime: seq<bool>, i: int)
    requires i >= 2 && Sieved(isPrime, i) && HasSmallDivisor(i, i)
    ensures Sieved(isPrime, i + 1)
  {
    forall n | 2 <= n < |isPrime| ensures isPrime[n] <==> !HasSmallDivisor(n, i + 1) {
      SmallDivisorStep(n, i);
      if IsSmallDivisor(i, n) {
        CompositeAddsNothing(n, i, i);
      }
    }
  }

  /** After an odd candidate the even one can be passed over. */
  lemma EvenSkipped(isPrime: seq<bool>, i: int)
    requires i >= 4 && i % 2 == 0 && Sieved(isPrime, i)
    ensures Sieved(isPrime, i + 1)
  {
    assert IsSmallDivisor(2, i);
    CompositeSkipped(isPrime, i);
  }

  /** One more multiple of i is crossed out; the numbers up to the next multiple are none. */
  lemma CrossOne(isPrime: seq<bool>, i: int, j: int)
    requires i >= 2 && i * i <= j < |isPrime| && Divides(i, j) && CrossedOut(isPrime, i, j)
    ensures CrossedOut(isPrime[j := false], i, j + i) && Divides(i, j + i)
  {
    var q := j / i;
    QuotientIsUnique(j + i, i, q + 1, 0);
    assert i < i * i;
    forall n | j < n < j + i ensures !Divides(i, n) {
      QuotientIsUnique(n, i, q, n - j);
    }
  }

  lemma NothingCrossedYet(isPrime: seq<bool>, i: int)
    requires i >= 2 && Sieved(isPrime, i)
    ensures CrossedOut(isPrime, i, i * i)
  {
  }

  lemma NothingSieved(isPrime: seq<bool>)
    requires |isPrime| >= 2 && !isPrime[0] && !isPrime[1] && forall n :: 2 <= n < |isPrime| ==> isPrime[n]
    ensures Sieved(isPrime, 2)
  {
  }

  /** When the candidates have passed the square root, exactly the primes are left. */
  lemma SieveIsComplete(isPrime: seq<bool>, i: int)
    requires i >= 2 && Sieved(isPrime, i) && |isPrime| <= i * i
    ensures forall n :: 0 <= n < |isPrime| ==> (isPrime[n] <==> IsPrimeNumber(n))
  {
    forall n | 2 <= n < |isPrime| ensures isPrime[n] <==> IsPrimeNumber(n) {
      PrimeBySmallDivisors(n, i);
    }
  }

  class PreCalculatedPrimeTable {
    const isPrimeSize: int
    const isPrime: array<bool>

    ghost predicate Valid()
      reads isPrime
    {
      && isPrimeSize == isPrime.Length
      && forall n :: 0 <= n < isPrime.Length ==> (isPrime[n] <==> IsPrimeNumber(n))
    }

    constructor (max: int)
      requires max >= 1
      ensures Valid() && isPrimeSize == max + 1 && fresh(isPrime)
    {
      isPrimeSize := max + 1;
      isPrime := new bool[max + 1];
      new;
      CalculatePrimesUpTo(max);
    }

    method IsPrime(n: int) returns (r: bool)
      requires Valid()
      ensures r <==> n < isPrimeSize && IsPrimeNumber(n)
    {
      return 0 <= n < isPrimeSize && isPrime[n];
    }

    method GetNextPrime(p: int) returns (r: int)
      requires Valid() && p >= -1
      ensures if r == -1 then forall n :: p < n < isPrimeSize ==> !IsPrimeNumber(n)
        else r < isPrimeSize && IsNextPrime(p, r)
    {
      var n := p + 1;
      while n < isPrimeSize
        invariant p < n && forall k :: p < k < n && k < isPrimeSize ==> !IsPrimeNumber(k)
      {
        if isPrime[n] {
          return n;
        }
        n := n + 1;
      }
      return -1;
    }

    method CalculatePrimesUpTo(max: int)
      requires max >= 1 && isPrime.Length == max + 1
      modifies isPrime
      ensures forall n :: 0 <= n <= max ==> (isPrime[n] <==> IsPrimeNumber(n))
    {
      MarkAll();
      var i := 2;
      while i * i <= max
        invariant i >= 2 && (i == 2 || i % 2 == 1) && Sieved(isPrime[..], i)
        decreases max - i
      {
        Square(i);
        TryCandidate(max, i);
        i := i + i % 2 + 1;
      }
      SieveIsComplete(isPrime[..], i);
      assert forall n :: 0 <= n <= max ==> isPrime[..][n] == isPrime[n];
    }

    /** Before the sieve, all numbers but 0 and 1 are marked. */
    method MarkAll()
      requires isPrime.Length >= 2
      modifies isPrime
      ensures Sieved(isPrime[..], 2)
    {
      for k := 0 to isPrime.Length
        invariant forall n :: 0 <= n < k ==> isPrime[n]
      {
        isPrime[k] := true;
      }
      isPrime[0], isPrime[1] := false, false;
      NothingSieved(isPrime[..]);
    }

    /** The body of the sieve's loop: afterwards the candidates below the next one are done. */
    method TryCandidate(max: int, i: int)
      requires 2 <= i <= max && isPrime.Length == max + 1 && (i == 2 || i % 2 == 1) && Sieved(isPrime[..], i)
      modifies isPrime
      ensures Sieved(isPrime[..], i + i % 2 + 1)
    {
      if !isPrime[i] {
        CompositeSkipped(isPrime[..], i);
      } else {
        CrossOut(max, i);
      }
      if i % 2 == 1 {
        EvenSkipped(isPrime[..], i + 1);
      }
    }

    /** The inner loop of the sieve. */
    method CrossOut(max: int, i: int)
      requires i >= 2 && isPrime.Length == max + 1 && Sieved(isPrime[..], i)
      modifies isPrime
      ensures Sieved(isPrime[..], i + 1)
    {
      NothingCrossedYet(isPrime[..], i);
      MultipleIsDivided(i, i);
      var j := i * i;
      while j <= max
        invariant j >= i * i && Divides(i, j) && CrossedOut(isPrime[..], i, j)
      {
        CrossOne(isPrime[..], i, j);
        isPrime[j] := false;
        j := j + i;
      }
      AllCrossedOut(isPrime[..], i, j);
    }
  }

  // ----- The hybrid -----

  class HybridPrimeTable {
    const onTheFly: OnTheFlyPrimeTable
    const precalc: PreCalculatedPrimeTable?
    const maxPrecalculated: int

    ghost predicate Valid()
      reads if precalc != null then {precalc.isPrime} else {}
    {
      precalc != null ==> precalc.Valid() && precalc.isPrimeSize == maxPrecalculated + 1 && maxPrecalculated >= 1
    }

    constructor (forceOnTheFly: bool, maxPrecalculated: int)
      requires !forceOnTheFly ==> maxPrecalculated >= 1
      ensures Valid() && this.maxPrecalculated == maxPrecalculated && (precalc == null <==> forceOnTheFly)
    {
      onTheFly := new OnTheFlyPrimeTable();
      var table: PreCalculatedPrimeTable? := null;
      if !forceOnTheFly {
        table := new PreCalculatedPrimeTable(maxPrecalculated);
      }
      precalc := table;
      this.maxPrecalculated := maxPrecalculated;
    }

    method IsPrime(n: int) returns (r: bool)
      requires Valid()
      ensures r <==> IsPrimeNumber(n)
    {
      if precalc != null && n < maxPrecalculated {
        r := precalc.IsPrime(n);
      } else {
        r := onTheFly.IsPrime(n);
      }
    }

    /** The answer is that of trial division, except for -1 on a table that holds the prime 2. */
    method GetNextPrime(p: int) returns (r: int)
      requires Valid() && (precalc != null ==> p >= -1)
      ensures OnTheFlyAnswer(p, r) <==> !(precalc != null && p == -1 && maxPrecalculated >= 2)
      ensures !OnTheFlyAnswer(p, r) ==> IsNextPrime(p, r) && r == 2
    {
      var nextPrime := -1;
      if precalc != null && p < maxPrecalculated {
        nextPrime := precalc.GetNextPrime(p);
      }
      if nextPrime != -1 {
        r := nextPrime;
      } else {
        r := onTheFly.GetNextPrime(p);
      }
      assert IsPrimeNumber(2) && !IsPrimeNumber(0) && !IsPrimeNumber(1);
    }
  }
}
