/** Facts about products and quotients that the solver does not find unaided. */
module Division {

  lemma TimesMonotone(a: int, b: int, c: int)
    requires a <= b && c >= 0
    ensures a * c <= b * c
  {
    assert (b - a) * c >= 0;
  }

  lemma QuotientIsUnique(n: int, d: int, q: int, r: int)
    requires 0 <= r < d && n == q * d + r
    ensures n / d == q && n % d == r
  {
    var q', r' := n / d, n % d;
    assert n == q' * d + r';
    if q > q' {
      TimesMonotone(q' + 1, q, d);
    } else if q < q' {
      TimesMonotone(q + 1, q', d);
    }
  }
}
