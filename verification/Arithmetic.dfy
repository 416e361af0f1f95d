/** Facts about quotients and remainders that the solver does not find in products of variables. */
module Arithmetic {
  lemma Gap(m: nat, a: nat, b: nat)
    requires a < b
    ensures b * m >= a * m + m
  {
    var d := b - (a + 1);
    assert b * m == a * m + m + d * m;
    assert d * m >= 0;
  }

  /** A quotient and a remainder below the divisor are the quotient and the remainder. */
  lemma Quotient(v: nat, m: nat, q: nat, r: nat)
    requires m > 0 && v == q * m + r && r < m
    ensures v / m == q && v % m == r
  {
    var q', r' := v / m, v % m;
    assert v == q' * m + r';
    if q' < q {
      Gap(m, q', q);
    } else if q < q' {
      Gap(m, q, q');
    }
  }

  lemma Distribute(a: nat, b: nat, c: nat, p: nat)
    ensures (a * b + c) * p == b * (a * p) + c * p
  {
    assert (a * b + c) * p == (a * b) * p + c * p;
    assert (a * b) * p == b * (a * p);
  }

  /** Dividing by one number and then by another is dividing by their product, in either order. */
  lemma DivideAgain(v: nat, p: nat, b: nat)
    requires p >= 1 && b >= 1
    ensures v / p / b == v / (b * p)
  {
    var q, r := v / p, v % p;
    var c, e := q / b, q % b;
    assert v == q * p + r && q == b * c + e;
    Distribute(b, c, e, p);
    Gap(p, e, b);
    assert 0 <= e * p;
    Quotient(v, b * p, c, e * p + r);
  }

  lemma RemainderCongruent(v: nat, m: nat)
    requires m > 0
    ensures v % m < m && (v - v % m) % m == 0
  {
    var q, r := v / m, v % m;
    assert v - r == q * m;
    assert q * m >= 0;
    Quotient(q * m, m, q, 0);
  }

  /** Rounding down to a multiple of four passes over what is one. */
  lemma RoundBeside(x: nat, z: nat)
    ensures (x + 4 * z) / 4 * 4 == x / 4 * 4 + 4 * z
  {}

  lemma TimesMonotone(p: nat, m: nat, n: nat)
    requires m <= n
    ensures m * p <= n * p
  {}
}
