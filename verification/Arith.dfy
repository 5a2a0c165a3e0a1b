/** Small facts of integer arithmetic, stated without any named constant. */
module Arith {

  /** The product, under a name that a proof can hide. */
  function Mul(a: int, b: int): int {
    a * b
  }

  lemma MulIs(a: int, b: int)
    ensures Mul(a, b) == a * b
  {
  }

  lemma MulLe(a: int, b: int, c: int)
    requires a <= b && 0 <= c
    ensures a * c <= b * c
  {
  }

  lemma Distrib(a: int, b: int, c: int)
    ensures (a + b) * c == a * c + b * c
    ensures (a - b) * c == a * c - b * c
  {
  }

  /** low + d*r stays below b*r when low < r and d < b. */
  lemma TopDigit(low: nat, d: nat, r: nat, b: nat)
    requires low < r && d < b
    ensures 0 <= d * r && low + d * r < b * r
  {
    MulLe(d + 1, b, r);
    Distrib(d, 1, r);
  }

  lemma DivUnique(v: int, m: nat, q: int, r: int)
    requires 0 < m && v == q * m + r && 0 <= r < m
    ensures v / m == q && v % m == r
  {
    if v / m < q {
      MulLe(v / m + 1, q, m);
      Distrib(v / m, 1, m);
    } else if v / m > q {
      MulLe(q + 1, v / m, m);
      Distrib(q, 1, m);
    }
  }

  lemma DivNat(a: nat, b: nat)
    requires b > 0
    ensures a / b >= 0
  {
    if a / b < 0 { MulLe(a / b, -1, b); }
  }

  lemma Commute(a: int, b: int)
    ensures a * b == b * a
  {
  }

  /** A factor moves past another. */
  lemma MoveFactor(a: int, b: int, c: int)
    ensures a * (b * c) == b * (a * c)
  {
    assert a * (b * c) == a * b * c;
    assert b * (a * c) == b * a * c;
  }

  lemma Commute4(a: int, b: int, c: int, d: int)
    ensures a * b * (c * d) == a * c * (b * d)
  {
    assert a * b * (c * d) == a * (b * (c * d));
    assert b * (c * d) == c * (b * d);
    assert a * (c * (b * d)) == a * c * (b * d);
  }

  /** The product of natural numbers, under a name that a proof can hide */
  function Times(a: nat, b: nat): nat {
    a * b
  }

  lemma TimesNext(a: nat, b: nat)
    ensures Times(a, b + 1) == Times(a, b) + a && Times(a, 0) == 0
  {
  }
}
