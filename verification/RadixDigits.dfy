/** Digits of a number in a base from 2 to 36, and numbers read from digits. */
module RadixDigits {
  import opened Arith
  import opened Bits

  type Base = b: nat | 2 <= b <= 36 witness 10

  /** b^n */
  function Pow(b: Base, n: nat): (r: nat)
    ensures r >= 1
  {
    if n == 0 then 1
    else
      MulLe(1, b, Pow(b, n - 1));
      b * Pow(b, n - 1)
  }

  lemma {:induction false} PowAdd(b: Base, n: nat, m: nat)
    ensures Pow(b, n + m) == Pow(b, n) * Pow(b, m)
    decreases m
  {
    hide Pow;
    PowNext(b, 0);
    if m > 0 {
      PowAdd(b, n, m - 1);
      PowNext(b, n + m - 1);
      PowNext(b, m - 1);
      MoveFactor(b, Pow(b, n), Pow(b, m - 1));
    }
  }

  lemma PowNext(b: Base, n: nat)
    ensures Pow(b, n + 1) == b * Pow(b, n) && Pow(b, n + 1) >= 2 * Pow(b, n) && Pow(b, 0) == 1 && Pow(b, 1) == b
  {
    MulLe(2, b, Pow(b, n));
  }

  lemma {:induction false} PowMono(b: Base, n: nat, m: nat)
    requires n <= m
    ensures Pow(b, n) <= Pow(b, m)
    decreases m
  {
    if n < m {
      PowMono(b, n, m - 1);
      PowNext(b, m - 1);
    }
  }

  /** The number a sequence of digits stands for, most significant first */
  function Number(b: Base, ds: seq<nat>): nat {
    if ds == [] then 0 else b * Number(b, ds[..|ds| - 1]) + ds[|ds| - 1]
  }

  predicate AreDigits(b: Base, ds: seq<nat>) {
    forall i :: 0 <= i < |ds| ==> ds[i] < b
  }

  lemma NumberSnoc(b: Base, ds: seq<nat>, d: nat)
    ensures Number(b, ds + [d]) == b * Number(b, ds) + d
  {
    assert (ds + [d])[..|ds|] == ds;
  }

  lemma {:induction false} NumberAppend(b: Base, ds: seq<nat>, es: seq<nat>)
    ensures Number(b, ds + es) == Number(b, ds) * Pow(b, |es|) + Number(b, es)
    decreases |es|
  {
    if es == [] {
      assert ds + es == ds;
    } else {
      var e1, d := es[..|es| - 1], es[|es| - 1];
      NumberAppend(b, ds, e1);
      assert ds + es == (ds + e1) + [d];
      NumberSnoc(b, ds + e1, d);
      AppendAlgebra(b, Number(b, ds), Pow(b, |e1|), Number(b, e1), d);
    }
  }

  lemma AppendAlgebra(b: int, x: int, p: int, y: int, d: int)
    ensures b * (x * p + y) + d == x * (b * p) + (b * y + d)
  {
    assert b * (x * p + y) == b * (x * p) + b * y;
    assert b * (x * p) == x * (b * p);
  }

  lemma {:induction false} NumberBound(b: Base, ds: seq<nat>)
    requires AreDigits(b, ds)
    ensures Number(b, ds) < Pow(b, |ds|)
    decreases |ds|
  {
    if ds != [] {
      var d1 := ds[..|ds| - 1];
      NumberBound(b, d1);
      MulLe(Number(b, d1) + 1, Pow(b, |d1|), b);
      Distrib(Number(b, d1), 1, b);
      Commute(b, Number(b, d1));
      Commute(b, Pow(b, |d1|));
    }
  }

  /** The n low digits of x, with zeros in front if x has fewer */
  function Padded(b: Base, x: nat, n: nat): (ds: seq<nat>)
    ensures |ds| == n
  {
    if n == 0 then [] else
      DivNat(x, b);
      Padded(b, x / b, n - 1) + [x % b]
  }

  /** The digits of x without leading zeros; none for 0 */
  function Digits(b: Base, x: nat): seq<nat> {
    if x == 0 then [] else
      Smaller(b, x);
      Digits(b, x / b) + [x % b]
  }

  lemma Smaller(b: Base, x: nat)
    requires x > 0
    ensures 0 <= x / b < x
  {
    DivNat(x, b);
    MulLe(2, b, x / b);
    Commute(b, x / b);
  }

  lemma {:induction false} PaddedNumber(b: Base, x: nat, n: nat)
    requires x < Pow(b, n)
    ensures AreDigits(b, Padded(b, x, n)) && Number(b, Padded(b, x, n)) == x
    decreases n
  {
    if n > 0 {
      PowNext(b, n - 1);
      hide Pow, Number;
      DivNat(x, b);
      QuotientBelow(x, b, Pow(b, n - 1));
      var q, r, ds := x / b, x % b, Padded(b, x / b, n - 1);
      PaddedNumber(b, q, n - 1);
      NumberSnoc(b, ds, r);
      Parts(x, b);
      assert Padded(b, x, n) == ds + [r];
    } else {
      PowNext(b, 0);
    }
  }

  lemma NoProduct(b: int, q: int)
    requires q == 0
    ensures b * q == 0
  {
  }

  lemma Parts(x: nat, b: nat)
    requires b > 0
    ensures x == b * (x / b) + x % b && 0 <= x % b < b
  {
    Commute(b, x / b);
  }

  lemma QuotientBelow(x: nat, b: nat, p: nat)
    requires b > 0 && x < b * p
    ensures x / b < p
  {
    if x / b >= p { MulLe(p, x / b, b); Commute(b, p); }
  }

  /** Reading the digits of x gives x back, and they have no leading zero. */
  lemma {:induction false} DigitsNumber(b: Base, x: nat)
    ensures AreDigits(b, Digits(b, x)) && Number(b, Digits(b, x)) == x
    ensures x > 0 ==> Digits(b, x) != [] && Digits(b, x)[0] != 0
    decreases x
  {
    if x > 0 {
      Smaller(b, x);
      var q, r, ds := x / b, x % b, Digits(b, x / b);
      DigitsNumber(b, q);
      NumberSnoc(b, ds, r);
      Parts(x, b);
      hide Number;
      assert Digits(b, x) == ds + [r];
      if q == 0 { NoProduct(b, q); }
    }
  }

  /** Digits are determined by their number: no other digits without a leading zero stand for it. */
  lemma {:induction false} DigitsUnique(b: Base, ds: seq<nat>)
    requires AreDigits(b, ds) && (ds != [] ==> ds[0] != 0)
    ensures Digits(b, Number(b, ds)) == ds
    decreases |ds|
  {
    if ds != [] {
      var d1, d := ds[..|ds| - 1], ds[|ds| - 1];
      DigitsUnique(b, d1);
      Commute(b, Number(b, d1));
      DivUnique(Number(b, ds), b, Number(b, d1), d);
      NotZero(b, ds);
      assert ds == d1 + [d];
    }
  }

  lemma {:induction false} NotZero(b: Base, ds: seq<nat>)
    requires ds != [] && ds[0] != 0
    ensures Number(b, ds) > 0
    decreases |ds|
  {
    if |ds| > 1 {
      NotZero(b, ds[..|ds| - 1]);
      MulLe(1, Number(b, ds[..|ds| - 1]), b);
      Commute(b, Number(b, ds[..|ds| - 1]));
    }
  }

  /** The digits of x, cut before its n low ones */
  lemma {:induction false} PaddedCut(b: Base, x: nat, m: nat, n: nat)
    ensures x / Pow(b, n) >= 0 && x % Pow(b, n) >= 0
    ensures Padded(b, x, m + n) == Padded(b, x / Pow(b, n), m) + Padded(b, x % Pow(b, n), n)
    decreases n
  {
    DivNat(x, Pow(b, n));
    if n == 0 {
      assert x / 1 == x && x % 1 == 0;
    } else {
      var p := Pow(b, n - 1);
      DivNat(x, b);
      DivNat(x / b, p);
      PaddedCut(b, x / b, m, n - 1);
      CutParts(x, b, p);
      assert Padded(b, x, m + n) == Padded(b, x / b, m + n - 1) + [x % b];
    }
  }

  /** x cut at b*p, through x/b cut at p */
  lemma CutParts(x: nat, b: nat, p: nat)
    requires b > 0 && p > 0
    ensures b * p > 0 && x / b >= 0 && x % (b * p) >= 0
    ensures x / (b * p) == x / b / p
    ensures x % (b * p) / b == x / b % p && x % (b * p) % b == x % b
  {
    DivNat(x, b);
    DivDiv(x, b, p);
    var q, r := x / b, x % b;
    var q1, r1 := q / p, q % p;
    TopDigit(r, r1, b, p);
    Commute(b, p);
    assert q1 * p * b == q1 * (b * p);
    Distrib(q1 * p, r1, b);
    DivUnique(x, b * p, q1, r1 * b + r);
    DivUnique(r1 * b + r, b, r1, r);
  }

  lemma {:induction false} DigitsCut(b: Base, x: nat, n: nat)
    requires x >= Pow(b, n)
    ensures x / Pow(b, n) > 0 && x % Pow(b, n) >= 0
    ensures Digits(b, x) == Digits(b, x / Pow(b, n)) + Padded(b, x % Pow(b, n), n)
    decreases n
  {
    hide Pow;
    PowNext(b, 0);
    if n == 0 {
      DivUnique(x, 1, x, 0);
    } else {
      PowNext(b, n - 1);
      var p := Pow(b, n - 1);
      Smaller(b, x);
      CutParts(x, b, p);
      StillAbove(x, b, p);
      DigitsCut(b, x / b, n - 1);
      CutLast(b, x, p, n);
    }
  }

  lemma StillAbove(x: nat, b: nat, p: nat)
    requires b > 0 && p > 0 && x >= b * p
    ensures x / b >= p && x / (b * p) > 0
  {
    DivNat(x, b);
    if x / b < p { TopDigit(x % b, x / b, b, p); Commute(b, p); }
    DivNat(x, b * p);
    if x / (b * p) <= 0 { DivUnique(x, b * p, 0, x); }
  }

  /** The last digit goes from the whole number to its low part. */
  lemma CutLast(b: Base, x: nat, p: nat, n: nat)
    requires n > 0 && p > 0 && x >= b * p && x / b / p >= 0 && x / b % p >= 0 && x / b >= 0
    requires Digits(b, x / b) == Digits(b, x / b / p) + Padded(b, x / b % p, n - 1)
    ensures x / (b * p) >= 0 && x % (b * p) >= 0
    ensures Digits(b, x) == Digits(b, x / (b * p)) + Padded(b, x % (b * p), n)
  {
    CutParts(x, b, p);
    MulLe(1, b, p);
    Smaller(b, x);
  }
}
