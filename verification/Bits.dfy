/** Powers of two, and the bits of integers in infinite two's complement. */
module Bits {
  import opened Arith
  import opened BDigits

  /** 2^n */
  function Two(n: nat): (r: nat)
    ensures r >= 1
  {
    if n == 0 then 1 else 2 * Two(n - 1)
  }

  lemma {:induction false} TwoAdd(n: nat, m: nat)
    ensures Two(n + m) == Two(n) * Two(m)
    decreases m
  {
    if m > 0 {
      TwoAdd(n, m - 1);
      assert 2 * (Two(n) * Two(m - 1)) == Two(n) * (2 * Two(m - 1));
    }
  }

  lemma {:induction false} TwoMono(n: nat, m: nat)
    requires n <= m
    ensures Two(n) <= Two(m)
    decreases m
  {
    if n < m { TwoMono(n, m - 1); }
  }

  lemma {:induction false} TwoIsPow2(n: nat)
    ensures IsPow2(Two(n))
  {
    if n > 0 { TwoIsPow2(n - 1); assert 2 * Two(n - 1) / 2 == Two(n - 1); }
  }

  function Log2(b: nat): (n: nat)
    requires IsPow2(b)
    ensures Two(n) == b
  {
    if b == 1 then 0 else 1 + Log2(b / 2)
  }

  /** BITSPERDIG */
  const BITS: nat := Log2(B)

  lemma {:induction false} TwoSmall(n: nat)
    requires n < 16
    ensures Two(n) <= 32768
  {
    TwoMono(n, 15);
    assert Two(3) == 8;
    TwoAdd(3, 3);
    TwoAdd(6, 6);
    TwoAdd(12, 3);
  }

  lemma BitsPerDigit()
    ensures Two(BITS) == B && BITS >= 16
  {
    if BITS < 16 { TwoSmall(BITS); }
  }

  lemma {:induction false} PIsTwo(n: nat)
    ensures P(n) == Two(BITS * n)
  {
    BitsPerDigit();
    if n > 0 {
      PIsTwo(n - 1);
      TwoAdd(BITS, BITS * (n - 1));
      assert BITS + BITS * (n - 1) == BITS * n;
    }
  }

  /** Bit k of v; a negative number has infinitely many ones above. */
  predicate Bit(v: int, k: nat) {
    v / Two(k) % 2 == 1
  }

  lemma DivDiv(v: int, a: nat, b: nat)
    requires a > 0 && b > 0
    ensures a * b > 0 && v / (a * b) == v / a / b
  {
    var q, r := v / a, v % a;
    var q1, r1 := q / b, q % b;
    MulLe(1, a, b);
    DivDivAlgebra(q1, b, r1, a, r);
    MulLe(r1 + 1, b, a);
    Distrib(r1, 1, a);
    MulLe(0, r1, a);
    Commute(a, b);
    DivUnique(v, a * b, q1, r1 * a + r);
  }

  lemma DivDivAlgebra(q1: int, b: int, r1: int, a: int, r: int)
    ensures (q1 * b + r1) * a + r == q1 * (a * b) + (r1 * a + r)
  {
    Distrib(q1 * b, r1, a);
    assert q1 * b * a == q1 * (a * b);
  }

  lemma BitHalf(v: int, k: nat)
    ensures Bit(v / 2, k) == Bit(v, k + 1)
  {
    DivDiv(v, 2, Two(k));
  }

  lemma BitZero(v: int)
    ensures Bit(v, 0) == (v % 2 == 1)
  {
    assert v / 1 == v;
  }

  /** An integer is determined by its bits. */
  lemma {:induction false} BitsDetermine(v: int, w: int)
    requires forall k: nat :: Bit(v, k) == Bit(w, k)
    ensures v == w
    decreases (if v < 0 then -v else v) + (if w < 0 then -w else w)
  {
    BitZero(v);
    BitZero(w);
    assert Bit(v, 0) == Bit(w, 0);
    if (v == 0 || v == -1) && (w == 0 || w == -1) {
    } else {
      forall k: nat
        ensures Bit(v / 2, k) == Bit(w / 2, k)
      {
        BitHalf(v, k);
        BitHalf(w, k);
        assert Bit(v, k + 1) == Bit(w, k + 1);
      }
      BitsDetermine(v / 2, w / 2);
    }
  }

  /** v modulo a multiple of 2^(j+1) has the same bit j. */
  lemma BitMod(v: int, n: nat, j: nat)
    requires j < n
    ensures Bit(v % Two(n), j) == Bit(v, j)
  {
    hide Two;
    TwoAdd(j, n - j);
    TwoAdd(1, n - j - 1);
    TwoOne();
    ModParity(v, Two(j), Two(n - j - 1), Two(n));
  }

  lemma TwoOne()
    ensures Two(0) == 1 && Two(1) == 2
  {
  }

  lemma ModParity(v: int, t: nat, h: nat, m: nat)
    requires t > 0 && h > 0 && m == t * (2 * h) && m > 0
    ensures v % m / t % 2 == v / t % 2
  {
    var q, r := v / m, v % m;
    var rq, rr := r / t, r % t;
    assert v == q * m + r && r == rq * t + rr;
    BitModAlgebra(q, t, h, rq, rr);
    DivUnique(v, t, q * (2 * h) + rq, rr);
    EvenPart(q, h, rq);
  }

  lemma EvenPart(q: int, h: int, r: int)
    ensures (q * (2 * h) + r) % 2 == r % 2
  {
    var k := q * h;
    assert q * (2 * h) == 2 * k;
  }

  lemma BitModAlgebra(q: int, t: int, h: int, rq: int, rr: int)
    ensures q * (t * (2 * h)) + (rq * t + rr) == (q * (2 * h) + rq) * t + rr
  {
    Distrib(q * (2 * h), rq, t);
    assert q * (2 * h) * t == q * (t * (2 * h));
  }

  /** Digit i of v in infinite two's complement */
  function DigitOf(v: int, i: nat): Digit {
    v / P(i) % B
  }

  /** Bit i*BITSPERDIG+j of v is bit j of its digit i. */
  lemma BitOfDigit(v: int, i: nat, j: nat)
    requires j < BITS
    ensures Bit(v, BITS * i + j) == Bit(DigitOf(v, i), j)
  {
    BitsPerDigit();
    hide Two, P;
    PIsTwo(i);
    TwoAdd(BITS * i, j);
    DivDiv(v, P(i), Two(j));
    BitMod(v / P(i), BITS, j);
  }

  datatype Gate = AndGate | OrGate | XorGate

  predicate Apply(g: Gate, a: bool, b: bool) {
    match g
    case AndGate => a && b
    case OrGate => a || b
    case XorGate => a != b
  }

  /** The &, | and ^ of words of n bits */
  function WordOp(g: Gate, a: nat, b: nat, n: nat): (r: nat)
    ensures r < Two(n)
  {
    if n == 0 then 0
    else (if Apply(g, a % 2 == 1, b % 2 == 1) then 1 else 0) + 2 * WordOp(g, a / 2, b / 2, n - 1)
  }

  lemma {:induction false} WordOpBits(g: Gate, a: nat, b: nat, n: nat, j: nat)
    requires j < n
    ensures Bit(WordOp(g, a, b, n), j) == Apply(g, Bit(a, j), Bit(b, j))
    decreases n
  {
    hide Bit;
    var r := WordOp(g, a, b, n);
    if j == 0 {
      BitZero(a);
      BitZero(b);
      BitZero(r);
    } else {
      assert r / 2 == WordOp(g, a / 2, b / 2, n - 1);
      WordOpBits(g, a / 2, b / 2, n - 1, j - 1);
      BitHalf(a, j - 1);
      BitHalf(b, j - 1);
      BitHalf(r, j - 1);
    }
  }

  /** The & of two digits, and so on */
  function DigitOp(g: Gate, a: Digit, b: Digit): Digit {
    BitsPerDigit();
    WordOp(g, a, b, BITS)
  }
}
