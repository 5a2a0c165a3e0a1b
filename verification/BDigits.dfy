/** Digits, digit memory and the value of a run of digits.

    A BDIGIT pointer of bignum.c is an address of one digit memory: all buffers (zds, xds,
    yds, wds, ...) are windows [p, p+n) of it, so that overlapping and identical buffers
    mean what they mean in C.  ALLOCV_N extends the memory. */
module BDigits {
  import opened Arith

  predicate IsPow2(n: nat) {
    n == 1 || (n > 1 && n % 2 == 0 && IsPow2(n / 2))
  }

  lemma SmallestRadix()
    ensures IsPow2(65536)
  {
    assert IsPow2(1) && IsPow2(2) && IsPow2(4) && IsPow2(8);
    assert IsPow2(16) && IsPow2(32) && IsPow2(64) && IsPow2(128);
    assert IsPow2(256) && IsPow2(512) && IsPow2(1024) && IsPow2(2048);
    assert IsPow2(4096) && IsPow2(8192) && IsPow2(16384) && IsPow2(32768);
  }

  type Radix = b: nat | 65536 <= b && IsPow2(b) witness (SmallestRadix(); 65536)

  /** BIGRAD, the radix 2^BITSPERDIG.  Its value is left open: everything below holds for
      every power of two from 2^16 on. */
  const B: Radix

  type Digit = d: nat | d < B

  /** BIGUP */
  function Up(v: int): int {
    v * B
  }

  /** BIGDN, an arithmetic right shift by one digit, and BIGLO, the digit shifted out. */
  method Split(v: int) returns (dn: int, lo: Digit)
    ensures v == Up(dn) + lo
    ensures 0 <= v < 2 * B ==> 0 <= dn <= 1
    ensures 0 <= v + B < 2 * B ==> -1 <= dn <= 0
    ensures 0 <= v < Up(B) ==> 0 <= dn < B
  {
    dn, lo := v / B, v % B;
    QuotientBound(v, dn, lo, B);
  }

  lemma QuotientBound(v: int, dn: int, lo: int, b: nat)
    requires v == dn * b + lo && 0 <= lo < b
    ensures 0 <= v < 2 * b ==> 0 <= dn <= 1
    ensures 0 <= v + b < 2 * b ==> -1 <= dn <= 0
    ensures 0 <= v < b * b ==> 0 <= dn < b
  {
    if dn >= 2 { MulLe(2, dn, b); }
    if dn >= 1 { MulLe(1, dn, b); }
    if dn >= b { MulLe(b, dn, b); }
    if dn <= -1 { MulLe(dn, -1, b); }
    if dn <= -2 { MulLe(dn, -2, b); }
  }

  /** B^n */
  function P(n: nat): (r: nat)
    ensures r >= 1
  {
    if n == 0 then 1 else B * P(n - 1)
  }

  lemma PNext(n: nat)
    ensures P(n + 1) == B * P(n)
  {
  }

  lemma {:induction false} PAdd(n: nat, m: nat)
    ensures P(n + m) == P(n) * P(m)
    decreases m
  {
    if m == 0 {
      assert P(0) == 1;
    } else {
      PAdd(n, m - 1);
      PNext(n + m - 1);
      PNext(m - 1);
      hide P;
      MoveFactor(B, P(n), P(m - 1));
    }
  }

  /** v shifted left by n digits */
  function Sh(v: int, n: nat): int {
    v * P(n)
  }

  lemma ShIs(v: int, n: nat)
    ensures Sh(v, n) == v * P(n)
  {
  }

  lemma ShNonNeg(v: nat, n: nat)
    ensures 0 <= Sh(v, n)
  {
  }

  lemma ShAdd(a: int, b: int, n: nat)
    ensures Sh(a + b, n) == Sh(a, n) + Sh(b, n)
    ensures Sh(a - b, n) == Sh(a, n) - Sh(b, n)
  {
    Distrib(a, b, P(n));
  }

  lemma ShUnit(n: nat)
    ensures Sh(0, n) == 0 && Sh(1, n) == P(n) && Sh(-1, n) == 0 - P(n) && forall v :: Sh(v, 0) == v
  {
  }

  lemma ShSh(v: int, n: nat, m: nat)
    ensures Sh(Sh(v, n), m) == Sh(v, n + m)
  {
    PAdd(n, m);
    assert v * P(n) * P(m) == v * (P(n) * P(m));
  }

  /** The value of the n digits at address p, least significant digit first. */
  function W(c: seq<Digit>, p: nat, n: nat): (v: nat)
    requires p + n <= |c|
    ensures v < P(n)
  {
    if n == 0 then 0
    else
      TopDigit(W(c, p, n - 1), c[p + n - 1], P(n - 1), B);
      W(c, p, n - 1) + Sh(c[p + n - 1], n - 1)
  }

  lemma PPositive(n: nat)
    ensures P(n + 1) == B * P(n) >= 65536 * P(n)
  {
    MulLe(65536, B, P(n));
  }

  lemma PMono(n: nat, m: nat)
    requires n <= m
    ensures P(n) <= P(m)
  {
    if n < m {
      PMono(n, m - 1);
      PPositive(m - 1);
    }
  }

  /** Windows with the same digits have the same value. */
  lemma {:induction false} WCopy(c: seq<Digit>, p: nat, c': seq<Digit>, q: nat, n: nat)
    requires p + n <= |c| && q + n <= |c'|
    requires forall k :: p <= k < p + n ==> c[k] == c'[k - p + q]
    ensures W(c, p, n) == W(c', q, n)
  {
    if n > 0 {
      WCopy(c, p, c', q, n - 1);
      assert c[p + n - 1] == c'[q + n - 1];
    }
  }

  lemma WEmpty(c: seq<Digit>, p: nat)
    requires p <= |c|
    ensures W(c, p, 0) == 0
  {
  }

  lemma WNext(c: seq<Digit>, p: nat, n: nat)
    requires p + n < |c|
    ensures W(c, p, n + 1) == W(c, p, n) + Sh(c[p + n], n)
  {
  }

  lemma WOne(c: seq<Digit>, p: nat)
    requires p < |c|
    ensures W(c, p, 1) == c[p]
  {
    WNext(c, p, 0);
    WEmpty(c, p);
    ShUnit(0);
  }

  /** A window is its low part plus its high part shifted. */
  lemma {:induction false} WSplit(c: seq<Digit>, p: nat, n: nat, m: nat)
    requires p + n + m <= |c|
    ensures W(c, p, n + m) == W(c, p, n) + Sh(W(c, p + n, m), n)
  {
    if m > 0 {
      WSplit(c, p, n, m - 1);
      PAdd(n, m - 1);
      var d, h := c[p + n + m - 1], W(c, p + n, m - 1);
      calc {
        W(c, p, n + m);
        W(c, p, n) + h * P(n) + d * (P(n) * P(m - 1));
        { Regroup(P(n), h, d, P(m - 1)); }
        W(c, p, n) + (h + d * P(m - 1)) * P(n);
      }
    }
  }

  lemma Regroup(r: int, h: int, d: int, s: int)
    ensures h * r + d * (r * s) == (h + d * s) * r
  {
    Distrib(h, d * s, r);
    assert d * s * r == d * (r * s);
  }

  lemma WHead(c: seq<Digit>, p: nat, n: nat)
    requires p + n < |c|
    ensures W(c, p, n + 1) == c[p] + B * W(c, p + 1, n)
  {
    WSplit(c, p, 1, n);
    assert P(1) == B * P(0) == B;
    assert W(c, p, 1) == W(c, p, 0) + c[p] * P(0) == c[p];
    assert W(c, p + 1, n) * B == B * W(c, p + 1, n);
  }

  lemma {:induction false} WZero(c: seq<Digit>, p: nat, n: nat)
    requires p + n <= |c|
    ensures W(c, p, n) == 0 <==> forall i :: p <= i < p + n ==> c[i] == 0
  {
    if n > 0 {
      WZero(c, p, n - 1);
      if c[p + n - 1] > 0 { MulLe(1, c[p + n - 1], P(n - 1)); }
    }
  }

  lemma TopPositive(c: seq<Digit>, p: nat, n: nat)
    requires p + n <= |c| && n > 0 && c[p + n - 1] != 0
    ensures W(c, p, n) > 0
  {
    WZero(c, p, n);
  }

  /** The digits of a window are determined by its value. */
  lemma {:induction false} WUnique(c: seq<Digit>, p: nat, c': seq<Digit>, q: nat, n: nat)
    requires p + n <= |c| && q + n <= |c'|
    requires W(c, p, n) == W(c', q, n)
    ensures forall k :: p <= k < p + n ==> c[k] == c'[k - p + q]
  {
    if n > 0 {
      var k := n - 1;
      TopUnique(W(c, p, k), c[p + k], W(c', q, k), c'[q + k], P(k));
      WUnique(c, p, c', q, k);
    }
  }

  lemma TopUnique(a: nat, d: nat, a': nat, d': nat, r: nat)
    requires a < r && a' < r && a + d * r == a' + d' * r
    ensures d == d' && a == a'
  {
    if d < d' {
      MulLe(d + 1, d', r);
      Distrib(d, 1, r);
    } else if d' < d {
      MulLe(d' + 1, d, r);
      Distrib(d', 1, r);
    }
  }

  /** v has n digits, the top one not zero. */
  predicate Long(v: nat, n: nat) {
    n > 0 && P(n - 1) <= v < P(n)
  }

  lemma TopLong(c: seq<Digit>, p: nat, n: nat)
    requires 0 < n && p + n <= |c| && c[p + n - 1] != 0
    ensures Long(W(c, p, n), n)
  {
    hide W, P;
    WNext(c, p, n - 1);
    ShIs(c[p + n - 1], n - 1);
    MulLe(1, c[p + n - 1], P(n - 1));
  }

  /** A larger number is not shorter. */
  lemma LongMono(v: nat, n: nat, w: nat, m: nat)
    requires Long(v, n) && Long(w, m) && v <= w
    ensures n <= m
  {
    hide P;
    if m < n { PMono(m, n - 1); }
  }

  /** Two windows have no digit in common. */
  predicate Apart(z: nat, zn: nat, x: nat, xn: nat) {
    z + zn <= x || x + xn <= z || zn == 0 || xn == 0
  }

  /** Memory c' keeps everything of memory c outside the window [z, z+zn). */
  ghost predicate Keeps(c: seq<Digit>, c': seq<Digit>, z: nat, zn: nat) {
    && |c| <= |c'|
    && (forall k {:trigger c'[k]} :: 0 <= k < |c| && !(z <= k < z + zn) ==> c'[k] == c[k])
    && (forall q: nat, k: nat {:trigger W(c', q, k)} ::
          q + k <= |c| && Apart(z, zn, q, k) ==> W(c', q, k) == W(c, q, k))
  }

  /** Memory c' keeps everything of memory c outside two windows. */
  ghost predicate Keeps2(c: seq<Digit>, c': seq<Digit>, z: nat, zn: nat, w: nat, wn: nat) {
    && |c| <= |c'|
    && (forall k {:trigger c'[k]} :: 0 <= k < |c| && !(z <= k < z + zn) && !(w <= k < w + wn) ==> c'[k] == c[k])
    && (forall q: nat, k: nat {:trigger W(c', q, k)} ::
          q + k <= |c| && Apart(z, zn, q, k) && Apart(w, wn, q, k) ==> W(c', q, k) == W(c, q, k))
  }

  lemma Keeps2Intro(c: seq<Digit>, c': seq<Digit>, z: nat, zn: nat, w: nat, wn: nat)
    requires |c| <= |c'|
    requires forall k :: 0 <= k < |c| && !(z <= k < z + zn) && !(w <= k < w + wn) ==> c'[k] == c[k]
    ensures Keeps2(c, c', z, zn, w, wn)
  {
    forall q: nat, k: nat | q + k <= |c| && Apart(z, zn, q, k) && Apart(w, wn, q, k)
      ensures W(c', q, k) == W(c, q, k)
    {
      WCopy(c', q, c, q, k);
    }
  }

  lemma KeepsIntro(c: seq<Digit>, c': seq<Digit>, z: nat, zn: nat)
    requires |c| <= |c'|
    requires forall k :: 0 <= k < |c| && !(z <= k < z + zn) ==> c'[k] == c[k]
    ensures Keeps(c, c', z, zn)
  {
    forall q: nat, k: nat | q + k <= |c| && Apart(z, zn, q, k)
      ensures W(c', q, k) == W(c, q, k)
    {
      WCopy(c', q, c, q, k);
    }
  }

  /** Keeping is transitive as long as the inner windows lie in the outer ones or are new. */
  lemma KeepsTrans(c: seq<Digit>, c1: seq<Digit>, c2: seq<Digit>, z: nat, zn: nat, w: nat, wn: nat,
                   z1: nat, zn1: nat, w1: nat, wn1: nat)
    requires Keeps2(c, c1, z, zn, w, wn) && Keeps2(c1, c2, z1, zn1, w1, wn1)
    requires zn1 == 0 || Within(|c|, z1, zn1, z, zn, w, wn)
    requires wn1 == 0 || Within(|c|, w1, wn1, z, zn, w, wn)
    ensures Keeps2(c, c2, z, zn, w, wn)
  {
    Keeps2Intro(c, c2, z, zn, w, wn);
  }

  predicate Within(size: nat, p: nat, n: nat, z: nat, zn: nat, w: nat, wn: nat) {
    (z <= p && p + n <= z + zn) || (w <= p && p + n <= w + wn) || size <= p
  }

  lemma SameKept(c: seq<Digit>, z: nat, zn: nat)
    ensures Keeps(c, c, z, zn)
  {
    KeepsIntro(c, c, z, zn);
  }

  lemma InsideKept(c: seq<Digit>, c': seq<Digit>, p: nat, n: nat, z: nat, zn: nat)
    requires Keeps(c, c', p, n) && z <= p && p + n <= z + zn
    ensures Keeps(c, c', z, zn)
  {
    KeepsIntro(c, c', z, zn);
  }

  lemma WindowKept(c: seq<Digit>, c': seq<Digit>, z: nat, zn: nat, p: nat, n: nat)
    requires Keeps(c, c', z, zn) && p + n <= |c| && Apart(z, zn, p, n)
    ensures |c| <= |c'| && W(c', p, n) == W(c, p, n) && (n > 0 ==> c'[p + n - 1] == c[p + n - 1])
  {
  }

  lemma KeptTwice(c: seq<Digit>, c1: seq<Digit>, c2: seq<Digit>, z: nat, zn: nat)
    requires Keeps(c, c1, z, zn) && Keeps(c1, c2, z, zn)
    ensures Keeps(c, c2, z, zn)
  {
    KeepsIntro(c, c2, z, zn);
  }

  lemma FreshKept(c: seq<Digit>, c': seq<Digit>, p: nat, n: nat)
    requires Keeps(c, c', p, n) && |c| <= p
    ensures Keeps(c, c', |c|, 0) && |c| <= |c'|
  {
    KeepsIntro(c, c', |c|, 0);
  }

  lemma FreshTwice(c: seq<Digit>, c1: seq<Digit>, c2: seq<Digit>)
    requires Keeps(c, c1, |c|, 0) && Keeps(c1, c2, |c1|, 0)
    ensures Keeps(c, c2, |c|, 0) && |c| <= |c1| <= |c2|
  {
    KeepsIntro(c, c2, |c|, 0);
  }

  /** What happens to fresh memory changes nothing else. */
  lemma FreshChange(c: seq<Digit>, c1: seq<Digit>, c2: seq<Digit>, z: nat, zn: nat)
    requires Keeps(c, c1, |c|, 0) && Keeps(c1, c2, z, zn) && |c| <= z
    ensures Keeps(c, c2, |c|, 0)
  {
    KeepsIntro(c, c2, |c|, 0);
  }

  class Memory {
    var cells: seq<Digit>

    /** ALLOCV_N: a fresh block with unspecified contents; allocation always succeeds. */
    method Alloc(n: nat) returns (p: nat)
      modifies this
      ensures p == |old(cells)| && |cells| == p + n
      ensures Keeps(old(cells), cells, p, n)
    {
      p := |cells|;
      assert |seq<Digit>(n, _ => 0)| == n;
      var junk: seq<Digit> :| |junk| == n;
      cells := cells + junk;
      KeepsIntro(old(cells), cells, p, n);
    }
  }

  /** A buffer of the caller, as a memory of its own */
  method Buffer(digits: seq<Digit>) returns (mem: Memory)
    ensures fresh(mem) && mem.cells == digits
  {
    mem := new Memory;
    mem.cells := digits;
  }
}
