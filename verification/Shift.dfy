/** Shifts by less than a digit and division by one digit.
    A shift count is given as the power of two m == 1 << shift, with m < BIGRAD. */
module Shift {
  import opened Arith
  import opened BDigits
  import opened Bary

  lemma {:induction false} Pow2Divides(m: nat, b: nat) returns (k: nat)
    requires IsPow2(m) && IsPow2(b) && m <= b
    ensures b == m * k && k >= 1
  {
    if m == 1 {
      k := b;
    } else {
      k := Pow2Divides(m / 2, b / 2);
      assert b == 2 * (m / 2 * k) == m * k;
    }
  }

  /** bary_small_lshift.  The running word is below m and the shifted digit is a multiple
      of m, so that the `|` of the source adds them. */
  method SmallLshift(mem: Memory, z: nat, x: nat, n: nat, m: nat) returns (out: Digit)
    requires z + n <= |mem.cells| && x + n <= |mem.cells| && ReadsAhead(z, x, n)
    requires IsPow2(m) && m < B
    modifies mem
    ensures |mem.cells| == |old(mem.cells)| && Keeps(old(mem.cells), mem.cells, z, n)
    ensures out < m && W(mem.cells, z, n) + Sh(out, n) == Mul(m, old(W(mem.cells, x, n)))
  {
    assert 0 < m;
    hide W, P, Sh, Up, IsPow2;
    ghost var c0 := mem.cells;
    WEmpty(c0, z);
    WEmpty(c0, x);
    ShUnit(0);
    var num: nat := 0;
    var i := 0;
    while i < n
      invariant 0 <= i <= n && num < m
      invariant Untouched(c0, mem.cells, z, i)
      invariant W(mem.cells, z, i) + Sh(num, i) == m * W(c0, x, i)
    {
      var d: nat := mem.cells[x + i];
      var dn, lo := Split(num + m * d);
      ShiftedOut(num, m, d, dn, lo);
      CarryStep(mem.cells, z, i, num, m * d, dn, lo, m * W(c0, x, i));
      WNext(c0, x, i);
      ScaleNext(m, W(c0, x, i), d, P(i));
      ShIs(m * d, i);
      ShIs(d, i);
      mem.cells := mem.cells[z + i := lo];
      num := dn;
      i := i + 1;
    }
    KeepsIntro(c0, mem.cells, z, n);
    out := num;
  }

  lemma ShiftedOut(num: nat, m: nat, d: Digit, dn: int, lo: Digit)
    requires num < m && num + m * d == Up(dn) + lo
    ensures 0 <= dn < m
  {
    assert m * d == d * m;
    TopDigit(num, d, m, B);
    if dn < 0 { MulLe(dn, -1, B); }
    if dn >= m { MulLe(m, dn, B); }
  }

  /** A loop that goes down through z may read the n digits at x as it goes. */
  predicate ReadsBehind(z: nat, x: nat, n: nat) {
    x <= z || z + n <= x
  }

  /** The k digits at p with v in front of them */
  function Above(v: int, c: seq<Digit>, p: nat, k: nat): int
    requires p + k <= |c|
  {
    Sh(v, k) + W(c, p, k)
  }

  lemma AboveNext(v: int, c: seq<Digit>, p: nat, k: nat)
    requires p + k < |c|
    ensures Above(v, c, p, k + 1) == B * Above(v, c, p + 1, k) + c[p]
  {
    WHead(c, p, k);
    assert Sh(v, k + 1) == v * (B * P(k));
    AboveAlgebra(v, P(k), W(c, p + 1, k), c[p], B);
  }

  lemma AboveAlgebra(v: int, r: int, w: int, d: int, b: int)
    ensures v * (b * r) + (d + b * w) == b * (v * r + w) + d
  {
    assert b * (v * r + w) == b * (v * r) + b * w;
    assert b * (v * r) == v * (b * r);
  }

  /** The digit that bary_small_rshift stores: BIGLO((BIGUP(h) | d) >> shift). */
  function ShiftDigit(h: Digit, d: Digit, m: nat): Digit
    requires 0 < m
  {
    ((h * B + d) / m) % B
  }

  lemma ShiftDigitValue(h: Digit, d: Digit, m: nat, k: nat)
    requires 0 < m && B == m * k
    ensures ShiftDigit(h, d, m) == (h % m) * k + d / m
  {
    ShiftSplit(h, d, m, k, B);
    var v := (h % m) * k + d / m;
    DivUnique(h * B + d, m, h * k + d / m, d % m);
    DivUnique(h * k + d / m, B, h / m, v);
  }

  lemma ShiftSplit(h: nat, d: nat, m: nat, k: nat, b: nat)
    requires 0 < m && b == m * k && d < b
    ensures 0 <= (h % m) * k + d / m < b
    ensures h * b + d == (h * k + d / m) * m + d % m
    ensures h * k + d / m == (h / m) * b + ((h % m) * k + d / m)
  {
    DivModIs(d, m);
    DivModIs(h, m);
    if d / m >= k { MulLe(k, d / m, m); }
    TopDigit(d / m, h % m, k, m);
    ShiftAlgebra(h / m, h % m, d / m, d % m, m, k);
  }

  lemma ShiftAlgebra(hq: int, hr: int, dq: int, dr: int, m: int, k: int)
    ensures var h, d := m * hq + hr, m * dq + dr;
            && h * (m * k) + d == (h * k + dq) * m + dr
            && h * k + dq == hq * (m * k) + (hr * k + dq)
  {
    var h := m * hq + hr;
    assert h * (m * k) == h * k * m;
    Distrib(h * k, dq, m);
    Distrib(m * hq, hr, k);
    assert m * hq * k == hq * (m * k);
  }

  /** bary_small_rshift, with the digit h above the n digits at x */
  method SmallRshift(mem: Memory, z: nat, x: nat, n: nat, m: nat, h: Digit)
    requires z + n <= |mem.cells| && x + n <= |mem.cells| && ReadsBehind(z, x, n)
    requires IsPow2(m) && m < B
    modifies mem
    ensures |mem.cells| == |old(mem.cells)| && Keeps(old(mem.cells), mem.cells, z, n)
    ensures old(Above(h, mem.cells, x, n))
         == Mul(m, Above(h / m, mem.cells, z, n)) + (if n == 0 then h else old(mem.cells[x])) % m
  {
    hide W, P, Sh, Up, IsPow2, Above, ShiftDigit;
    ghost var c0 := mem.cells;
    ghost var k := Pow2Divides(m, B);
    AboveEmpty(h, c0, x + n);
    AboveEmpty(h / m, c0, z + n);
    DivModIs(h, m);
    var prev := h;
    var i := n;
    while i > 0
      invariant 0 <= i <= n
      invariant prev == if i == n then h else c0[x + i]
      invariant Untouched(c0, mem.cells, z + i, n - i)
      invariant Above(h, c0, x + i, n - i) == m * Above(h / m, mem.cells, z + i, n - i) + prev % m
    {
      i := i - 1;
      var d := mem.cells[x + i];
      assert d == c0[x + i];
      RshiftStep(c0, mem.cells, x + i, z + i, n - i - 1, m, k, h, prev);
      mem.cells := mem.cells[z + i := ShiftDigit(prev, d, m)];
      prev := d;
    }
    KeepsIntro(c0, mem.cells, z, n);
  }

  lemma AboveEmpty(v: int, c: seq<Digit>, p: nat)
    requires p <= |c|
    ensures Above(v, c, p, 0) == v
  {
  }

  lemma DivModIs(h: int, m: nat)
    requires 0 < m
    ensures h == m * (h / m) + h % m
  {
  }

  lemma RshiftStep(c0: seq<Digit>, c: seq<Digit>, x: nat, z: nat, n: nat, m: nat, k: nat, h: Digit, prev: Digit)
    requires |c| == |c0| && x + n < |c| && z + n < |c| && 0 < m && B == m * k
    requires Above(h, c0, x + 1, n) == m * Above(h / m, c, z + 1, n) + prev % m
    ensures Above(h, c0, x, n + 1)
         == m * Above(h / m, c[z := ShiftDigit(prev, c0[x], m)], z, n + 1) + c0[x] % m
  {
    var d, e := c0[x], ShiftDigit(prev, c0[x], m);
    var c' := c[z := e];
    WCopy(c', z + 1, c, z + 1, n);
    assert Above(h / m, c', z + 1, n) == Above(h / m, c, z + 1, n);
    hide Above, W, P, Sh, ShiftDigit;
    AboveNext(h, c0, x, n);
    AboveNext(h / m, c', z, n);
    ShiftDigitValue(prev, d, m, k);
    RshiftValue(Above(h, c0, x + 1, n), Above(h / m, c, z + 1, n), prev % m, m, k, d, e);
  }

  lemma RshiftValue(t: int, q: int, r: int, m: nat, k: int, d: nat, e: int)
    requires m > 0 && t == m * q + r && B == m * k && e == r * k + d / m
    ensures B * t + d == m * (B * q + e) + d % m
  {
    RshiftAlgebra(t, q, r, m, k, B, d, d / m, d % m, e);
  }

  lemma RshiftAlgebra(t: int, q: int, r: int, m: int, k: int, b: int, d: int, dq: int, dr: int, e: int)
    requires t == m * q + r && b == m * k && d == m * dq + dr && e == r * k + dq
    ensures b * t + d == m * (b * q + e) + dr
  {
    assert b * t == b * (m * q) + b * r;
    assert b * (m * q) == m * (b * q);
    assert b * r == m * (r * k);
    assert m * (b * q + e) == m * (b * q) + m * e;
    assert m * (r * k + dq) == m * (r * k) + m * dq;
  }

  /** bigdivrem_single1: divide the xn digits at x, with digit h above them, by digit y. */
  method DivremSingle1(mem: Memory, q: nat, x: nat, xn: nat, h: Digit, y: Digit) returns (r: Digit)
    requires q + xn <= |mem.cells| && x + xn <= |mem.cells| && ReadsBehind(q, x, xn)
    requires 0 < xn && h < y
    modifies mem
    ensures |mem.cells| == |old(mem.cells)| && Keeps(old(mem.cells), mem.cells, q, xn)
    ensures r < y && old(Above(h, mem.cells, x, xn)) == y * W(mem.cells, q, xn) + r
  {
    hide W, P, Sh, Up, IsPow2, Above;
    ghost var c0 := mem.cells;
    if IsPow2(y) {
      r := mem.cells[x] % y;
      SmallRshift(mem, q, x, xn, y, h);
      SmallQuotient(h, y);
      AboveZero(mem.cells, q, xn);
      return;
    }
    AboveEmpty(h, c0, x + xn);
    WEmpty(c0, q + xn);
    var t2: nat := h;
    var i := xn;
    while i > 0
      invariant 0 <= i <= xn && t2 < y
      invariant Untouched(c0, mem.cells, q + i, xn - i)
      invariant Above(h, c0, x + i, xn - i) == y * W(mem.cells, q + i, xn - i) + t2
    {
      i := i - 1;
      var d := mem.cells[x + i];
      assert d == c0[x + i];
      var t := t2 * B + d;
      QuotientDigit(t2, d, y);
      DivremStep(c0, mem.cells, x + i, q + i, xn - i - 1, h, t2, y, d, t / y, t % y);
      mem.cells := mem.cells[q + i := t / y];
      t2 := t % y;
    }
    KeepsIntro(c0, mem.cells, q, xn);
    r := t2;
  }

  lemma SmallQuotient(h: nat, y: nat)
    requires h < y
    ensures h / y == 0
  {
  }

  lemma AboveZero(c: seq<Digit>, p: nat, n: nat)
    requires p + n <= |c|
    ensures Above(0, c, p, n) == W(c, p, n)
  {
  }

  lemma QuotientDigit(t2: nat, d: Digit, y: nat)
    requires t2 < y
    ensures 0 <= (t2 * B + d) / y < B && 0 <= (t2 * B + d) % y < y
    ensures t2 * B + d == y * ((t2 * B + d) / y) + (t2 * B + d) % y
  {
    var t := t2 * B + d;
    TopDigit(d, t2, B, y);
    if t / y >= B { MulLe(B, t / y, y); }
  }

  lemma DivremStep(c0: seq<Digit>, c: seq<Digit>, x: nat, q: nat, n: nat, h: Digit, t2: nat, y: nat, d: Digit,
                   e: Digit, t': nat)
    requires |c| == |c0| && x + n < |c| && q + n < |c| && c0[x] == d
    requires Above(h, c0, x + 1, n) == y * W(c, q + 1, n) + t2
    requires t2 * B + d == y * e + t'
    ensures Above(h, c0, x, n + 1) == y * W(c[q := e], q, n + 1) + t'
  {
    AboveNext(h, c0, x, n);
    WHead(c[q := e], q, n);
    WCopy(c[q := e], q + 1, c, q + 1, n);
    DivremAlgebra(W(c, q + 1, n), t2, y, d, e, t', B);
  }

  lemma DivremAlgebra(w: int, t2: int, y: int, d: int, e: int, t': int, b: int)
    requires t2 * b + d == y * e + t'
    ensures b * (y * w + t2) + d == y * (e + b * w) + t'
  {
    assert b * (y * w + t2) == b * (y * w) + b * t2;
    assert b * (y * w) == y * (b * w);
    assert y * (e + b * w) == y * e + y * (b * w);
  }
}
