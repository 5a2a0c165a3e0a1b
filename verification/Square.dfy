/** bary_sq_fast, squaring by half the digit products (Handbook of Applied Cryptography,
    Algorithm 14.16). */
module Square {
  import opened Arith
  import opened BDigits
  import opened Bary

  /** The inner loop never exceeds a double digit: with twice the digit split as
      vh*B + vl, vl is even, and the carry stays at most 2B-2. */
  lemma AccumulatorFits(c: nat, z: Digit, vl: Digit, vh: nat, w: Digit, dn: int, lo: Digit)
    requires c <= 2 * B - 2 && vl <= B - 2 && vh <= 1
    ensures 0 <= c + (z + vl * w) < Up(B)
    ensures c + (z + vl * w) == Up(dn) + lo ==> 0 <= dn + vh * w <= 2 * B - 2
  {
    AccumulatorBound(c, z, vl, w, B);
    if c + (z + vl * w) == Up(dn) + lo {
      QuotientBound(c + (z + vl * w), dn, lo, B);
      assert vh * w <= w;
    }
  }

  lemma AccumulatorBound(c: nat, z: nat, vl: nat, w: nat, b: nat)
    requires 2 <= b && c <= 2 * b - 2 && z <= b - 1 && vl <= b - 2 && w <= b - 1
    ensures 0 <= vl * w && c + (z + vl * w) < b * b
  {
    MulLe(vl, b - 2, w);
    MulLe(w, b - 1, b - 2);
    assert (b - 2) * w == w * (b - 2);
    assert (b - 1) * (b - 2) == b * b - 3 * b + 2;
  }

  /** One inner step adds 2*d*w at its place. */
  lemma RowStep(c0: seq<Digit>, c: seq<Digit>, p: nat, h: nat, k: nat, carry: nat, z: Digit, d: Digit,
                vl: Digit, vh: nat, dn: int, lo: Digit)
    requires |c| == |c0| && p + k + 1 < |c| && h + k < |c| && 2 * d == Up(vh) + vl
    requires c0[p + k + 1] == z
    requires carry + (z + vl * c0[h + k]) == Up(dn) + lo
    requires W(c, p, k + 1) + Sh(carry, k + 1) == W(c0, p, k + 1) + d * d + Mul(2 * d, Sh(W(c0, h, k), 1))
    ensures W(c[p + k + 1 := lo], p, k + 2) + Sh(dn + vh * c0[h + k], k + 2)
         == W(c0, p, k + 2) + d * d + Mul(2 * d, Sh(W(c0, h, k + 1), 1))
  {
    hide W, Up;
    var w := c0[h + k];
    var total := W(c, p, k + 1) + Sh(carry, k + 1);
    CarryStep(c, p, k + 1, carry, z + vl * w, dn, lo, total);
    ShAdd(dn, vh * w, k + 2);
    ShAdd(z, vl * w, k + 1);
    WNext(c0, p, k + 1);
    WNext(c0, h, k);
    UpIs(vh);
    RowAlgebra2(d, vl, vh, w, B, P(k), W(c0, h, k));
  }

  lemma UpIs(v: int)
    ensures Up(v) == v * B && P(1) == B
  {
    assert P(1) == B * P(0);
  }

  lemma RowFactors(vl: int, vh: int, w: int, b: int, r: int)
    ensures vl * w * (b * r) == vl * (w * (b * r)) && vh * w * (b * (b * r)) == vh * b * (w * (b * r))
  {
    Commute4(vh, w, b, b * r);
  }

  lemma RowAlgebra2(d: int, vl: int, vh: int, w: int, b: int, r: int, hv: int)
    requires 2 * d == vh * b + vl
    ensures vl * w * (b * r) + vh * w * (b * (b * r)) + 2 * d * (hv * b) == 2 * d * ((hv + w * r) * b)
  {
    var s := w * (b * r);
    RowFactors(vl, vh, w, b, r);
    Distrib(vl, vh * b, s);
    assert (hv + w * r) * b == hv * b + s by {
      Distrib(hv, w * r, b);
      assert w * r * b == s;
    }
    assert 2 * d * (hv * b + s) == 2 * d * (hv * b) + 2 * d * s;
  }

  lemma DoubleIsEven(d: Digit, vh: int, vl: Digit)
    requires 2 * d == Up(vh) + vl
    ensures vl <= B - 2
  {
    var half := B / 2;
    assert B == 2 * half;
    assert vh * B == 2 * (vh * half);
  }

  /** One row: the square of digit d and twice its product with the hn digits above it,
      added at p.  The top digit of the row is still 0. */
  method SqRow(mem: Memory, p: nat, d: Digit, h: nat, hn: nat)
    requires p + hn + 3 <= |mem.cells| && h + hn <= |mem.cells| && Apart(p, hn + 3, h, hn)
    requires mem.cells[p + hn + 2] == 0
    modifies mem
    ensures |mem.cells| == |old(mem.cells)| && Keeps(old(mem.cells), mem.cells, p, hn + 3)
    ensures W(mem.cells, p, hn + 3)
         == old(W(mem.cells, p, hn + 3)) + d * d + Mul(2 * d, Sh(old(W(mem.cells, h, hn)), 1))
  {
    hide W, P, Sh, Up, Mul;
    ghost var c0 := mem.cells;
    var c: nat := FirstProduct(mem, p, d, h);
    var d2: nat := d;
    var vh, vl := Split(2 * d2);
    DoubleIsEven(d, vh, vl);
    var k := 0;
    while k < hn
      invariant 0 <= k <= hn && c <= 2 * B - 2
      invariant Untouched(c0, mem.cells, p, k + 1)
      invariant W(mem.cells, p, k + 1) + Sh(c, k + 1) == W(c0, p, k + 1) + d * d + Mul(2 * d, Sh(W(c0, h, k), 1))
    {
      var w, z := mem.cells[h + k], mem.cells[p + k + 1];
      assert w == c0[h + k] && z == c0[p + k + 1];
      AccumulatorFits(c, z, vl, vh, w, 0, 0);
      var dn, lo := Split(c + (z + vl * w));
      AccumulatorFits(c, z, vl, vh, w, dn, lo);
      RowStep(c0, mem.cells, p, h, k, c, z, d, vl, vh, dn, lo);
      mem.cells := mem.cells[p + k + 1 := lo];
      c := dn + vh * w;
      k := k + 1;
    }
    RowCarry(mem, p, hn + 1, c, c0);
  }

  /** The square of the digit itself */
  method FirstProduct(mem: Memory, p: nat, d: Digit, ghost h: nat) returns (c: nat)
    requires p < |mem.cells| && h <= |mem.cells|
    modifies mem
    ensures c < B && Untouched(old(mem.cells), mem.cells, p, 1)
    ensures W(mem.cells, p, 1) + Sh(c, 1)
         == W(old(mem.cells), p, 1) + d * d + Mul(2 * d, Sh(W(old(mem.cells), h, 0), 1))
  {
    hide W, P, Sh, Up, Mul;
    ghost var c0 := mem.cells;
    WEmpty(c0, p);
    WEmpty(c0, h);
    WNext(c0, p, 0);
    ShUnit(0);
    ShUnit(1);
    MulIs(2 * d, 0);
    ProductFits(0, d, d, mem.cells[p]);
    var z0: nat := mem.cells[p];
    var dn, lo := Split(0 + (z0 + d * d));
    CarryStep(c0, p, 0, 0, z0 + d * d, dn, lo, 0);
    mem.cells := mem.cells[p := lo];
    c := dn;
  }

  /** The carry of a row goes into the next two digits; the second was 0. */
  method RowCarry(mem: Memory, p: nat, n: nat, c1: nat, ghost c0: seq<Digit>)
    requires p + n + 2 <= |mem.cells| && c1 <= 2 * B - 2 && Untouched(c0, mem.cells, p, n)
    requires c0[p + n + 1] == 0
    modifies mem
    ensures |mem.cells| == |c0| && Keeps(c0, mem.cells, p, n + 2)
    ensures W(mem.cells, p, n + 2) == W(c0, p, n + 2) + old(W(mem.cells, p, n)) + Sh(c1, n) - W(c0, p, n)
  {
    hide W, P, Sh, Up;
    ShUnit(n);
    if c1 == 0 {
      TailSame(c0, mem.cells, p, n, n + 2);
      KeepsIntro(c0, mem.cells, p, n + 2);
      return;
    }
    ghost var total := W(mem.cells, p, n) + Sh(c1, n);
    var z: nat := mem.cells[p + n];
    var c2, lo := Split(c1 + z);
    SmallCarry(c1 + z, c2, lo);
    CarryStep(mem.cells, p, n, c1, z, c2, lo, total);
    WNext(c0, p, n);
    WNext(c0, p, n + 1);
    ShUnit(n + 1);
    mem.cells := mem.cells[p + n := lo];
    if c2 != 0 {
      WWrite(mem.cells, p, n + 1, c2);
      mem.cells := mem.cells[p + n + 1 := mem.cells[p + n + 1] + c2];
    } else {
      WNext(mem.cells, p, n + 1);
    }
    KeepsIntro(c0, mem.cells, p, n + 2);
  }

  lemma SmallCarry(v: nat, dn: int, lo: Digit)
    requires v <= 3 * B - 3 && v == Up(dn) + lo
    ensures 0 <= dn <= 2
  {
    if dn < 0 { MulLe(dn, -1, B); }
    if dn > 2 { MulLe(3, dn, B); }
  }

  /** What the rows of the low digits add up to: with l the value of those digits and xv the
      whole, l^2 + 2*l*(xv-l). */
  function Rows(l: int, xv: int): int {
    l * (2 * xv - l)
  }

  lemma NextRow(c: seq<Digit>, x: nat, xn: nat, i: nat, d: nat)
    requires i < xn && x + xn <= |c| && d == c[x + i]
    ensures Rows(W(c, x, i + 1), W(c, x, xn)) == Rows(W(c, x, i), W(c, x, xn))
         + Sh(d * d + Mul(2 * d, Sh(W(c, x + i + 1, xn - i - 1), 1)), 2 * i)
  {
    hide W, Up, P, Sh, Mul, Rows;
    WNext(c, x, i);
    WSplit(c, x, i, xn - i);
    WHead(c, x + i, xn - i - 1);
    RowsValue(W(c, x, i), d, W(c, x + i + 1, xn - i - 1), i);
  }

  lemma RowsValue(l: int, d: int, hv: int, i: nat)
    ensures var xv := l + Sh(d + B * hv, i);
            Rows(l + Sh(d, i), xv) == Rows(l, xv) + Sh(d * d + Mul(2 * d, Sh(hv, 1)), 2 * i)
  {
    PAdd(i, i);
    assert P(0) == 1;
    PNext(0);
    hide P;
    RowsAlgebra(l, d, hv, P(i), B);
  }

  lemma RowsAlgebra(l: int, d: int, hv: int, r: int, b: int)
    ensures var xv := l + (d + b * hv) * r;
            (l + d * r) * (2 * xv - (l + d * r)) == l * (2 * xv - l) + (d * d + 2 * d * (hv * b)) * (r * r)
  {
    var a, g := d * r, b * hv * r;
    var xv := l + (d + b * hv) * r;
    assert xv == l + a + g by { Distrib(d, b * hv, r); }
    assert (l + a) * (2 * xv - (l + a)) == (l + a) * (l + a + 2 * g);
    assert l * (2 * xv - l) == l * (l + 2 * a + 2 * g);
    assert (l + a) * (l + a + 2 * g) == l * (l + a + 2 * g) + a * (l + a + 2 * g) by { Distrib(l, a, l + a + 2 * g); }
    assert l * (l + a + 2 * g) + a * (l + a + 2 * g) == l * (l + 2 * a + 2 * g) + a * a + 2 * (a * g) by {
      assert l * (l + 2 * a + 2 * g) == l * (l + a + 2 * g) + l * a;
      assert a * (l + a + 2 * g) == a * l + a * a + a * (2 * g);
      assert a * (2 * g) == 2 * (a * g);
    }
    assert (d * d + 2 * d * (hv * b)) * (r * r) == a * a + 2 * (a * g) by {
      Distrib(d * d, 2 * d * (hv * b), r * r);
      assert d * d * (r * r) == a * a;
      assert 2 * d * (hv * b) * (r * r) == 2 * (a * g) by {
        assert a * g == d * r * (b * hv * r);
        assert d * r * (b * hv * r) == d * (hv * b) * (r * r);
      }
    }
  }

  /** bary_sq_fast */
  method SqFast(mem: Memory, z: nat, zn: nat, x: nat, xn: nat)
    requires z + zn <= |mem.cells| && x + xn <= |mem.cells| && 2 * xn <= zn && Apart(z, zn, x, xn)
    modifies mem
    ensures |mem.cells| == |old(mem.cells)| && Keeps(old(mem.cells), mem.cells, z, zn)
    ensures W(mem.cells, z, zn) == old(W(mem.cells, x, xn) * W(mem.cells, x, xn))
  {
    hide W, P, Sh, Up, Mul, Rows;
    ghost var c0 := mem.cells;
    Zero(mem, z, zn);
    WEmpty(c0, x);
    RowsIs(0, W(c0, x, xn));
    if xn == 0 {
      return;
    }
    var i := 0;
    while i < xn - 1
      invariant 0 <= i <= xn - 1
      invariant |mem.cells| == |c0| && Keeps(c0, mem.cells, z, zn)
      invariant W(mem.cells, z, zn) == Rows(W(c0, x, i), W(c0, x, xn))
      invariant forall k :: z + xn + i + 1 <= k < z + zn ==> mem.cells[k] == 0
    {
      var d: nat := mem.cells[x + i];
      NextRow(c0, x, xn, i, d);
      if d != 0 {
        ghost var c1 := mem.cells;
        SqRow(mem, z + 2 * i, d, x + i + 1, xn - i - 1);
        AddInside(c1, mem.cells, z, zn, 2 * i, xn - i + 2, d * d + Mul(2 * d, Sh(W(c0, x + i + 1, xn - i - 1), 1)));
        KeepsIntro(c0, mem.cells, z, zn);
      } else {
        MulIs(0, Sh(W(c0, x + i + 1, xn - i - 1), 1));
        ShUnit(2 * i);
      }
      i := i + 1;
    }
    LastSquare(mem, z, zn, x, xn, c0);
  }

  lemma RowsIs(l: int, xv: int)
    ensures Rows(0, xv) == 0 && Rows(xv, xv) == xv * xv
  {
  }

  /** The square of the top digit; its carry cannot overflow the last digit. */
  method LastSquare(mem: Memory, z: nat, zn: nat, x: nat, xn: nat, ghost c0: seq<Digit>)
    requires 0 < xn && z + zn <= |mem.cells| == |c0| && x + xn <= |c0| && 2 * xn <= zn && Apart(z, zn, x, xn)
    requires Keeps(c0, mem.cells, z, zn)
    requires W(mem.cells, z, zn) == Rows(W(c0, x, xn - 1), W(c0, x, xn))
    requires forall k :: z + 2 * xn <= k < z + zn ==> mem.cells[k] == 0
    modifies mem
    ensures |mem.cells| == |c0| && Keeps(c0, mem.cells, z, zn)
    ensures W(mem.cells, z, zn) == W(c0, x, xn) * W(c0, x, xn)
  {
    hide W, P, Sh, Up, Mul, Rows;
    ghost var c1 := mem.cells;
    var i := xn - 1;
    var v: nat := mem.cells[x + i];
    NextRow(c0, x, xn, i, v);
    RowsIs(0, W(c0, x, xn));
    WEmpty(c0, x + i + 1);
    ShUnit(1);
    MulIs(2 * v, 0);
    ShUnit(2 * i);
    if v == 0 {
      return;
    }
    var c := FirstProduct(mem, z + 2 * i, v, x + xn);
    KeepsIntro(c1, mem.cells, z + 2 * i, 1);
    KeepsIntro(c0, mem.cells, z, zn);
    LastDigit(c0, c1, mem.cells, z, zn, x, xn, c, v * v);
    if c != 0 {
      ghost var c2 := mem.cells;
      mem.cells := mem.cells[z + i + xn := mem.cells[z + i + xn] + c];
      KeepsIntro(c2, mem.cells, z + 2 * i + 1, 1);
      KeepsIntro(c0, mem.cells, z, zn);
      AddDigit(c2, mem.cells, z, zn, 2 * i + 1, c);
    } else {
      ShUnit(2 * i + 1);
    }
  }

  lemma AddDigit(c: seq<Digit>, c': seq<Digit>, z: nat, zn: nat, k: nat, v: int)
    requires |c'| == |c| && k < zn && z + zn <= |c| && Keeps(c, c', z + k, 1)
    requires c'[z + k] == c[z + k] + v
    ensures W(c', z, zn) == W(c, z, zn) + Sh(v, k)
  {
    hide W, P, Sh, Up;
    WNext(c, z + k, 0);
    WNext(c', z + k, 0);
    WEmpty(c, z + k);
    WEmpty(c', z + k);
    ShUnit(0);
    AddInside(c, c', z, zn, k, 1, v);
  }

  /** After the low digit of the last product is stored, what is still missing is c in the
      last digit, and it fits there because the square fits its 2*xn digits. */
  lemma LastDigit(c0: seq<Digit>, c1: seq<Digit>, c: seq<Digit>, z: nat, zn: nat, x: nat, xn: nat, carry: nat, sq: int)
    requires 0 < xn && |c| == |c1| == |c0| && z + zn <= |c| && x + xn <= |c| && 2 * xn <= zn
    requires Keeps(c1, c, z + 2 * (xn - 1), 1)
    requires forall k :: z + 2 * xn <= k < z + zn ==> c1[k] == 0
    requires W(c1, z, zn) + Sh(sq, 2 * (xn - 1)) == W(c0, x, xn) * W(c0, x, xn)
    requires W(c, z + 2 * (xn - 1), 1) + Sh(carry, 1) == W(c1, z + 2 * (xn - 1), 1) + sq
    ensures W(c, z, zn) + Sh(carry, 2 * xn - 1) == W(c0, x, xn) * W(c0, x, xn)
    ensures c[z + 2 * xn - 1] + carry < B
  {
    hide W, P, Sh, Up;
    var i := 2 * (xn - 1);
    AddInside(c1, c, z, zn, i, 1, sq - Sh(carry, 1));
    ShAdd(sq, Sh(carry, 1), i);
    ShSh(carry, 1, i);
    WSplit(c, z, 2 * xn, zn - 2 * xn);
    WZero(c, z + 2 * xn, zn - 2 * xn);
    ShUnit(2 * xn);
    WNext(c, z, 2 * xn - 1);
    PAdd(xn, xn);
    MulLt(W(c0, x, xn), P(xn), W(c0, x, xn), P(xn));
    ShAdd(c[z + 2 * xn - 1], carry, 2 * xn - 1);
    DigitFits(W(c, z, 2 * xn - 1), c[z + 2 * xn - 1] + carry, 2 * xn - 1);
  }

  lemma DigitFits(low: nat, d: int, n: nat)
    requires low + Sh(d, n) < P(n + 1)
    ensures d < B
  {
    if d >= B { MulLe(B, d, P(n)); }
  }
}
