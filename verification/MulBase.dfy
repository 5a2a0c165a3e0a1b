/** The base cases of multiplication: bary_short_mul, bary_mul_precheck, bary_sparse_p. */
module MulBase {
  import opened Arith
  import opened BDigits
  import opened Bary
  import opened Shift
  import opened Square
  import opened KaratsubaParts

  /** The buffers of a multiplication: result z and work space w do not meet each other or
      the operands x and y.  The operands may overlap or be the same. */
  predicate Args(size: nat, z: nat, zn: nat, x: nat, xn: nat, y: nat, yn: nat, w: nat, wn: nat) {
    && z + zn <= size && x + xn <= size && y + yn <= size && w + wn <= size
    && xn + yn <= zn
    && Apart(z, zn, x, xn) && Apart(z, zn, y, yn) && Apart(z, zn, w, wn)
    && Apart(w, wn, x, xn) && Apart(w, wn, y, yn)
  }

  /** The result of a multiplication: z holds the product, and nothing outside z and w changed. */
  ghost predicate Product(c: seq<Digit>, c': seq<Digit>, z: nat, zn: nat, x: nat, xn: nat, y: nat, yn: nat, w: nat,
                          wn: nat)
    requires Args(|c|, z, zn, x, xn, y, yn, w, wn)
  {
    && Keeps2(c, c', z, zn, w, wn)
    && W(c', z, zn) == Mul(W(c, x, xn), W(c, y, yn))
  }

  /** bary_short_mul */
  method ShortMul(mem: Memory, z: nat, zn: nat, x: nat, xn: nat, y: nat, yn: nat)
    requires Args(|mem.cells|, z, zn, x, xn, y, yn, 0, 0)
    modifies mem
    ensures Product(old(mem.cells), mem.cells, z, zn, x, xn, y, yn, 0, 0)
  {
    hide W, P, Sh, Up, Mul;
    ghost var c0 := mem.cells;
    MulIs(W(c0, x, xn), W(c0, y, yn));
    if xn == 1 && yn == 1 {
      MulSingle(mem, z, zn, mem.cells[x], mem.cells[y]);
      WOne(c0, x);
      WOne(c0, y);
    } else {
      MulNormal(mem, z, zn, x, xn, y, yn);
    }
    Keeps2Intro(c0, mem.cells, z, zn, 0, 0);
  }

  /** bary_mul_single */
  method MulSingle(mem: Memory, z: nat, zn: nat, x: Digit, y: Digit)
    requires 2 <= zn && z + zn <= |mem.cells|
    modifies mem
    ensures |mem.cells| == |old(mem.cells)| && Keeps(old(mem.cells), mem.cells, z, zn)
    ensures W(mem.cells, z, zn) == x * y
  {
    hide W, P, Sh, Up;
    ghost var c0 := mem.cells;
    ProductFits(0, x, y, 0);
    var dn, lo := Split(x * y);
    mem.cells := mem.cells[z := lo][z + 1 := dn];
    KeepsIntro(c0, mem.cells, z, 2);
    TwoDigitValue(mem.cells, z);
    Zero(mem, z + 2, zn - 2);
    WSplit(mem.cells, z, 2, zn - 2);
    ShUnit(2);
    KeepsIntro(c0, mem.cells, z, zn);
  }

  /** Adds d*y at digit i of z, when the sum still fits. */
  method MulAddAt(mem: Memory, z: nat, zn: nat, i: nat, d: Digit, y: nat, yn: nat)
    requires z + zn <= |mem.cells| && y + yn <= |mem.cells| && i + yn < zn && Apart(z, zn, y, yn)
    requires W(mem.cells, z, zn) + Sh(Mul(d, W(mem.cells, y, yn)), i) < P(zn)
    modifies mem
    ensures |mem.cells| == |old(mem.cells)| && Keeps(old(mem.cells), mem.cells, z, zn)
    ensures W(mem.cells, z, zn) == old(W(mem.cells, z, zn) + Sh(Mul(d, W(mem.cells, y, yn)), i))
  {
    hide W, P, Sh, Up, Mul;
    ghost var c0 := mem.cells;
    MulIs(d, W(c0, y, yn));
    ghost var v := Mul(d, W(c0, y, yn));
    MulNonNeg(d, W(c0, y, yn));
    var c := MulAdd1xN(mem, z + i, zn - i, d, y, yn);
    AddInside(c0, mem.cells, z, zn, i, zn - i, v - Sh(c, zn - i));
    ShAdd(v, Sh(c, zn - i), i);
    ShSh(c, zn - i, i);
    ShNonNeg(v, i);
    NoWrap(W(mem.cells, z, zn), c, W(c0, z, zn) + Sh(v, i), zn);
    KeepsIntro(c0, mem.cells, z, zn);
  }

  lemma MulNonNeg(a: nat, b: nat)
    ensures 0 <= Mul(a, b)
  {
  }

  /** bary_sparse_p.  Which digits it looks at is random; the indices it may use are in range. */
  method SparseP(mem: Memory, d: nat, n: nat) returns (sparse: bool)
    requires 0 < n && d + n <= |mem.cells|
  {
    var c := 0;
    var k: nat :| k <= n / 2;
    if mem.cells[d + k + n / 4] != 0 { c := c + 1; }
    k :| k <= n / 2;
    if c <= 1 && mem.cells[d + k + n / 4] != 0 { c := c + 1; }
    k :| k <= n / 2;
    if c <= 1 && mem.cells[d + k + n / 4] != 0 { c := c + 1; }
    sparse := c <= 1;
  }

  /** bary_mul_precheck on one operand: drop leading zero digits, then low zero digits. */
  method TrimOperand(mem: Memory, x0: nat, xn0: nat) returns (x: nat, xn: nat, low: nat)
    requires x0 + xn0 <= |mem.cells|
    ensures x == x0 + low && low + xn <= xn0
    ensures W(mem.cells, x0, xn0) == Sh(W(mem.cells, x, xn), low)
    ensures xn > 0 ==> mem.cells[x] != 0 && mem.cells[x + xn - 1] != 0
  {
    hide W, P, Sh, Up;
    low := 0;
    xn := Trunc(mem, x0, xn0);
    x := x0;
    ShUnit(0);
    while 0 < xn && mem.cells[x] == 0
      invariant x == x0 + low && low + xn <= xn0
      invariant W(mem.cells, x0, xn0) == Sh(W(mem.cells, x, xn), low)
      invariant xn > 0 ==> mem.cells[x + xn - 1] != 0
      decreases xn
    {
      DropLowZero(mem.cells, x, xn, low);
      x, xn, low := x + 1, xn - 1, low + 1;
    }
  }

  lemma DropLowZero(c: seq<Digit>, x: nat, xn: nat, low: nat)
    requires 0 < xn && x + xn <= |c| && c[x] == 0
    ensures Sh(W(c, x, xn), low) == Sh(W(c, x + 1, xn - 1), low + 1)
  {
    hide W, P, Sh, Up;
    WHead(c, x, xn - 1);
    ShSh(W(c, x + 1, xn - 1), 1, low);
    ShOne(W(c, x + 1, xn - 1));
  }

  lemma ShOne(v: int)
    ensures Sh(v, 1) == B * v
  {
    UpIs(v);
  }

  /** bary_mul_precheck: the trivial products are done at once; otherwise what is left is a
      multiplication of two operands of at least two digits, the shorter first. */
  method Precheck(mem: Memory, z0: nat, zn0: nat, x0: nat, xn0: nat, y0: nat, yn0: nat, w: nat, wn: nat)
    returns (done: bool, z: nat, zn: nat, x: nat, xn: nat, y: nat, yn: nat)
    requires Args(|mem.cells|, z0, zn0, x0, xn0, y0, yn0, w, wn)
    modifies mem
    ensures |mem.cells| == |old(mem.cells)| && Keeps(old(mem.cells), mem.cells, z0, zn0)
    ensures done ==> W(mem.cells, z0, zn0) == Mul(old(W(mem.cells, x0, xn0)), old(W(mem.cells, y0, yn0)))
    ensures !done ==> Args(|mem.cells|, z, zn, x, xn, y, yn, w, wn) && 2 <= xn <= yn && xn + yn <= xn0 + yn0
    ensures !done ==> z0 <= z && z + zn == z0 + zn0 && W(mem.cells, z0, z - z0) == 0
    ensures !done ==> Mul(old(W(mem.cells, x0, xn0)), old(W(mem.cells, y0, yn0)))
                      == Sh(Mul(W(mem.cells, x, xn), W(mem.cells, y, yn)), z - z0)
  {
    hide W, P, Sh, Up, Mul, Keeps;
    ghost var c0 := mem.cells;
    var low, low';
    x, xn, low := TrimOperand(mem, x0, xn0);
    y, yn, low' := TrimOperand(mem, y0, yn0);
    LowProduct(W(c0, x, xn), low, W(c0, y, yn), low');
    var nlsz := low + low';
    Zero(mem, z0, nlsz);
    ghost var c1 := mem.cells;
    z, zn := z0 + nlsz, zn0 - nlsz;
    InsideKept(c0, c1, z0, nlsz, z0, zn0);
    WindowKept(c0, c1, z0, nlsz, x, xn);
    WindowKept(c0, c1, z0, nlsz, y, yn);
    if xn > yn {
      x, xn, y, yn := y, yn, x, xn;
      MulComm(W(c0, x, xn), W(c0, y, yn));
    }
    done := xn <= 1;
    if done {
      TinyProduct(mem, z, zn, x, xn, y, yn);
      WindowKept(c1, mem.cells, z, zn, z0, nlsz);
      WSplit(mem.cells, z0, nlsz, zn);
      InsideKept(c1, mem.cells, z, zn, z0, zn0);
      KeptTwice(c0, c1, mem.cells, z0, zn0);
    }
  }

  lemma MulComm(a: int, b: int)
    ensures Mul(a, b) == Mul(b, a)
  {
  }

  lemma LowProduct(a: int, n: nat, b: int, m: nat)
    ensures Mul(Sh(a, n), Sh(b, m)) == Sh(Mul(a, b), n + m)
  {
    PAdd(n, m);
    Commute4(a, P(n), b, P(m));
  }

  /** The products by zero or by one digit */
  method TinyProduct(mem: Memory, z: nat, zn: nat, x: nat, xn: nat, y: nat, yn: nat)
    requires Args(|mem.cells|, z, zn, x, xn, y, yn, 0, 0) && xn <= 1 && xn <= yn
    requires xn == 1 ==> mem.cells[x] != 0
    modifies mem
    ensures |mem.cells| == |old(mem.cells)| && Keeps(old(mem.cells), mem.cells, z, zn)
    ensures W(mem.cells, z, zn) == Mul(old(W(mem.cells, x, xn)), old(W(mem.cells, y, yn)))
  {
    hide W, P, Sh, Up, Mul, IsPow2;
    ghost var c0 := mem.cells;
    ghost var yv := W(c0, y, yn);
    if xn == 0 {
      Zero(mem, z, zn);
      WEmpty(c0, x);
      MulIs(0, yv);
      return;
    }
    var d: nat := mem.cells[x];
    WOne(c0, x);
    if d == 1 {
      MulIs(1, yv);
      CopyPadded(mem, z, zn, y, yn);
    } else if IsPow2(d) {
      var out := SmallLshift(mem, z, y, yn, d);
      WWrite(mem.cells, z, yn, out);
      mem.cells := mem.cells[z + yn := out];
      KeepsIntro(c0, mem.cells, z, yn + 1);
      Zero(mem, z + yn + 1, zn - yn - 1);
      WSplit(mem.cells, z, yn + 1, zn - yn - 1);
      ShUnit(yn + 1);
      KeepsIntro(c0, mem.cells, z, zn);
    } else if yn == 1 && mem.cells[y] == 1 {
      WOne(c0, y);
      MulIs(d, 1);
      CopyPadded(mem, z, zn, x, 1);
    } else {
      MulIs(d, yv);
      MulNormal(mem, z, zn, x, xn, y, yn);
    }
  }
}
