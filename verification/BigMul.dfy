/** The multiplication dispatch of bignum.c: precheck, balancing, Karatsuba, Toom-3, squaring
    and schoolbook multiplication call each other until the operands are small. */
module BigMul {
  import opened Arith
  import opened BDigits
  import opened Bary
  import opened Square
  import opened KaratsubaParts
  import opened MulBase
  import opened ToomParts

  const KARATSUBA_MUL_DIGITS: nat := 70
  const TOOM3_MUL_DIGITS: nat := 150

  predicate KaratsubaBalanced(xn: nat, yn: nat) {
    yn / 2 < xn
  }

  predicate Toom3Balanced(xn: nat, yn: nat) {
    (yn + 2) / 3 * 2 < xn
  }

  /** bary_mul_karatsuba_start */
  method KaratsubaStart(mem: Memory, z: nat, zn: nat, x: nat, xn: nat, y: nat, yn: nat, w: nat, wn: nat)
    requires Args(|mem.cells|, z, zn, x, xn, y, yn, w, wn)
    modifies mem
    ensures Product(old(mem.cells), mem.cells, z, zn, x, xn, y, yn, w, wn)
    decreases xn + yn, 5
  {
    hide W, P, Sh, Up, Mul;
    ghost var c0 := mem.cells;
    var done, z', zn', x', xn', y', yn' := Precheck(mem, z, zn, x, xn, y, yn, w, wn);
    if !done {
      ghost var c1 := mem.cells;
      KaratsubaBranch(mem, z', zn', x', xn', y', yn', w, wn);
      Unprecheck(c1, mem.cells, z, zn, z', zn', w, wn);
    }
    Keeps2Intro(c0, mem.cells, z, zn, w, wn);
  }

  /** The product above the low zero digits is the whole product. */
  lemma Unprecheck(c: seq<Digit>, c': seq<Digit>, z: nat, zn: nat, z': nat, zn': nat, w: nat, wn: nat)
    requires z <= z' && z' + zn' == z + zn && z + zn <= |c| && Apart(z, zn, w, wn)
    requires Keeps2(c, c', z', zn', w, wn) && W(c, z, z' - z) == 0
    ensures W(c', z, zn) == Sh(W(c', z', zn'), z' - z)
  {
    hide W, P, Sh, Up;
    WSplit(c', z, z' - z, zn');
    assert W(c', z, z' - z) == W(c, z, z' - z);
  }

  /** bary_mul_karatsuba_branch */
  method KaratsubaBranch(mem: Memory, z: nat, zn: nat, x: nat, xn: nat, y: nat, yn: nat, w: nat, wn: nat)
    requires Args(|mem.cells|, z, zn, x, xn, y, yn, w, wn) && 2 <= xn <= yn
    modifies mem
    ensures Product(old(mem.cells), mem.cells, z, zn, x, xn, y, yn, w, wn)
    decreases xn + yn, 4
  {
    hide W, P, Sh, Up, Mul;
    if xn < KARATSUBA_MUL_DIGITS {
      NormalMul(mem, z, zn, x, xn, y, yn, w, wn);
      return;
    }
    var sparse := SparseP(mem, x, xn);
    if sparse {
      NormalMul(mem, z, zn, x, xn, y, yn, w, wn);
      return;
    }
    sparse := SparseP(mem, y, yn);
    if sparse {
      ghost var c0 := mem.cells;
      ShortMul(mem, z, zn, y, yn, x, xn);
      MulComm(W(c0, x, xn), W(c0, y, yn));
      Keeps2Intro(c0, mem.cells, z, zn, w, wn);
      return;
    }
    if !KaratsubaBalanced(xn, yn) {
      Balance(mem, z, zn, x, xn, y, yn, w, wn, false);
      return;
    }
    Karatsuba(mem, z, zn, x, xn, y, yn, w, wn);
  }

  /** The label `normal` of bary_mul_karatsuba_branch */
  method NormalMul(mem: Memory, z: nat, zn: nat, x: nat, xn: nat, y: nat, yn: nat, w: nat, wn: nat)
    requires Args(|mem.cells|, z, zn, x, xn, y, yn, w, wn)
    modifies mem
    ensures Product(old(mem.cells), mem.cells, z, zn, x, xn, y, yn, w, wn)
  {
    hide W, P, Sh, Up, Mul;
    ghost var c0 := mem.cells;
    if x == y && xn == yn {
      MulIs(W(c0, x, xn), W(c0, x, xn));
      SqFast(mem, z, zn, x, xn);
    } else {
      ShortMul(mem, z, zn, x, xn, y, yn);
    }
    Keeps2Intro(c0, mem.cells, z, zn, w, wn);
  }

  /** bary_mul_balance_with_mulfunc: y is cut into slices as long as x, which `toom` says how
      to multiply. */
  method Balance(mem: Memory, z: nat, zn: nat, x: nat, xn: nat, y: nat, yn: nat, w0: nat, wn0: nat, toom: bool)
    requires Args(|mem.cells|, z, zn, x, xn, y, yn, w0, wn0) && 2 <= xn < yn
    modifies mem
    ensures Product(old(mem.cells), mem.cells, z, zn, x, xn, y, yn, w0, wn0)
    decreases xn + yn, 2
  {
    hide W, P, Sh, Up, Mul, Keeps2;
    ghost var c0 := mem.cells;
    ghost var xv := W(c0, x, xn);
    Zero(mem, z, xn);
    WEmpty(c0, y);
    MulIs(xv, 0);
    Keeps2Intro(c0, mem.cells, z, zn, w0, wn0);
    var w: nat, wn: nat, n := w0, wn0, 0;
    while n < yn
      invariant 0 <= n <= yn && |c0| <= |mem.cells| && w + wn <= |mem.cells|
      invariant (w == w0 && wn == wn0) || |c0| <= w
      invariant Keeps2(c0, mem.cells, z, zn, w0, wn0)
      invariant W(mem.cells, z, n + xn) == Mul(xv, W(c0, y, n))
    {
      var r := if xn > yn - n then yn - n else xn;
      w, wn := NextSlice(mem, z, zn, x, xn, y, yn, n, r, w, wn, toom, c0, w0, wn0);
      n := n + r;
    }
    ghost var c3 := mem.cells;
    Zero(mem, z + xn + yn, zn - (xn + yn));
    WSplit(mem.cells, z, xn + yn, zn - (xn + yn));
    ShUnit(xn + yn);
    Keeps2Intro(c3, mem.cells, z, zn, 0, 0);
    KeepsTrans(c0, c3, mem.cells, z, zn, w0, wn0, z, zn, 0, 0);
  }

  /** One turn of the loop of bary_mul_balance_with_mulfunc, with its allocation */
  method NextSlice(mem: Memory, z: nat, zn: nat, x: nat, xn: nat, y: nat, yn: nat, n: nat, r: nat, w1: nat, wn1: nat,
                   toom: bool,
                   ghost c0: seq<Digit>, ghost w0: nat, ghost wn0: nat) returns (w: nat, wn: nat)
    requires Args(|c0|, z, zn, x, xn, y, yn, w0, wn0) && n + r <= yn && 0 < r <= xn < yn
    requires |c0| <= |mem.cells| && w1 + wn1 <= |mem.cells| && ((w1 == w0 && wn1 == wn0) || |c0| <= w1)
    requires Keeps2(c0, mem.cells, z, zn, w0, wn0)
    requires W(mem.cells, z, n + xn) == Mul(W(c0, x, xn), W(c0, y, n))
    modifies mem
    ensures |c0| <= |mem.cells| && w + wn <= |mem.cells| && ((w == w0 && wn == wn0) || |c0| <= w)
    ensures Keeps2(c0, mem.cells, z, zn, w0, wn0)
    ensures W(mem.cells, z, n + r + xn) == Mul(W(c0, x, xn), W(c0, y, n + r))
    decreases xn + yn, 1
  {
    hide W, P, Sh, Up, Mul, Keeps2;
    w, wn := w1, wn1;
    if !(2 * (xn + r) <= zn - n) && wn < xn {
      ghost var c1 := mem.cells;
      wn := xn;
      w := mem.Alloc(wn);
      SliceKept(c1, mem.cells, z, zn, w, wn, n + xn);
      Keeps2Intro(c1, mem.cells, 0, 0, 0, 0);
      KeepsTrans(c0, c1, mem.cells, z, zn, w0, wn0, 0, 0, 0, 0);
    }
    ghost var c2 := mem.cells;
    OperandsKept(c0, c2, z, zn, x, xn, y, yn, n, r, w0, wn0);
    Slice(mem, z, zn, x, xn, y, n, r, w, wn, toom);
    KeepsSize(c2, mem.cells, z, zn, w, wn);
    KeepsTrans(c0, c2, mem.cells, z, zn, w0, wn0, z, zn, w, wn);
  }

  lemma KeepsSize(c: seq<Digit>, c': seq<Digit>, z: nat, zn: nat, w: nat, wn: nat)
    requires Keeps2(c, c', z, zn, w, wn)
    ensures |c| <= |c'|
  {
  }

  lemma SliceKept(c: seq<Digit>, c': seq<Digit>, z: nat, zn: nat, w: nat, wn: nat, n: nat)
    requires Keeps(c, c', w, wn) && |c| <= w && z + n <= |c|
    ensures W(c', z, n) == W(c, z, n)
  {
  }

  lemma OperandsKept(c: seq<Digit>, c': seq<Digit>, z: nat, zn: nat, x: nat, xn: nat, y: nat, yn: nat, n: nat, r: nat,
                     w: nat, wn: nat)
    requires Keeps2(c, c', z, zn, w, wn) && Args(|c|, z, zn, x, xn, y, yn, w, wn) && n + r <= yn
    ensures W(c', x, xn) == W(c, x, xn) && W(c', y, n) == W(c, y, n) && W(c', y, n + r) == W(c, y, n + r)
  {
  }

  /** One slice of bary_mul_balance_with_mulfunc: multiply x by r digits of y and add the
      product at digit n. */
  method Slice(mem: Memory, z: nat, zn: nat, x: nat, xn: nat, y: nat, n: nat, r: nat, w: nat, wn: nat, toom: bool)
    requires Args(|mem.cells|, z, zn, x, xn, y, n + r, w, wn)
    requires 2 * (xn + r) <= zn - n || xn <= wn
    requires W(mem.cells, z, n + xn) == Mul(W(mem.cells, x, xn), W(mem.cells, y, n))
    modifies mem
    ensures Keeps2(old(mem.cells), mem.cells, z, zn, w, wn)
    ensures W(mem.cells, z, n + r + xn) == Mul(old(W(mem.cells, x, xn)), old(W(mem.cells, y, n + r)))
    decreases xn + r, 10
  {
    hide W, P, Sh, Up, Mul;
    ghost var c0 := mem.cells;
    var carry;
    if 2 * (xn + r) <= zn - n {
      carry := SliceAbove(mem, z + n, zn - n, x, xn, y + n, r, w, wn, toom);
    } else {
      carry := SliceSaved(mem, z + n, zn - n, x, xn, y + n, r, w, wn, toom);
    }
    assert W(mem.cells, z, n) == W(c0, z, n);
    SliceValue(c0, mem.cells, z, n, xn, r, x, y, carry);
    Keeps2Intro(c0, mem.cells, z, zn, w, wn);
  }

  /** There is room for the slice product above the place where it is to be added. */
  method SliceAbove(mem: Memory, z: nat, zn: nat, x: nat, xn: nat, y: nat, r: nat, w: nat, wn: nat, toom: bool)
    returns (carry: nat)
    requires Args(|mem.cells|, z, zn, x, xn, y, r, w, wn) && 2 * (xn + r) <= zn
    modifies mem
    ensures Keeps2(old(mem.cells), mem.cells, z, zn, w, wn) && carry <= 1
    ensures W(mem.cells, z, xn + r) + Sh(carry, xn + r)
         == old(W(mem.cells, z, xn)) + Mul(old(W(mem.cells, x, xn)), old(W(mem.cells, y, r)))
    decreases xn + r, 9
  {
    hide W, P, Sh, Up, Mul;
    ghost var c0 := mem.cells;
    var t := z + xn + r;
    MulFunc(mem, t, xn + r, x, xn, y, r, w, wn, toom);
    assert W(mem.cells, z, xn) == W(c0, z, xn);
    carry := AddAbove(mem, z, xn, r, t);
    Keeps2Intro(c0, mem.cells, z, zn, w, wn);
  }

  /** The digits already at the place are saved in w. */
  method SliceSaved(mem: Memory, z: nat, zn: nat, x: nat, xn: nat, y: nat, r: nat, w: nat, wn: nat, toom: bool)
    returns (carry: nat)
    requires Args(|mem.cells|, z, zn, x, xn, y, r, w, wn) && xn <= wn
    modifies mem
    ensures Keeps2(old(mem.cells), mem.cells, z, zn, w, wn) && carry <= 1
    ensures W(mem.cells, z, xn + r) + Sh(carry, xn + r)
         == old(W(mem.cells, z, xn)) + Mul(old(W(mem.cells, x, xn)), old(W(mem.cells, y, r)))
    decreases xn + r, 9
  {
    hide W, P, Sh, Up, Mul;
    ghost var c0 := mem.cells;
    Copy(mem, w, z, xn);
    assert W(mem.cells, x, xn) == W(c0, x, xn) && W(mem.cells, y, r) == W(c0, y, r);
    MulFunc(mem, z, xn + r, x, xn, y, r, w + xn, wn - xn, toom);
    assert W(mem.cells, w, xn) == W(c0, z, xn);
    carry := Add(mem, z, xn + r, z, xn + r, w, xn);
    Keeps2Intro(c0, mem.cells, z, zn, w, wn);
  }

  /** The slice product waits at t, above the place where it is to be added. */
  method AddAbove(mem: Memory, p: nat, xn: nat, r: nat, t: nat) returns (carry: nat)
    requires p + xn + r <= t && t + xn + r <= |mem.cells|
    modifies mem
    ensures |mem.cells| == |old(mem.cells)| && Keeps(old(mem.cells), mem.cells, p, xn + r)
    ensures carry <= 1
    ensures W(mem.cells, p, xn + r) + Sh(carry, xn + r) == old(W(mem.cells, p, xn) + W(mem.cells, t, xn + r))
  {
    hide W, P, Sh, Up;
    ghost var c0 := mem.cells;
    Zero(mem, p + xn, r);
    WSplit(mem.cells, p, xn, r);
    ShUnit(xn);
    carry := Add(mem, p, xn + r, p, xn + r, t, xn + r);
    KeepsIntro(c0, mem.cells, p, xn + r);
  }

  /** The multiplication routine passed to bary_mul_balance_with_mulfunc */
  method MulFunc(mem: Memory, z: nat, zn: nat, x: nat, xn: nat, y: nat, yn: nat, w: nat, wn: nat, toom: bool)
    requires Args(|mem.cells|, z, zn, x, xn, y, yn, w, wn)
    modifies mem
    ensures Product(old(mem.cells), mem.cells, z, zn, x, xn, y, yn, w, wn)
    decreases xn + yn, 8
  {
    if toom {
      Toom3Start(mem, z, zn, x, xn, y, yn, w, wn);
    } else {
      KaratsubaStart(mem, z, zn, x, xn, y, yn, w, wn);
    }
  }

  lemma SliceValue(c0: seq<Digit>, c: seq<Digit>, z: nat, n: nat, xn: nat, r: nat, x: nat, y: nat, carry: nat)
    requires x + xn <= |c0| && y + n + r <= |c0| && z + n + xn + r <= |c0| && z + n + xn + r <= |c|
    requires W(c0, z, n + xn) == Mul(W(c0, x, xn), W(c0, y, n)) && carry <= 1
    requires W(c, z, n) == W(c0, z, n)
    requires W(c, z + n, xn + r) + Sh(carry, xn + r) == W(c0, z + n, xn) + Mul(W(c0, x, xn), W(c0, y + n, r))
    ensures W(c, z, n + r + xn) == Mul(W(c0, x, xn), W(c0, y, n + r))
  {
    hide W, P, Sh, Up, Mul;
    var xv, v := W(c0, x, xn), Mul(W(c0, x, xn), W(c0, y + n, r));
    WSplit(c, z, n, xn + r);
    WSplit(c0, z, n, xn);
    WSplit(c0, y, n, r);
    MulNext(xv, W(c0, y, n), W(c0, y + n, r), n);
    ShAdd(W(c0, z + n, xn), v, n);
    ShAdd(W(c, z + n, xn + r), Sh(carry, xn + r), n);
    ShSh(carry, xn + r, n);
    ProductBound(xv, xn, W(c0, y, n + r), n + r, n + r + xn);
    NoWrap(W(c, z, n + xn + r), carry, Mul(xv, W(c0, y, n + r)), n + r + xn);
  }

  /** bary_mul_karatsuba: an odd top digit is split off and multiplied in at the end. */
  method Karatsuba(mem: Memory, z: nat, zn: nat, x: nat, xn: nat, y: nat, yn: nat, w: nat, wn: nat)
    requires Args(|mem.cells|, z, zn, x, xn, y, yn, w, wn) && 2 <= xn <= yn < 2 * xn
    modifies mem
    ensures Product(old(mem.cells), mem.cells, z, zn, x, xn, y, yn, w, wn)
    decreases xn + yn, 3
  {
    hide W, P, Sh, Up, Mul;
    ghost var c0 := mem.cells;
    var sq := x == y && xn == yn;
    if yn % 2 == 1 {
      var yn1 := yn - 1;
      var xn1 := if yn1 < xn then xn - 1 else xn;
      KaratsubaEven(mem, z, zn, x, xn1, y, yn1 / 2, sq, w, wn);
      ghost var c1 := mem.cells;
      assert W(c1, x, xn1) == W(c0, x, xn1) && W(c1, y, yn) == W(c0, y, yn) && W(c1, x, xn) == W(c0, x, xn);
      OddTop(mem, z, zn, x, xn, xn1, y, yn1);
      Keeps2Intro(c0, mem.cells, z, zn, w, wn);
    } else {
      KaratsubaEven(mem, z, zn, x, xn, y, yn / 2, sq, w, wn);
    }
  }

  /** Multiplies in the top digit of y (and of x, when it was split off too). */
  method OddTop(mem: Memory, z: nat, zn: nat, x: nat, xn: nat, xn1: nat, y: nat, yn1: nat)
    requires z + zn <= |mem.cells| && x + xn <= |mem.cells| && y + yn1 + 1 <= |mem.cells|
    requires xn + yn1 + 1 <= zn && Apart(z, zn, x, xn) && Apart(z, zn, y, yn1 + 1) && 0 < xn1
    requires xn1 == xn || (xn1 == xn - 1 && xn1 == yn1)
    requires W(mem.cells, z, zn) == Mul(W(mem.cells, x, xn1), W(mem.cells, y, yn1))
    modifies mem
    ensures |mem.cells| == |old(mem.cells)| && Keeps(old(mem.cells), mem.cells, z, zn)
    ensures W(mem.cells, z, zn) == Mul(old(W(mem.cells, x, xn)), old(W(mem.cells, y, yn1 + 1)))
  {
    hide W, P, Sh, Up, Mul;
    ghost var c0 := mem.cells;
    ghost var xv1, yv := W(c0, x, xn1), W(c0, y, yn1 + 1);
    WNext(c0, y, yn1);
    MulComm(mem.cells[y + yn1], xv1);
    MulNext(xv1, W(c0, y, yn1), mem.cells[y + yn1], yn1);
    ProductBound(xv1, xn1, yv, yn1 + 1, zn);
    MulAddAt(mem, z, zn, yn1, mem.cells[y + yn1], x, xn1);
    if xn1 != xn {
      WNext(c0, x, xn1);
      assert W(mem.cells, y, yn1 + 1) == yv && mem.cells[x + xn1] == c0[x + xn1];
      MulComm(xv1, yv);
      MulComm(W(c0, x, xn), yv);
      MulComm(c0[x + xn1], yv);
      MulNext(yv, xv1, c0[x + xn1], xn1);
      ProductBound(W(c0, x, xn), xn, yv, yn1 + 1, zn);
      MulAddAt(mem, z, zn, xn1, mem.cells[x + xn1], y, yn1 + 1);
      KeepsIntro(c0, mem.cells, z, zn);
    }
  }

  /** bary_mul_karatsuba on an operand y of 2n digits */
  method KaratsubaEven(mem: Memory, z: nat, zn: nat, x: nat, xn: nat, y: nat, n: nat, sq: bool, w0: nat, wn0: nat)
    requires Args(|mem.cells|, z, zn, x, xn, y, 2 * n, w0, wn0) && 0 < n < xn <= 2 * n
    requires sq ==> x == y && xn == 2 * n
    modifies mem
    ensures Product(old(mem.cells), mem.cells, z, zn, x, xn, y, 2 * n, w0, wn0)
    decreases xn + 2 * n, 2
  {
    hide W, P, Sh, Up, Mul;
    ghost var c0 := mem.cells;
    var w, wn := w0, wn0;
    if wn < n {
      wn := 2 * n;
      w := mem.Alloc(wn);
    }
    assert W(mem.cells, x, xn) == W(c0, x, xn) && W(mem.cells, y, 2 * n) == W(c0, y, 2 * n);
    KaratsubaWork(mem, z, zn, x, xn, y, n, sq, w, wn);
    Keeps2Intro(c0, mem.cells, z, zn, w0, wn0);
  }

  /** The schedule of bary_mul_karatsuba over the quarters of z and the work space w */
  method KaratsubaWork(mem: Memory, z: nat, zn: nat, x: nat, xn: nat, y: nat, n: nat, sq: bool, w: nat, wn: nat)
    requires Args(|mem.cells|, z, zn, x, xn, y, 2 * n, w, wn) && 0 < n < xn <= 2 * n && n <= wn
    requires sq ==> x == y && xn == 2 * n
    modifies mem
    ensures Product(old(mem.cells), mem.cells, z, zn, x, xn, y, 2 * n, w, wn)
    decreases xn + 2 * n, 1
  {
    hide W, P, Sh, Up, Mul, Keeps2;
    ghost var c0 := mem.cells;
    ghost var x0: int, x1: int, y0: int, y1: int := W(c0, x, n), W(c0, x + n, xn - n), W(c0, y, n), W(c0, y + n, n);
    var subP := MiddleProduct(mem, z, zn, x, xn, y, n, sq, w, wn);
    ghost var c1 := mem.cells;
    HalvesKept(c0, c1, z, 3 * n, x, xn, y, n, w, wn);
    var borrow := SignMiddle(mem, z + n, n, subP, w);
    ghost var c2 := mem.cells;
    HalvesKept(c1, c2, z + n, 2 * n, x, xn, y, n, w, n);
    var carry1, carry2; ghost var l0, l1;
    carry1, carry2, l0, l1 := LowPart(mem, z, zn, x, xn, y, n, w, wn);
    ghost var c3 := mem.cells;
    HalvesKept(c2, c3, z, 3 * n, x, xn, y, n, w, wn);
    ghost var t := HighPart(mem, z, zn, x, xn, y, n, w, wn, carry1, carry2, borrow);
    KeepsSize(c3, mem.cells, z, zn, w, wn);
    ScheduleValue(n, Mul(x0, y0), l0, l1, Mul(x1, y1), Mul(x0 - x1, y0 - y1), W(c2, w, n), W(c2, z + 2 * n, n),
                  W(c3, z + n, n), W(c3, w, n), carry1, carry2, borrow);
    WholeProduct(c0, mem.cells, z, zn, x, xn, y, n, t);
    KeepsGrow(c0, c1, z, 3 * n, zn, w, wn);
    KeepsTrans(c0, c1, c2, z, zn, w, wn, z + n, 2 * n, w, n);
    KeepsTrans(c0, c2, c3, z, zn, w, wn, z, 3 * n, w, wn);
    KeepsTrans(c0, c3, mem.cells, z, zn, w, wn, z, zn, w, wn);
  }

  lemma KeepsGrow(c: seq<Digit>, c': seq<Digit>, z: nat, n: nat, zn: nat, w: nat, wn: nat)
    requires Keeps2(c, c', z, n, w, wn) && n <= zn
    ensures Keeps2(c, c', z, zn, w, wn)
  {
    Keeps2Intro(c, c', z, zn, w, wn);
  }

  /** The halves of the operands are unchanged by a step that writes only apart from them. */
  lemma HalvesKept(c: seq<Digit>, c': seq<Digit>, z: nat, zn: nat, x: nat, xn: nat, y: nat, n: nat, w: nat, wn: nat)
    requires Keeps2(c, c', z, zn, w, wn) && n <= xn && x + xn <= |c| && y + 2 * n <= |c|
    requires Apart(z, zn, x, xn) && Apart(z, zn, y, 2 * n) && Apart(w, wn, x, xn) && Apart(w, wn, y, 2 * n)
    ensures |c| <= |c'| && W(c', x, n) == W(c, x, n) && W(c', x + n, xn - n) == W(c, x + n, xn - n)
    ensures W(c', y, n) == W(c, y, n) && W(c', y + n, n) == W(c, y + n, n)
  {
  }

  lemma WholeProduct(c0: seq<Digit>, c: seq<Digit>, z: nat, zn: nat, x: nat, xn: nat, y: nat, n: nat, t: int)
    requires n <= xn && x + xn <= |c0| && y + 2 * n <= |c0| && z + zn <= |c| && xn + 2 * n <= zn
    requires W(c, z, zn) + Sh(t, zn)
          == var x0: int, x1: int, y0: int, y1: int := W(c0, x, n), W(c0, x + n, xn - n), W(c0, y, n), W(c0, y + n, n);
             Mul(x0, y0) + Sh(Mul(x0, y0) + Mul(x1, y1) - Mul(x0 - x1, y0 - y1), n) + Sh(Mul(x1, y1), 2 * n)
    ensures W(c, z, zn) == Mul(W(c0, x, xn), W(c0, y, 2 * n))
  {
    hide W, P, Sh, Up, Mul;
    WSplit(c0, x, n, xn - n);
    WSplit(c0, y, n, n);
    KaratsubaIdentity(W(c0, x, n), W(c0, x + n, xn - n), W(c0, y, n), W(c0, y + n, n), n);
    ProductBound(W(c0, x, xn), xn, W(c0, y, 2 * n), 2 * n, zn);
    NoWrap(W(c, z, zn), t, Mul(W(c0, x, xn), W(c0, y, 2 * n)), zn);
  }

  lemma SignedProduct(a: int, b: int, v: nat, same: bool)
    requires v == Mul(Abs(a), Abs(b)) && same == ((a < 0) == (b < 0))
    ensures (if same then v else 0 - v as int) == Mul(a, b)
  {
  }

  /** |x0-x1|*|y0-y1| at z+n, and whether it is to be subtracted */
  method MiddleProduct(mem: Memory, z: nat, zn: nat, x: nat, xn: nat, y: nat, n: nat, sq: bool, w: nat, wn: nat)
    returns (subP: bool)
    requires Args(|mem.cells|, z, zn, x, xn, y, 2 * n, w, wn) && 0 < n < xn <= 2 * n && n <= wn
    requires sq ==> x == y && xn == 2 * n
    modifies mem
    ensures Keeps2(old(mem.cells), mem.cells, z, 3 * n, w, wn)
    ensures (if subP then W(mem.cells, z + n, 2 * n) else 0 - W(mem.cells, z + n, 2 * n))
         == Mul(old(W(mem.cells, x, n) - W(mem.cells, x + n, xn - n)), old(W(mem.cells, y, n) - W(mem.cells, y + n, n)))
    decreases xn + 2 * n, 0
  {
    hide W, P, Sh, Up, Mul, Abs, Keeps, Keeps2;
    ghost var c0 := mem.cells;
    ghost var a, b := W(c0, x, n) - W(c0, x + n, xn - n), W(c0, y, n) - W(c0, y + n, n);
    var neg := AbsDiff(mem, z, n, x, n, x + n, xn - n);
    ghost var c1 := mem.cells;
    subP := !neg;
    if sq {
      subP := true;
      KaratsubaStart(mem, z + n, 2 * n, z, n, z, n, w, wn);
      KeepsSize(c1, mem.cells, z + n, 2 * n, w, wn);
      SignedProduct(a, a, W(mem.cells, z + n, 2 * n), subP);
      MiddleKept(c0, c1, c1, mem.cells, z, n, w, wn, w, wn);
    } else {
      WindowKept(c0, c1, z, n, y, n);
      WindowKept(c0, c1, z, n, y + n, n);
      var neg' := AbsDiff(mem, w, n, y, n, y + n, n);
      ghost var c2 := mem.cells;
      WindowKept(c1, c2, w, n, z, n);
      if neg' { subP := !subP; }
      assert Args(|mem.cells|, z + n, 2 * n, z, n, w, n, w + n, wn - n);
      KaratsubaStart(mem, z + n, 2 * n, z, n, w, n, w + n, wn - n);
      KeepsSize(c2, mem.cells, z + n, 2 * n, w + n, wn - n);
      SignedProduct(a, b, W(mem.cells, z + n, 2 * n), subP);
      MiddleKept(c0, c1, c2, mem.cells, z, n, w, wn, w + n, wn - n);
    }
  }

  lemma MiddleKept(c0: seq<Digit>, c1: seq<Digit>, c2: seq<Digit>, c3: seq<Digit>, z: nat, n: nat, w: nat, wn: nat,
                   v: nat, vn: nat)
    requires |c0| == |c1| == |c2| && n <= wn && w <= v && v + vn == w + wn
    requires Keeps(c0, c1, z, n) && (c2 == c1 || Keeps(c1, c2, w, n)) && Keeps2(c2, c3, z + n, 2 * n, v, vn)
    ensures Keeps2(c0, c3, z, 3 * n, w, wn)
  {
    Keeps2Intro(c0, c3, z, 3 * n, w, wn);
  }

  /** x0*y0 at z, folded with the middle product */
  method LowPart(mem: Memory, z: nat, zn: nat, x: nat, xn: nat, y: nat, n: nat, w: nat, wn: nat)
    returns (carry1: nat, carry2: nat, ghost l0: nat, ghost l1: nat)
    requires Args(|mem.cells|, z, zn, x, xn, y, 2 * n, w, wn) && 0 < n < xn <= 2 * n && n <= wn
    modifies mem
    ensures Keeps2(old(mem.cells), mem.cells, z, 3 * n, w, wn)
    ensures carry1 <= 1 && carry2 <= 1
    ensures l0 + Sh(l1, n) == Mul(old(W(mem.cells, x, n)), old(W(mem.cells, y, n)))
    ensures W(mem.cells, z, n) == l0
    ensures W(mem.cells, z + n, n) + Sh(carry2, n) + Sh(W(mem.cells, w, n) + Sh(carry1, n), n)
         == old(W(mem.cells, w, n)) + l0 + l1 + Sh(old(W(mem.cells, z + 2 * n, n)) + l1, n)
    decreases xn + 2 * n, 0
  {
    hide W, P, Sh, Up, Mul;
    ghost var c0 := mem.cells;
    KaratsubaStart(mem, z, 2 * n, x, n, y, n, w + n, wn - n);
    ghost var c1 := mem.cells;
    l0, l1 := W(c1, z, n), W(c1, z + n, n);
    WSplit(c1, z, n, n);
    assert W(c1, w, n) == W(c0, w, n) && W(c1, z + 2 * n, n) == W(c0, z + 2 * n, n);
    carry1, carry2 := FoldLow(mem, z, n, w);
    Keeps2Intro(c0, mem.cells, z, 3 * n, w, wn);
  }

  /** x1*y1 at z+2n, folded with the rest */
  method HighPart(mem: Memory, z: nat, zn: nat, x: nat, xn: nat, y: nat, n: nat, w: nat, wn: nat,
                  carry1: nat, carry2: nat, borrow: nat) returns (ghost t: int)
    requires Args(|mem.cells|, z, zn, x, xn, y, 2 * n, w, wn) && 0 < n < xn <= 2 * n && n <= wn
    requires carry1 <= 1 && carry2 <= 1 && borrow <= 1
    modifies mem
    ensures Keeps2(old(mem.cells), mem.cells, z, zn, w, wn)
    ensures W(mem.cells, z, zn) + Sh(t, zn)
         == var u := Mul(old(W(mem.cells, x + n, xn - n)), old(W(mem.cells, y + n, n)));
            old(W(mem.cells, z, n)) + Sh(old(W(mem.cells, z + n, n)) + u, n)
            + Sh(u + old(W(mem.cells, w, n)) + carry2 + Sh(carry1 - borrow, n), 2 * n)
    decreases xn + 2 * n, 0
  {
    hide W, P, Sh, Up, Mul;
    ghost var c0 := mem.cells;
    KaratsubaStart(mem, z + 2 * n, zn - 2 * n, x + n, xn - n, y + n, n, w + n, wn - n);
    ghost var c1 := mem.cells;
    assert W(c1, w, n) == W(c0, w, n) && W(c1, z, n) == W(c0, z, n) && W(c1, z + n, n) == W(c0, z + n, n);
    ProductBound(W(c0, x + n, xn - n), xn - n, W(c0, y + n, n), n, 2 * n);
    t := FoldHigh(mem, z, zn, n, w, carry1, carry2, borrow);
    Keeps2Intro(c0, mem.cells, z, zn, w, wn);
  }

  /** bary_mul_toom3_start */
  method Toom3Start(mem: Memory, z: nat, zn: nat, x: nat, xn: nat, y: nat, yn: nat, w: nat, wn: nat)
    requires Args(|mem.cells|, z, zn, x, xn, y, yn, w, wn)
    modifies mem
    ensures Product(old(mem.cells), mem.cells, z, zn, x, xn, y, yn, w, wn)
    decreases xn + yn, 7
  {
    hide W, P, Sh, Up, Mul;
    ghost var c0 := mem.cells;
    var done, z', zn', x', xn', y', yn' := Precheck(mem, z, zn, x, xn, y, yn, w, wn);
    if !done {
      ghost var c1 := mem.cells;
      Toom3Branch(mem, z', zn', x', xn', y', yn', w, wn);
      Unprecheck(c1, mem.cells, z, zn, z', zn', w, wn);
    }
    Keeps2Intro(c0, mem.cells, z, zn, w, wn);
  }

  /** bary_mul_toom3_branch */
  method Toom3Branch(mem: Memory, z: nat, zn: nat, x: nat, xn: nat, y: nat, yn: nat, w: nat, wn: nat)
    requires Args(|mem.cells|, z, zn, x, xn, y, yn, w, wn) && 2 <= xn <= yn
    modifies mem
    ensures Product(old(mem.cells), mem.cells, z, zn, x, xn, y, yn, w, wn)
    decreases xn + yn, 6
  {
    if xn < TOOM3_MUL_DIGITS {
      KaratsubaBranch(mem, z, zn, x, xn, y, yn, w, wn);
      return;
    }
    if !Toom3Balanced(xn, yn) {
      Balance(mem, z, zn, x, xn, y, yn, w, wn, true);
      return;
    }
    Toom3(mem, z, zn, x, xn, y, yn, w, wn);
  }

  /** bary_mul_toom3 */
  method Toom3(mem: Memory, z: nat, zn: nat, x: nat, xn: nat, y: nat, yn: nat, w0: nat, wn0: nat)
    requires Args(|mem.cells|, z, zn, x, xn, y, yn, w0, wn0) && 0 < yn && xn <= yn && Toom3Balanced(xn, yn)
    modifies mem
    ensures Product(old(mem.cells), mem.cells, z, zn, x, xn, y, yn, w0, wn0)
    decreases xn + yn, 3
  {
    hide W, P, Sh, Up, Mul;
    ghost var c0 := mem.cells;
    var n := (yn + 2) / 3;
    var wnc := 22 * n + 15;
    var w, wn := w0, wn0;
    if wn < wnc {
      wn := wnc * 3 / 2;
      w := mem.Alloc(wn);
    }
    assert W(mem.cells, x, xn) == W(c0, x, xn) && W(mem.cells, y, yn) == W(c0, y, yn);
    Toom3Work(mem, z, zn, x, xn, y, yn, n, w, wn);
    Keeps2Intro(c0, mem.cells, z, zn, w0, wn0);
  }

  /** bary_mul_toom3 with its work space laid out at w */
  method Toom3Work(mem: Memory, z: nat, zn: nat, x: nat, xn: nat, y: nat, yn: nat, n: nat, w: nat, wn: nat)
    requires Args(|mem.cells|, z, zn, x, xn, y, yn, w, wn) && 0 < n && 2 * n < xn <= yn <= 3 * n && 22 * n + 15 <= wn
    modifies mem
    ensures Product(old(mem.cells), mem.cells, z, zn, x, xn, y, yn, w, wn)
    decreases xn + yn, 2
  {
    hide W, P, Sh, Up, Mul, Keeps, Keeps2, Points, Small, Evaluated, K1, K2, K3, Sg;
    ghost var c0 := mem.cells;
    ghost var x0: int, x1: int, x2: int := W(c0, x, n), W(c0, x + n, n), W(c0, x + 2 * n, xn - 2 * n);
    ghost var y0: int, y1: int, y2: int := W(c0, y, n), W(c0, y + n, n), W(c0, y + 2 * n, yn - 2 * n);
    var t0 := w + 6 * n + 6;
    var t1 := t0 + 2 * n;
    var t2, t3, t4 := t1 + 2 * n + 2, t1 + 4 * n + 4, t1 + 6 * n + 6;
    var z1 := t4 + 2 * n;
    var z2, z3 := z1 + 2 * n + 1, z1 + 4 * n + 2;
    var t2p, t3p := ToomPoints(mem, x, xn, y, yn, n, w, wn, t0, t1, t2, t3, t4);
    ghost var c1 := mem.cells;
    ghost var k0, k4 := Mul(x0, y0), Mul(x2, y2);
    ghost var k1, k2 := K1(x0, x1, x2, y0, y1, y2), K2(x0, x1, x2, y0, y1, y2);
    ghost var k3 := K3(x0, x1, x2, y0, y1, y2);
    KeepsSize(c0, c1, 0, 0, w, wn);
    var z1p, z2p, z3p := InterpolateFirst(mem, n, t0, t1, t2, t2p, t3, t3p, t4, z1, z2, z3, k0, k1, k2, k3, k4);
    ghost var c2 := mem.cells;
    PointsEnds(c1, c2, n, t0, t1, t2, t2p, t3, t3p, t4, z1, 6 * n + 3, k0, k1, k2, k3, k4);
    z1p, z2p, z3p := InterpolateSecond(mem, n, t4, z1, z1p, z2, z2p, z3, z3p, k0, k1, k2, k3, k4);
    ghost var c3 := mem.cells;
    WindowKept(c2, c3, z1, 6 * n + 3, t0, 2 * n);
    WindowKept(c2, c3, z1, 6 * n + 3, t4, 2 * n);
    SmallSigns(n, k0, k1, k2, k3, k4);
    ToomIdentity(x0, x1, x2, y0, y1, y2, n);
    WSplit3(c0, x, n, n, xn - 2 * n);
    WSplit3(c0, y, n, n, yn - 2 * n);
    ghost var v := Mul(W(c0, x, xn), W(c0, y, yn));
    ProductBound(W(c0, x, xn), xn, W(c0, y, yn), yn, zn);
    Recompose(mem, z, zn, w, n, t0, t4, z1, z1p, z2, z2p, z3, z3p, k0, k1, k2, k3, k4, v, xn + yn);
    ToomKeeps(c0, c1, c2, c3, mem.cells, z, zn, w, wn, z1, n);
  }

  lemma PointsEnds(c: seq<Digit>, c': seq<Digit>, n: nat, t0: nat, t1: nat, t2: nat, t2p: bool, t3: nat, t3p: bool,
                   t4: nat, p: nat, m: nat,
                   k0: int, k1: int, k2: int, k3: int, k4: int)
    requires Keeps(c, c', p, m) && p + m <= |c| == |c'|
    requires t0 + 2 * n <= p && t1 + 2 * n + 1 <= p && t2 + 2 * n + 1 <= p && t3 + 2 * n + 1 <= p && t4 + 2 * n <= p
    requires Points(c, n, t0, t1, t2, t2p, t3, t3p, t4, k0, k1, k2, k3, k4)
    ensures W(c', t0, 2 * n) == k0 && W(c', t4, 2 * n) == k4
  {
  }

  lemma SmallSigns(n: nat, k0: int, k1: int, k2: int, k3: int, k4: int)
    requires Small(n, k0, k1, k2, k3, k4)
    ensures 0 <= k1 && 0 <= k2 && 0 <= k3
  {
  }

  lemma ToomKeeps(c0: seq<Digit>, c1: seq<Digit>, c2: seq<Digit>, c3: seq<Digit>, c4: seq<Digit>, z: nat, zn: nat,
                  w: nat, wn: nat, z1: nat, n: nat)
    requires Keeps2(c0, c1, 0, 0, w, wn) && Keeps(c1, c2, z1, 6 * n + 3) && Keeps(c2, c3, z1, 6 * n + 3)
    requires Keeps2(c3, c4, z, zn, w, 6 * n + 1)
    requires w <= z1 && z1 + 6 * n + 3 <= w + wn && 6 * n + 1 <= wn
    ensures Keeps2(c0, c4, z, zn, w, wn)
  {
    Keeps2Intro(c0, c4, z, zn, w, wn);
  }

  /** Step 1 of bary_mul_toom3: both operands evaluated (once, when squaring), and the five
      products */
  method ToomPoints(mem: Memory, x: nat, xn: nat, y: nat, yn: nat, n: nat, w: nat, wn: nat, t0: nat, t1: nat, t2: nat,
                    t3: nat, t4: nat)
    returns (t2p: bool, t3p: bool)
    requires x + xn <= |mem.cells| && y + yn <= |mem.cells| && w + wn <= |mem.cells| && Apart(w, wn, x, xn)
    requires Apart(w, wn, y, yn)
    requires 0 < n && 2 * n < xn <= yn <= 3 * n && 22 * n + 15 <= wn
    requires t0 == w + 6 * n + 6 && t1 == t0 + 2 * n && t2 == t1 + 2 * n + 2 && t3 == t2 + 2 * n + 2
    requires t4 == t3 + 2 * n + 2
    modifies mem
    ensures |old(mem.cells)| <= |mem.cells| && Keeps2(old(mem.cells), mem.cells, 0, 0, w, wn)
    ensures var x0: int, x1: int := old(W(mem.cells, x, n)), old(W(mem.cells, x + n, n));
            var x2: int := old(W(mem.cells, x + 2 * n, xn - 2 * n));
            var y0: int, y1: int := old(W(mem.cells, y, n)), old(W(mem.cells, y + n, n));
            var y2: int := old(W(mem.cells, y + 2 * n, yn - 2 * n));
            var k0, k4 := Mul(x0, y0), Mul(x2, y2);
            var k1, k2 := K1(x0, x1, x2, y0, y1, y2), K2(x0, x1, x2, y0, y1, y2);
            var k3 := K3(x0, x1, x2, y0, y1, y2);
            Points(mem.cells, n, t0, t1, t2, t2p, t3, t3p, t4, k0, k1, k2, k3, k4) && Small(n, k0, k1, k2, k3, k4)
    decreases xn + yn, 1
  {
    hide W, P, Sh, Up, Mul, Keeps, Keeps2, Points, Small, Evaluated, K1, K2, K3, Sg, At1, AtM1, AtM2;
    ghost var c0 := mem.cells;
    ghost var x0: int, x1: int, x2: int := W(c0, x, n), W(c0, x + n, n), W(c0, x + 2 * n, xn - 2 * n);
    ghost var y0: int, y1: int, y2: int := W(c0, y, n), W(c0, y + n, n), W(c0, y + 2 * n, yn - 2 * n);
    var v1, u2p, u3p, v2p, v3p := EvaluateBoth(mem, x, xn, y, yn, n, w);
    var u1, u2, u3, v2, v3 := w, w + n + 1, w + 2 * n + 2, v1 + n + 1, v1 + 2 * n + 2;
    ghost var c2 := mem.cells;
    Products(mem, x, xn, y, yn, n, u1, u2, u3, v1, v2, v3, t0, t1, t2, t3, t4, w, w + 22 * n + 15, wn - (22 * n + 15));
    EvaluatedKept2(c2, mem.cells, t0, 10 * n + 6, w + 22 * n + 15, wn - (22 * n + 15),
                   u1, u2, u2p, u3, u3p, n, x0, x1, x2);
    EvaluatedKept2(c2, mem.cells, t0, 10 * n + 6, w + 22 * n + 15, wn - (22 * n + 15),
                   v1, v2, v2p, v3, v3p, n, y0, y1, y2);
    PMono(xn - 2 * n, n);
    PMono(yn - 2 * n, n);
    PointsFromProducts(mem.cells, n, u1, u2, u2p, u3, u3p, v1, v2, v2p, v3, v3p, t0, t1, t2, t3, t4,
                       x0, x1, x2, y0, y1, y2);
    t2p, t3p := u2p == v2p, u3p == v3p;
    PointsKeep(c0, c2, mem.cells, n, t0, w, wn);
  }

  lemma EvaluatedKept(c: seq<Digit>, c': seq<Digit>, z: nat, zn: nat, u1: nat, u2: nat, p2: bool, u3: nat, p3: bool,
                      n: nat, x0: int, x1: int, x2: int)
    requires Keeps(c, c', z, zn) && u1 + n + 1 <= |c| && u2 + n + 1 <= |c| && u3 + n + 1 <= |c|
    requires Apart(z, zn, u1, n + 1) && Apart(z, zn, u2, n + 1) && Apart(z, zn, u3, n + 1)
    requires Evaluated(c, u1, u2, p2, u3, p3, n, x0, x1, x2)
    ensures |c| <= |c'| && Evaluated(c', u1, u2, p2, u3, p3, n, x0, x1, x2)
  {
  }

  lemma EvaluatedKept2(c: seq<Digit>, c': seq<Digit>, z: nat, zn: nat, w: nat, wn: nat,
                       u1: nat, u2: nat, p2: bool, u3: nat, p3: bool, n: nat, x0: int, x1: int, x2: int)
    requires Keeps2(c, c', z, zn, w, wn) && u1 + n + 1 <= |c| && u2 + n + 1 <= |c| && u3 + n + 1 <= |c|
    requires Apart(z, zn, u1, n + 1) && Apart(z, zn, u2, n + 1) && Apart(z, zn, u3, n + 1)
    requires Apart(w, wn, u1, n + 1) && Apart(w, wn, u2, n + 1) && Apart(w, wn, u3, n + 1)
    requires Evaluated(c, u1, u2, p2, u3, p3, n, x0, x1, x2)
    ensures |c| <= |c'| && Evaluated(c', u1, u2, p2, u3, p3, n, x0, x1, x2)
  {
  }

  lemma PointsKeep(c0: seq<Digit>, c1: seq<Digit>, c2: seq<Digit>, n: nat, t0: nat, w: nat, wn: nat)
    requires |c0| == |c1| && Keeps(c0, c1, w, 6 * n + 6) && t0 == w + 6 * n + 6
    requires 22 * n + 15 <= wn && Keeps2(c1, c2, t0, 10 * n + 6, w + 22 * n + 15, wn - (22 * n + 15))
    ensures Keeps2(c0, c2, 0, 0, w, wn)
  {
    Keeps2Intro(c0, c2, 0, 0, w, wn);
  }

  /** Both operands evaluated; when squaring, the values of x serve for y too. */
  method EvaluateBoth(mem: Memory, x: nat, xn: nat, y: nat, yn: nat, n: nat, w: nat)
    returns (v1: nat, u2p: bool, u3p: bool, v2p: bool, v3p: bool)
    requires x + xn <= |mem.cells| && y + yn <= |mem.cells| && w + 6 * n + 6 <= |mem.cells|
    requires Apart(w, 6 * n + 6, x, xn) && Apart(w, 6 * n + 6, y, yn) && 2 * n < xn <= yn <= 3 * n
    modifies mem
    ensures |mem.cells| == |old(mem.cells)| && Keeps(old(mem.cells), mem.cells, w, 6 * n + 6)
    ensures v1 == w || v1 == w + 3 * n + 3
    ensures W(mem.cells, x, n) == old(W(mem.cells, x, n)) && W(mem.cells, y, n) == old(W(mem.cells, y, n))
    ensures W(mem.cells, x + 2 * n, xn - 2 * n) == old(W(mem.cells, x + 2 * n, xn - 2 * n))
    ensures W(mem.cells, y + 2 * n, yn - 2 * n) == old(W(mem.cells, y + 2 * n, yn - 2 * n))
    ensures Evaluated(mem.cells, w, w + n + 1, u2p, w + 2 * n + 2, u3p, n,
                      old(W(mem.cells, x, n)), old(W(mem.cells, x + n, n)), old(W(mem.cells, x + 2 * n, xn - 2 * n)))
    ensures Evaluated(mem.cells, v1, v1 + n + 1, v2p, v1 + 2 * n + 2, v3p, n,
                      old(W(mem.cells, y, n)), old(W(mem.cells, y + n, n)), old(W(mem.cells, y + 2 * n, yn - 2 * n)))
  {
    hide W, P, Sh, Up, Keeps, Evaluated;
    ghost var c0 := mem.cells;
    u2p, u3p := Evaluate(mem, w, w + n + 1, w + 2 * n + 2, x, xn, n);
    v1, v2p, v3p := w, u2p, u3p;
    ghost var c1 := mem.cells;
    PartsKept(c0, c1, w, 3 * n + 3, x, xn, n);
    PartsKept(c0, c1, w, 3 * n + 3, y, yn, n);
    if !(x == y && xn == yn) {
      v1 := w + 3 * n + 3;
      v2p, v3p := Evaluate(mem, v1, v1 + n + 1, v1 + 2 * n + 2, y, yn, n);
      EvaluatedKept(c1, mem.cells, v1, 3 * n + 3, w, w + n + 1, u2p, w + 2 * n + 2, u3p, n,
                    W(c0, x, n), W(c0, x + n, n), W(c0, x + 2 * n, xn - 2 * n));
      PartsKept(c1, mem.cells, v1, 3 * n + 3, x, xn, n);
      PartsKept(c1, mem.cells, v1, 3 * n + 3, y, yn, n);
    }
    KeepsBoth(c0, c1, mem.cells, w, v1, n, x == y && xn == yn);
  }

  lemma KeepsBoth(c0: seq<Digit>, c1: seq<Digit>, c2: seq<Digit>, w: nat, v: nat, n: nat, sq: bool)
    requires |c0| == |c1| == |c2| && Keeps(c0, c1, w, 3 * n + 3)
    requires if sq then c1 == c2 else v == w + 3 * n + 3 && Keeps(c1, c2, v, 3 * n + 3)
    ensures Keeps(c0, c2, w, 6 * n + 6)
  {
    KeepsIntro(c0, c2, w, 6 * n + 6);
  }

  /** One of the five multiplications of bary_mul_toom3: the product goes to t, above the
      products already made from lo on. */
  method PointProduct(mem: Memory, t: nat, tn: nat, a: nat, an: nat, b: nat, bn: nat, sc: nat, scn: nat,
                      ghost c0: seq<Digit>, ghost lo: nat)
    requires lo <= t && t + tn <= sc && sc + scn <= |c0| && an + bn <= tn && a + an <= |c0| && b + bn <= |c0|
    requires Apart(lo, t + tn - lo, a, an) && Apart(lo, t + tn - lo, b, bn) && Apart(sc, scn, a, an)
    requires Apart(sc, scn, b, bn)
    requires Keeps2(c0, mem.cells, lo, t - lo, sc, scn)
    modifies mem
    ensures Keeps2(old(mem.cells), mem.cells, t, tn, sc, scn)
    ensures |c0| <= |mem.cells| && Keeps2(c0, mem.cells, lo, t + tn - lo, sc, scn)
    ensures W(mem.cells, t, tn) == Mul(W(c0, a, an), W(c0, b, bn))
    decreases an + bn, 8
  {
    hide W, P, Sh, Up, Mul, Keeps2;
    ghost var c1 := mem.cells;
    WindowKept2(c0, c1, lo, t - lo, sc, scn, a, an);
    WindowKept2(c0, c1, lo, t - lo, sc, scn, b, bn);
    Toom3Start(mem, t, tn, a, an, b, bn, sc, scn);
    KeepsGrow(c0, c1, lo, t - lo, t + tn - lo, sc, scn);
    KeepsTrans(c0, c1, mem.cells, lo, t + tn - lo, sc, scn, t, tn, sc, scn);
    KeepsSize(c1, mem.cells, t, tn, sc, scn);
  }

  /** The five multiplications: at 0, 1, -1, -2 and infinity */
  method Products(mem: Memory, x: nat, xn: nat, y: nat, yn: nat, n: nat, u1: nat, u2: nat, u3: nat, v1: nat, v2: nat,
                  v3: nat,
                  t0: nat, t1: nat, t2: nat, t3: nat, t4: nat, w: nat, sc: nat, scn: nat)
    requires x + xn <= |mem.cells| && y + yn <= |mem.cells| && sc + scn <= |mem.cells| && 0 < n
    requires 2 * n < xn <= yn <= 3 * n
    requires w <= sc && Apart(w, sc + scn - w, x, xn) && Apart(w, sc + scn - w, y, yn)
    requires w <= u1 && u1 + n + 1 == u2 && u2 + n + 1 == u3 && u3 + n + 1 <= t0
    requires w <= v1 && v1 + n + 1 == v2 && v2 + n + 1 == v3 && v3 + n + 1 <= t0
    requires t1 == t0 + 2 * n && t2 == t1 + 2 * n + 2 && t3 == t2 + 2 * n + 2 && t4 == t3 + 2 * n + 2
    requires t4 + 2 * n <= sc
    modifies mem
    ensures |old(mem.cells)| <= |mem.cells| && Keeps2(old(mem.cells), mem.cells, t0, 10 * n + 6, sc, scn)
    ensures W(mem.cells, t0, 2 * n) == Mul(old(W(mem.cells, x, n)), old(W(mem.cells, y, n)))
    ensures W(mem.cells, t1, 2 * n + 2) == Mul(W(mem.cells, u1, n + 1), W(mem.cells, v1, n + 1))
    ensures W(mem.cells, t2, 2 * n + 2) == Mul(W(mem.cells, u2, n + 1), W(mem.cells, v2, n + 1))
    ensures W(mem.cells, t3, 2 * n + 2) == Mul(W(mem.cells, u3, n + 1), W(mem.cells, v3, n + 1))
    ensures W(mem.cells, t4, 2 * n)
         == Mul(old(W(mem.cells, x + 2 * n, xn - 2 * n)), old(W(mem.cells, y + 2 * n, yn - 2 * n)))
    decreases xn + yn, 0
  {
    hide W, P, Sh, Up, Mul, Keeps2;
    ghost var c0 := mem.cells;
    Keeps2Intro(c0, c0, t0, 0, sc, scn);
    PointProduct(mem, t0, 2 * n, x, n, y, n, sc, scn, c0, t0);
    ghost var c1 := mem.cells;
    MiddleProducts(mem, n, u1, u2, u3, v1, v2, v3, t0, t1, t2, t3, sc, scn, c0);
    ghost var c2 := mem.cells;
    WindowKept2(c1, c2, t1, 6 * n + 6, sc, scn, t0, 2 * n);
    PointProduct(mem, t4, 2 * n, x + 2 * n, xn - 2 * n, y + 2 * n, yn - 2 * n, sc, scn, c0, t0);
    WindowKept2(c2, mem.cells, t4, 2 * n, sc, scn, t0, 2 * n);
    WindowKept2(c2, mem.cells, t4, 2 * n, sc, scn, t1, 2 * n + 2);
    WindowKept2(c2, mem.cells, t4, 2 * n, sc, scn, t2, 2 * n + 2);
    WindowKept2(c2, mem.cells, t4, 2 * n, sc, scn, t3, 2 * n + 2);
    OperandsKept5(c0, mem.cells, t0, 10 * n + 6, sc, scn, u1, v1, n);
  }

  /** The multiplications at 1, -1 and -2 */
  method MiddleProducts(mem: Memory, n: nat, u1: nat, u2: nat, u3: nat, v1: nat, v2: nat, v3: nat,
                        t0: nat, t1: nat, t2: nat, t3: nat, sc: nat, scn: nat, ghost c0: seq<Digit>)
    requires sc + scn <= |c0| && 0 < n
    requires u1 + n + 1 == u2 && u2 + n + 1 == u3 && u3 + n + 1 <= t0 && v1 + n + 1 == v2 && v2 + n + 1 == v3
    requires v3 + n + 1 <= t0
    requires t1 == t0 + 2 * n && t2 == t1 + 2 * n + 2 && t3 == t2 + 2 * n + 2 && t3 + 2 * n + 2 <= sc
    requires Keeps2(c0, mem.cells, t0, 2 * n, sc, scn)
    modifies mem
    ensures Keeps2(old(mem.cells), mem.cells, t1, 6 * n + 6, sc, scn)
    ensures |c0| <= |mem.cells| && Keeps2(c0, mem.cells, t0, 8 * n + 6, sc, scn)
    ensures W(mem.cells, t1, 2 * n + 2) == Mul(W(c0, u1, n + 1), W(c0, v1, n + 1))
    ensures W(mem.cells, t2, 2 * n + 2) == Mul(W(c0, u2, n + 1), W(c0, v2, n + 1))
    ensures W(mem.cells, t3, 2 * n + 2) == Mul(W(c0, u3, n + 1), W(c0, v3, n + 1))
    decreases 2 * n + 2, 9
  {
    hide W, P, Sh, Up, Mul, Keeps2;
    ghost var c1 := mem.cells;
    PointProduct(mem, t1, 2 * n + 2, u1, n + 1, v1, n + 1, sc, scn, c0, t0);
    ghost var c2 := mem.cells;
    PointProduct(mem, t2, 2 * n + 2, u2, n + 1, v2, n + 1, sc, scn, c0, t0);
    ghost var c3 := mem.cells;
    WindowKept2(c2, c3, t2, 2 * n + 2, sc, scn, t1, 2 * n + 2);
    PointProduct(mem, t3, 2 * n + 2, u3, n + 1, v3, n + 1, sc, scn, c0, t0);
    WindowKept2(c3, mem.cells, t3, 2 * n + 2, sc, scn, t1, 2 * n + 2);
    WindowKept2(c3, mem.cells, t3, 2 * n + 2, sc, scn, t2, 2 * n + 2);
    KeepsMiddle(c1, c2, c3, mem.cells, t1, t2, t3, n, sc, scn);
  }

  lemma KeepsMiddle(c1: seq<Digit>, c2: seq<Digit>, c3: seq<Digit>, c4: seq<Digit>, t1: nat, t2: nat, t3: nat, n: nat,
                    sc: nat, scn: nat)
    requires Keeps2(c1, c2, t1, 2 * n + 2, sc, scn) && Keeps2(c2, c3, t2, 2 * n + 2, sc, scn)
    requires Keeps2(c3, c4, t3, 2 * n + 2, sc, scn)
    requires t2 == t1 + 2 * n + 2 && t3 == t2 + 2 * n + 2
    ensures Keeps2(c1, c4, t1, 6 * n + 6, sc, scn)
  {
    Keeps2Intro(c1, c4, t1, 6 * n + 6, sc, scn);
  }

  lemma OperandsKept5(c: seq<Digit>, c': seq<Digit>, z: nat, zn: nat, w: nat, wn: nat, u: nat, v: nat, n: nat)
    requires Keeps2(c, c', z, zn, w, wn) && z <= w && w <= |c| && u + 3 * n + 3 <= z && v + 3 * n + 3 <= z
    ensures |c| <= |c'| && W(c', u, n + 1) == W(c, u, n + 1) && W(c', u + n + 1, n + 1) == W(c, u + n + 1, n + 1)
    ensures W(c', u + 2 * n + 2, n + 1) == W(c, u + 2 * n + 2, n + 1) && W(c', v, n + 1) == W(c, v, n + 1)
    ensures W(c', v + n + 1, n + 1) == W(c, v + n + 1, n + 1)
    ensures W(c', v + 2 * n + 2, n + 1) == W(c, v + 2 * n + 2, n + 1)
  {
  }

  /** bary_mul: any two operands, any lengths */
  method BaryMul(mem: Memory, z: nat, zn: nat, x: nat, xn: nat, y: nat, yn: nat)
    requires z + zn <= |mem.cells| && x + xn <= |mem.cells| && y + yn <= |mem.cells|
    requires xn + yn <= zn && Apart(z, zn, x, xn) && Apart(z, zn, y, yn)
    modifies mem
    ensures Keeps(old(mem.cells), mem.cells, z, zn)
    ensures W(mem.cells, z, zn) == old(W(mem.cells, x, xn) * W(mem.cells, y, yn))
  {
    hide W, P, Sh, Up, Mul;
    ghost var c0 := mem.cells;
    MulIs(W(c0, x, xn), W(c0, y, yn));
    if xn <= yn {
      if xn < KARATSUBA_MUL_DIGITS {
        NormalMul(mem, z, zn, x, xn, y, yn, 0, 0);
      } else {
        Toom3Start(mem, z, zn, x, xn, y, yn, 0, 0);
      }
    } else if yn < KARATSUBA_MUL_DIGITS {
      MulComm(W(c0, x, xn), W(c0, y, yn));
      ShortMul(mem, z, zn, y, yn, x, xn);
    } else {
      Toom3Start(mem, z, zn, x, xn, y, yn, 0, 0);
    }
    KeepsIntro(c0, mem.cells, z, zn);
  }
}
