/** The digit-buffer primitives of bignum.c. */
module Bary {
  import opened Arith
  import opened BDigits

  /** Memory c' differs from c at most in the window [z, z+i), which a loop has written. */
  ghost predicate Untouched(c: seq<Digit>, c': seq<Digit>, z: nat, i: nat) {
    && |c'| == |c|
    && (forall k {:trigger c'[k]} {:trigger c[k]} :: 0 <= k < |c| && !(z <= k < z + i) ==> c'[k] == c[k])
  }

  /** A loop that goes up through z may read the n digits at x as it goes:
      none of them is overwritten before it is read. */
  predicate ReadsAhead(z: nat, x: nat, n: nat) {
    z <= x || x + n <= z
  }

  /** One step of every carry loop: digit i of the window at z receives the low digit of
      the running sum, and what is passed on makes up for the rest. */
  lemma CarryStep(c: seq<Digit>, z: nat, i: nat, num: int, add: int, dn: int, lo: Digit, total: int)
    requires z + i < |c|
    requires num + add == Up(dn) + lo
    requires W(c, z, i) + Sh(num, i) == total
    ensures W(c[z + i := lo], z, i + 1) + Sh(dn, i + 1) == total + Sh(add, i)
  {
    WWrite(c, z, i, lo);
    CarryAlgebra(lo, dn, B, P(i), num, add);
  }

  lemma CarryAlgebra(lo: int, dn: int, b: int, r: int, num: int, add: int)
    requires num + add == dn * b + lo
    ensures lo * r + dn * (b * r) == num * r + add * r
  {
    assert (lo + dn * b) * r == lo * r + dn * (b * r) by {
      Distrib(lo, dn * b, r);
      assert dn * b * r == dn * (b * r);
    }
    Distrib(num, add, r);
  }

  /** Writing digit i of a window. */
  lemma WWrite(c: seq<Digit>, z: nat, i: nat, d: Digit)
    requires z + i < |c|
    ensures W(c[z + i := d], z, i) == W(c, z, i)
    ensures W(c[z + i := d], z, i + 1) == W(c, z, i) + Sh(d, i)
  {
    WCopy(c[z + i := d], z, c, z, i);
  }

  /** The first loop of bary_addc: the digits that both operands have */
  method AddLow(mem: Memory, z: nat, x: nat, y: nat, n: nat, carry: nat) returns (num: nat)
    requires z + n <= |mem.cells| && x + n <= |mem.cells| && y + n <= |mem.cells| && carry <= 1
    requires ReadsAhead(z, x, n) && ReadsAhead(z, y, n)
    modifies mem
    ensures Untouched(old(mem.cells), mem.cells, z, n) && num <= 1
    ensures W(mem.cells, z, n) + Sh(num, n) == old(W(mem.cells, x, n) + W(mem.cells, y, n)) + carry
  {
    hide W, P, Sh, Up;
    ghost var c0 := mem.cells;
    num := carry;
    var i := 0;
    WEmpty(c0, z);
    WEmpty(c0, x);
    WEmpty(c0, y);
    ShUnit(0);
    while i < n
      invariant 0 <= i <= n && num <= 1
      invariant Untouched(c0, mem.cells, z, i)
      invariant W(mem.cells, z, i) + Sh(num, i) == W(c0, x, i) + W(c0, y, i) + carry
    {
      var xi: nat, yi: nat := mem.cells[x + i], mem.cells[y + i];
      var dn, lo := Split(num + (xi + yi));
      CarryStep(mem.cells, z, i, num, xi + yi, dn, lo, W(c0, x, i) + W(c0, y, i) + carry);
      ShAdd(xi, yi, i);
      WNext(c0, x, i);
      WNext(c0, y, i);
      mem.cells := mem.cells[z + i := lo];
      num := dn;
      i := i + 1;
    }
  }

  /** bary_addc */
  method Addc(mem: Memory, z: nat, zn: nat, x0: nat, xn0: nat, y0: nat, yn0: nat, carry: nat)
    returns (c: nat)
    requires z + zn <= |mem.cells| && x0 + xn0 <= |mem.cells| && y0 + yn0 <= |mem.cells|
    requires xn0 <= zn && yn0 <= zn && carry <= 1
    requires ReadsAhead(z, x0, xn0) && ReadsAhead(z, y0, yn0)
    modifies mem
    ensures |mem.cells| == |old(mem.cells)| && Keeps(old(mem.cells), mem.cells, z, zn)
    ensures c <= 1
    ensures W(mem.cells, z, zn) + Sh(c, zn) == old(W(mem.cells, x0, xn0) + W(mem.cells, y0, yn0)) + carry
  {
    hide W, P, Sh, Up;
    ghost var c0 := mem.cells;
    var x, xn, y, yn := x0, xn0, y0, yn0;
    if xn > yn {
      x, xn, y, yn := y0, yn0, x0, xn0;
    }
    var num: nat := AddLow(mem, z, x, y, xn, carry);
    var i := xn;
    while i < yn && num != 0
      invariant xn <= i <= yn && num <= 1
      invariant Untouched(c0, mem.cells, z, i)
      invariant W(mem.cells, z, i) + Sh(num, i) == W(c0, x, xn) + W(c0, y, i) + carry
    {
      WNext(c0, y, i);
      var dn, lo := Split(num + mem.cells[y + i]);
      CarryStep(mem.cells, z, i, num, mem.cells[y + i], dn, lo, W(c0, x, xn) + W(c0, y, i) + carry);
      mem.cells := mem.cells[z + i := lo];
      num := dn;
      i := i + 1;
    }
    if i == yn {
      while i < zn && num != 0
        invariant yn <= i <= zn && num <= 1
        invariant Untouched(c0, mem.cells, z, i)
        invariant W(mem.cells, z, i) + Sh(num, i) == W(c0, x, xn) + W(c0, y, yn) + carry
      {
        ShUnit(i);
        var dn, lo := Split(num + 0);
        CarryStep(mem.cells, z, i, num, 0, dn, lo, W(c0, x, xn) + W(c0, y, yn) + carry);
        mem.cells := mem.cells[z + i := lo];
        num := dn;
        i := i + 1;
      }
      if i == zn {
        KeepsIntro(c0, mem.cells, z, zn);
        return num;
      }
    }
    // num_is_zero
    ShUnit(i);
    ShUnit(zn);
    CopyTail(mem, z, zn, y, yn, i, c0);
    return 0;
  }

  /** The num_is_zero exit of bary_addc and bary_subb: the rest of z is the rest of y. */
  method CopyTail(mem: Memory, z: nat, zn: nat, y: nat, yn: nat, i0: nat, ghost c0: seq<Digit>)
    requires z + zn <= |mem.cells| && y + yn <= |mem.cells|
    requires yn <= zn && i0 <= zn && ReadsAhead(z, y, yn)
    requires Untouched(c0, mem.cells, z, i0)
    modifies mem
    ensures |mem.cells| == |c0| && Keeps(c0, mem.cells, z, zn)
    ensures i0 <= yn ==> W(mem.cells, z, zn) == old(W(mem.cells, z, i0)) - W(c0, y, i0) + W(c0, y, yn)
    ensures i0 > yn ==> W(mem.cells, z, zn) == old(W(mem.cells, z, i0))
  {
    hide W, P, Sh, Up;
    if y == z && yn == zn {
      TailSame(c0, mem.cells, z, i0, zn);
      KeepsIntro(c0, mem.cells, z, zn);
      return;
    }
    var i := i0;
    ghost var base := W(mem.cells, z, i0) - (if i0 <= yn then W(c0, y, i0) else 0);
    while i < yn
      invariant i0 <= i && (i0 <= yn ==> i <= yn) && (i0 > yn ==> i == i0)
      invariant Untouched(c0, mem.cells, z, i)
      invariant W(mem.cells, z, i) == base + (if i <= yn then W(c0, y, i) else 0)
    {
      WNext(c0, y, i);
      WWrite(mem.cells, z, i, mem.cells[y + i]);
      mem.cells := mem.cells[z + i := mem.cells[y + i]];
      i := i + 1;
    }
    while i < zn
      invariant i <= zn
      invariant Untouched(c0, mem.cells, z, i)
      invariant W(mem.cells, z, i) == base + (if i0 <= yn then W(c0, y, yn) else 0)
    {
      WWrite(mem.cells, z, i, 0);
      ShUnit(i);
      mem.cells := mem.cells[z + i := 0];
      i := i + 1;
    }
    KeepsIntro(c0, mem.cells, z, zn);
  }

  /** bary_subb */
  method Subb(mem: Memory, z: nat, zn: nat, x: nat, xn: nat, y: nat, yn: nat, borrow: nat)
    returns (c: nat)
    requires z + zn <= |mem.cells| && x + xn <= |mem.cells| && y + yn <= |mem.cells|
    requires xn <= zn && yn <= zn && borrow <= 1
    requires ReadsAhead(z, x, xn) && ReadsAhead(z, y, yn)
    modifies mem
    ensures |mem.cells| == |old(mem.cells)| && Keeps(old(mem.cells), mem.cells, z, zn)
    ensures c <= 1
    ensures W(mem.cells, z, zn) - Sh(c, zn) == old(W(mem.cells, x, xn) - W(mem.cells, y, yn)) - borrow
  {
    hide W, P, Sh, Up;
    ghost var c0 := mem.cells;
    var sn := if xn < yn then xn else yn;
    var num: int := 0 - borrow;
    var i := 0;
    WEmpty(c0, z);
    WEmpty(c0, x);
    WEmpty(c0, y);
    ShUnit(0);
    while i < sn
      invariant 0 <= i <= sn && -1 <= num <= 0
      invariant Untouched(c0, mem.cells, z, i)
      invariant W(mem.cells, z, i) + Sh(num, i) == W(c0, x, i) - W(c0, y, i) - borrow
    {
      var xi: int, yi: int := mem.cells[x + i], mem.cells[y + i];
      var dn, lo := Split(num + (xi - yi));
      CarryStep(mem.cells, z, i, num, xi - yi, dn, lo, W(c0, x, i) - W(c0, y, i) - borrow);
      ShAdd(xi, yi, i);
      WNext(c0, x, i);
      WNext(c0, y, i);
      mem.cells := mem.cells[z + i := lo];
      num := dn;
      i := i + 1;
    }
    if yn <= xn {
      while i < xn && num != 0
        invariant yn <= i <= xn && -1 <= num <= 0
        invariant Untouched(c0, mem.cells, z, i)
        invariant W(mem.cells, z, i) + Sh(num, i) == W(c0, x, i) - W(c0, y, yn) - borrow
      {
        WNext(c0, x, i);
        var dn, lo := Split(num + mem.cells[x + i]);
        CarryStep(mem.cells, z, i, num, mem.cells[x + i], dn, lo, W(c0, x, i) - W(c0, y, yn) - borrow);
        mem.cells := mem.cells[z + i := lo];
        num := dn;
        i := i + 1;
      }
    } else {
      i, num := SubTail(mem, z, y, yn, i, num, c0);
    }
    ShUnit(i);
    ShUnit(zn);
    if num == 0 {
      CopyTail(mem, z, zn, x, xn, i, c0);
      return 0;
    }
    FillMax(mem, z, zn, i, c0);
    return 1;
  }

  /** bary_subb when y is longer: subtract the rest of y from nothing. */
  method SubTail(mem: Memory, z: nat, y: nat, yn: nat, i0: nat, num0: int, ghost c0: seq<Digit>)
    returns (i: nat, num: int)
    requires z + yn <= |mem.cells| && y + yn <= |mem.cells| && ReadsAhead(z, y, yn)
    requires i0 <= yn && -1 <= num0 <= 0 && Untouched(c0, mem.cells, z, i0)
    modifies mem
    ensures i == yn && -1 <= num <= 0 && Untouched(c0, mem.cells, z, yn)
    ensures W(mem.cells, z, yn) + Sh(num, yn) + W(c0, y, yn)
         == old(W(mem.cells, z, i0)) + Sh(num0, i0) + W(c0, y, i0)
  {
    hide W, P, Sh, Up;
    i, num := i0, num0;
    ghost var total := W(mem.cells, z, i) + Sh(num, i) + W(c0, y, i);
    while i < yn
      invariant i0 <= i <= yn && -1 <= num <= 0
      invariant Untouched(c0, mem.cells, z, i)
      invariant W(mem.cells, z, i) + Sh(num, i) == total - W(c0, y, i)
    {
      WNext(c0, y, i);
      var yi: int := mem.cells[y + i];
      ShUnit(i);
      ShAdd(0, yi, i);
      var dn, lo := Split(num + (0 - yi));
      CarryStep(mem.cells, z, i, num, 0 - yi, dn, lo, total - W(c0, y, i));
      mem.cells := mem.cells[z + i := lo];
      num := dn;
      i := i + 1;
    }
  }

  /** The borrow runs through the rest of z: every further digit is BDIGMAX. */
  method FillMax(mem: Memory, z: nat, zn: nat, i0: nat, ghost c0: seq<Digit>)
    requires z + zn <= |mem.cells| && i0 <= zn && Untouched(c0, mem.cells, z, i0)
    modifies mem
    ensures |mem.cells| == |c0| && Keeps(c0, mem.cells, z, zn)
    ensures W(mem.cells, z, zn) - P(zn) == old(W(mem.cells, z, i0)) - P(i0)
  {
    hide W, P, Sh, Up;
    ghost var total := W(mem.cells, z, i0) - P(i0);
    ShUnit(i0);
    var i := i0;
    while i < zn
      invariant i0 <= i <= zn
      invariant Untouched(c0, mem.cells, z, i)
      invariant W(mem.cells, z, i) + Sh(-1, i) == total
    {
      UpUnit();
      CarryStep(mem.cells, z, i, -1, 0, -1, B - 1, total);
      ShUnit(i);
      mem.cells := mem.cells[z + i := B - 1];
      i := i + 1;
    }
    ShUnit(zn);
    KeepsIntro(c0, mem.cells, z, zn);
  }

  lemma UpUnit()
    ensures Up(-1) == 0 - B && Up(0) == 0 && Up(1) == B
  {
  }

  lemma {:induction false} TailSame(c0: seq<Digit>, c: seq<Digit>, z: nat, i: nat, zn: nat)
    requires z + zn <= |c| && i <= zn && Untouched(c0, c, z, i)
    ensures W(c, z, zn) == W(c, z, i) - W(c0, z, i) + W(c0, z, zn)
  {
    if i < zn {
      TailSame(c0, c, z, i, zn - 1);
    }
  }

  /** bary_add */
  method Add(mem: Memory, z: nat, zn: nat, x: nat, xn: nat, y: nat, yn: nat) returns (c: nat)
    requires z + zn <= |mem.cells| && x + xn <= |mem.cells| && y + yn <= |mem.cells|
    requires xn <= zn && yn <= zn
    requires ReadsAhead(z, x, xn) && ReadsAhead(z, y, yn)
    modifies mem
    ensures |mem.cells| == |old(mem.cells)| && Keeps(old(mem.cells), mem.cells, z, zn)
    ensures c <= 1
    ensures W(mem.cells, z, zn) + Sh(c, zn) == old(W(mem.cells, x, xn) + W(mem.cells, y, yn))
  {
    c := Addc(mem, z, zn, x, xn, y, yn, 0);
  }

  /** bary_sub */
  method Sub(mem: Memory, z: nat, zn: nat, x: nat, xn: nat, y: nat, yn: nat) returns (c: nat)
    requires z + zn <= |mem.cells| && x + xn <= |mem.cells| && y + yn <= |mem.cells|
    requires xn <= zn && yn <= zn
    requires ReadsAhead(z, x, xn) && ReadsAhead(z, y, yn)
    modifies mem
    ensures |mem.cells| == |old(mem.cells)| && Keeps(old(mem.cells), mem.cells, z, zn)
    ensures c <= 1
    ensures W(mem.cells, z, zn) - Sh(c, zn) == old(W(mem.cells, x, xn) - W(mem.cells, y, yn))
  {
    c := Subb(mem, z, zn, x, xn, y, yn, 0);
  }

  /** bary_sub_one */
  method SubOne(mem: Memory, z: nat, zn: nat) returns (c: nat)
    requires z + zn <= |mem.cells|
    modifies mem
    ensures |mem.cells| == |old(mem.cells)| && Keeps(old(mem.cells), mem.cells, z, zn)
    ensures c <= 1
    ensures W(mem.cells, z, zn) - Sh(c, zn) == old(W(mem.cells, z, zn)) - 1
  {
    c := Subb(mem, z, zn, z, zn, 0, 0, 1);
  }

  /** bary_add_one */
  method AddOne(mem: Memory, z: nat, n: nat) returns (c: nat)
    requires z + n <= |mem.cells|
    modifies mem
    ensures |mem.cells| == |old(mem.cells)| && Keeps(old(mem.cells), mem.cells, z, n)
    ensures c <= 1
    ensures W(mem.cells, z, n) + Sh(c, n) == old(W(mem.cells, z, n)) + 1
  {
    hide W, P, Sh, Up;
    ghost var c0 := mem.cells;
    WEmpty(c0, z);
    ShUnit(0);
    var i := 0;
    while i < n
      invariant 0 <= i <= n
      invariant Untouched(c0, mem.cells, z, i)
      invariant W(mem.cells, z, i) + Sh(1, i) == W(c0, z, i) + 1
    {
      WNext(c0, z, i);
      var d: nat := mem.cells[z + i];
      var dn, lo := Split(1 + d);
      CarryStep(mem.cells, z, i, 1, d, dn, lo, W(c0, z, i) + 1);
      OneMore(d, dn, lo);
      mem.cells := mem.cells[z + i := lo];
      i := i + 1;
      if lo != 0 {
        TailSame(c0, mem.cells, z, i, n);
        KeepsIntro(c0, mem.cells, z, n);
        ShUnit(i);
        ShUnit(n);
        return 0;
      }
    }
    KeepsIntro(c0, mem.cells, z, n);
    return 1;
  }

  lemma OneMore(d: Digit, dn: int, lo: Digit)
    requires 1 + d as int == Up(dn) + lo
    ensures dn == if lo == 0 then 1 else 0
  {
    if dn >= 2 { MulLe(2, dn, B); }
    if dn <= -1 { MulLe(dn, -1, B); }
  }

  /** bary_2comp: the two's complement; the result tells whether all digits were zero. */
  method TwoComp(mem: Memory, z: nat, n: nat) returns (zero: bool)
    requires z + n <= |mem.cells|
    modifies mem
    ensures |mem.cells| == |old(mem.cells)| && Keeps(old(mem.cells), mem.cells, z, n)
    ensures zero == (old(W(mem.cells, z, n)) == 0)
    ensures W(mem.cells, z, n) == (if zero then 0 else P(n) - old(W(mem.cells, z, n)))
  {
    hide W, P, Sh, Up;
    ghost var c0 := mem.cells;
    var i := 0;
    while i < n && mem.cells[z + i] == 0
      invariant 0 <= i <= n && mem.cells == c0
      invariant forall k :: z <= k < z + i ==> c0[k] == 0
    {
      i := i + 1;
    }
    WZero(c0, z, i);
    if i == n {
      KeepsIntro(c0, mem.cells, z, n);
      return true;
    }
    WZero(c0, z, n);
    ShUnit(i);
    Negate(c0, c0, z, i, 0, B - c0[z + i]);
    mem.cells := mem.cells[z + i := B - mem.cells[z + i]];
    i := i + 1;
    while i < n
      invariant 0 <= i <= n
      invariant Untouched(c0, mem.cells, z, i)
      invariant W(mem.cells, z, i) + W(c0, z, i) == P(i)
    {
      ShUnit(i);
      Negate(c0, mem.cells, z, i, 1, B - 1 - c0[z + i]);
      mem.cells := mem.cells[z + i := B - 1 - mem.cells[z + i]];
      i := i + 1;
    }
    KeepsIntro(c0, mem.cells, z, n);
    return false;
  }

  lemma Negate(c0: seq<Digit>, c: seq<Digit>, z: nat, i: nat, k: nat, d: Digit)
    requires |c| == |c0| && z + i < |c|
    requires W(c, z, i) + W(c0, z, i) == Sh(k, i)
    requires d + c0[z + i] + k == B
    ensures W(c[z + i := d], z, i + 1) + W(c0, z, i + 1) == P(i + 1)
  {
    WWrite(c, z, i, d);
    WNext(c0, z, i);
    ShAdd(d, c0[z + i], i);
    ShAdd(d + c0[z + i], k, i);
  }

  /** MEMCPY and MEMMOVE */
  method Copy(mem: Memory, z: nat, x: nat, n: nat)
    requires z + n <= |mem.cells| && x + n <= |mem.cells|
    modifies mem
    ensures |mem.cells| == |old(mem.cells)| && Keeps(old(mem.cells), mem.cells, z, n)
    ensures W(mem.cells, z, n) == old(W(mem.cells, x, n))
    ensures forall k :: z <= k < z + n ==> mem.cells[k] == old(mem.cells[k - z + x])
  {
    mem.cells := mem.cells[..z] + mem.cells[x..x + n] + mem.cells[z + n..];
    KeepsIntro(old(mem.cells), mem.cells, z, n);
    WCopy(mem.cells, z, old(mem.cells), x, n);
  }

  /** BDIGITS_ZERO */
  method Zero(mem: Memory, z: nat, n: nat)
    requires z + n <= |mem.cells|
    modifies mem
    ensures |mem.cells| == |old(mem.cells)| && Keeps(old(mem.cells), mem.cells, z, n)
    ensures W(mem.cells, z, n) == 0
    ensures forall k :: z <= k < z + n ==> mem.cells[k] == 0
  {
    hide W, P, Sh, Up;
    var i := 0;
    while i < n
      invariant 0 <= i <= n
      invariant Untouched(old(mem.cells), mem.cells, z, i)
      invariant forall k :: z <= k < z + i ==> mem.cells[k] == 0
    {
      mem.cells := mem.cells[z + i := 0];
      i := i + 1;
    }
    KeepsIntro(old(mem.cells), mem.cells, z, n);
    WZero(mem.cells, z, n);
  }

  /** BARY_TRUNC: drop leading zero digits. */
  method Trunc(mem: Memory, x: nat, n0: nat) returns (n: nat)
    requires x + n0 <= |mem.cells|
    ensures n <= n0 && W(mem.cells, x, n) == W(mem.cells, x, n0)
    ensures n > 0 ==> mem.cells[x + n - 1] != 0
  {
    hide W, P, Sh, Up;
    n := n0;
    while n > 0 && mem.cells[x + n - 1] == 0
      invariant n <= n0 && W(mem.cells, x, n) == W(mem.cells, x, n0)
    {
      WNext(mem.cells, x, n - 1);
      ShUnit(n - 1);
      n := n - 1;
    }
  }

  /** bary_cmp */
  method Cmp(mem: Memory, x: nat, xn0: nat, y: nat, yn0: nat) returns (r: int)
    requires x + xn0 <= |mem.cells| && y + yn0 <= |mem.cells|
    ensures (r < 0) == (W(mem.cells, x, xn0) < W(mem.cells, y, yn0))
    ensures (r == 0) == (W(mem.cells, x, xn0) == W(mem.cells, y, yn0))
  {
    hide W, P;
    var xn := Trunc(mem, x, xn0);
    var yn := Trunc(mem, y, yn0);
    if xn < yn { ShorterLess(mem.cells, x, xn, y, yn); return -1; }
    if xn > yn { ShorterLess(mem.cells, y, yn, x, xn); return 1; }
    var n: nat := xn;
    while n > 0 && mem.cells[x + n - 1] == mem.cells[y + n - 1]
      invariant n <= xn
      invariant W(mem.cells, x, xn) - W(mem.cells, y, xn) == W(mem.cells, x, n) - W(mem.cells, y, n)
    {
      WNext(mem.cells, x, n - 1);
      WNext(mem.cells, y, n - 1);
      n := n - 1;
    }
    if n == 0 {
      WEmpty(mem.cells, x);
      WEmpty(mem.cells, y);
      return 0;
    }
    if mem.cells[x + n - 1] > mem.cells[y + n - 1] {
      TopDecides(mem.cells, y, x, n - 1);
      return 1;
    }
    TopDecides(mem.cells, x, y, n - 1);
    return -1;
  }

  /** A number with fewer digits, leading zeros aside, is smaller. */
  lemma ShorterLess(c: seq<Digit>, x: nat, xn: nat, y: nat, yn: nat)
    requires x + xn <= |c| && y + yn <= |c| && xn < yn && c[y + yn - 1] != 0
    ensures W(c, x, xn) < W(c, y, yn)
  {
    hide W, P;
    TopLong(c, y, yn);
    PMono(xn, yn - 1);
  }

  lemma TopDecides(c: seq<Digit>, x: nat, y: nat, n: nat)
    requires x + n < |c| && y + n < |c| && c[x + n] < c[y + n]
    ensures W(c, x, n + 1) < W(c, y, n + 1)
  {
    hide W, P;
    WNext(c, x, n);
    WNext(c, y, n);
    ShIs(c[x + n], n);
    ShIs(c[y + n], n);
    TopDigit(W(c, x, n), c[x + n], P(n), c[y + n]);
  }

  /** The first loop of bary_muladd_1xN: the digits of y */
  method MulAddLow(mem: Memory, z: nat, x: Digit, y: nat, yn: nat) returns (n: nat)
    requires z + yn <= |mem.cells| && y + yn <= |mem.cells| && ReadsAhead(z, y, yn)
    modifies mem
    ensures Untouched(old(mem.cells), mem.cells, z, yn) && n < B
    ensures W(mem.cells, z, yn) + Sh(n, yn) == old(W(mem.cells, z, yn)) + Mul(x, old(W(mem.cells, y, yn)))
  {
    hide W, P, Sh, Up, Mul;
    ghost var c0 := mem.cells;
    WEmpty(c0, z);
    WEmpty(c0, y);
    ShUnit(0);
    MulIs(x, 0);
    n := 0;
    var j := 0;
    while j < yn
      invariant 0 <= j <= yn && n < B
      invariant Untouched(c0, mem.cells, z, j)
      invariant W(mem.cells, z, j) + Sh(n, j) == W(c0, z, j) + Mul(x, W(c0, y, j))
    {
      var zj: nat, yj: nat := mem.cells[z + j], mem.cells[y + j];
      MulIs(x, yj);
      ProductFits(n, x, yj, zj);
      var p := Mul(x, yj);
      var ee := n + p;
      var dn, lo := Split(n + (zj + p));
      CarryStep(mem.cells, z, j, n, zj + p, dn, lo, W(c0, z, j) + Mul(x, W(c0, y, j)));
      MulAddDigit(c0, z, y, j, x);
      if ee != 0 {
        mem.cells := mem.cells[z + j := lo];
        n := dn;
      } else {
        SplitSmall(zj, dn, lo);
        assert mem.cells[z + j := lo] == mem.cells;
        n := 0;
      }
      j := j + 1;
    }
  }

  /** The second loop: what is left over goes on upwards. */
  method CarryUp(mem: Memory, z: nat, zn: nat, j0: nat, n0: nat) returns (c: nat)
    requires z + zn <= |mem.cells| && j0 < zn && n0 < B
    modifies mem
    ensures |mem.cells| == |old(mem.cells)| && c <= 1
    ensures forall k :: 0 <= k < |mem.cells| && !(z + j0 <= k < z + zn) ==> mem.cells[k] == old(mem.cells)[k]
    ensures W(mem.cells, z, zn) + Sh(c, zn) == old(W(mem.cells, z, zn)) + Sh(n0, j0)
  {
    hide W, P, Sh, Up;
    ghost var c0 := mem.cells;
    var n: nat := n0;
    var j := j0;
    while j < zn && n != 0
      invariant j0 <= j <= zn && n < B && (j > j0 ==> n <= 1) && |mem.cells| == |c0|
      invariant forall k :: 0 <= k < |c0| && !(z + j0 <= k < z + j) ==> mem.cells[k] == c0[k]
      invariant W(mem.cells, z, j) + Sh(n, j) == W(c0, z, j) + Sh(n0, j0)
    {
      var zj: nat := mem.cells[z + j];
      var dn, lo := Split(n + zj);
      CarryStep(mem.cells, z, j, n, zj, dn, lo, W(c0, z, j) + Sh(n0, j0));
      WNext(c0, z, j);
      mem.cells := mem.cells[z + j := lo];
      n := dn;
      j := j + 1;
    }
    TailSame(c0, mem.cells, z, j, zn);
    ShUnit(j);
    ShUnit(zn);
    return if n != 0 then 1 else 0;
  }

  /** bary_muladd_1xN */
  method MulAdd1xN(mem: Memory, z: nat, zn: nat, x: Digit, y: nat, yn: nat) returns (c: nat)
    requires z + zn <= |mem.cells| && y + yn <= |mem.cells| && yn < zn
    requires ReadsAhead(z, y, yn)
    modifies mem
    ensures |mem.cells| == |old(mem.cells)| && Keeps(old(mem.cells), mem.cells, z, zn)
    ensures c <= 1
    ensures W(mem.cells, z, zn) + Sh(c, zn) == old(W(mem.cells, z, zn)) + x * old(W(mem.cells, y, yn))
  {
    hide W, P, Sh, Up, Mul;
    ghost var c0 := mem.cells;
    ShUnit(zn);
    MulIs(x, W(c0, y, yn));
    if x == 0 {
      KeepsIntro(c0, mem.cells, z, zn);
      return 0;
    }
    var n := MulAddLow(mem, z, x, y, yn);
    TailSame(c0, mem.cells, z, yn, zn);
    c := CarryUp(mem, z, zn, yn, n);
    KeepsIntro(c0, mem.cells, z, zn);
  }

  /** The accumulator of a 1xN multiplication step stays below BIGRAD squared. */
  lemma ProductFits(n: nat, x: Digit, y: Digit, z: Digit)
    requires n < B
    ensures 0 <= n + (z + x * y) < Up(B)
  {
    ProductFitsIn(x, y, B);
  }

  lemma ProductFitsIn(x: nat, y: nat, b: nat)
    requires x < b && y < b
    ensures 0 <= x * y && x * y + 2 * (b - 1) < b * b
  {
    MulLe(x, b - 1, y);
    MulLe(y, b - 1, b - 1);
    assert (b - 1) * (b - 1) == b * b - 2 * b + 1;
  }

  lemma SplitSmall(v: nat, dn: int, lo: Digit)
    requires v < B && v == Up(dn) + lo
    ensures dn == 0 && lo == v
  {
    if dn > 0 { MulLe(1, dn, B); }
    if dn < 0 { MulLe(dn, -1, B); }
  }

  lemma MulAddDigit(c0: seq<Digit>, z: nat, y: nat, j: nat, x: nat)
    requires z + j < |c0| && y + j < |c0|
    ensures W(c0, z, j + 1) + Mul(x, W(c0, y, j + 1))
         == W(c0, z, j) + Mul(x, W(c0, y, j)) + Sh(c0[z + j] + Mul(x, c0[y + j]), j)
  {
    WNext(c0, z, j);
    WNext(c0, y, j);
    ShAdd(c0[z + j], x * c0[y + j], j);
    ScaleNext(x, W(c0, y, j), c0[y + j], P(j));
  }

  lemma ScaleNext(x: int, w: int, d: int, r: int)
    ensures x * (w + d * r) == x * w + x * d * r
  {
    assert x * (w + d * r) == x * w + x * (d * r);
  }

  /** bary_mul_normal: schoolbook multiplication */
  method MulNormal(mem: Memory, z: nat, zn: nat, x: nat, xn: nat, y: nat, yn: nat)
    requires z + zn <= |mem.cells| && x + xn <= |mem.cells| && y + yn <= |mem.cells|
    requires xn + yn <= zn && Apart(z, zn, x, xn) && Apart(z, zn, y, yn)
    modifies mem
    ensures |mem.cells| == |old(mem.cells)| && Keeps(old(mem.cells), mem.cells, z, zn)
    ensures W(mem.cells, z, zn) == old(W(mem.cells, x, xn) * W(mem.cells, y, yn))
  {
    hide W, P, Sh, Up;
    ghost var c0 := mem.cells;
    Zero(mem, z, zn);
    WEmpty(c0, x);
    var i := 0;
    while i < xn
      invariant 0 <= i <= xn
      invariant |mem.cells| == |c0| && Keeps(c0, mem.cells, z, zn)
      invariant W(mem.cells, z, zn) == W(c0, x, i) * W(c0, y, yn)
    {
      ghost var c1 := mem.cells;
      WNext(c0, x, i);
      var c := MulAdd1xN(mem, z + i, zn - i, mem.cells[x + i], y, yn);
      WSplit(c1, z, i, zn - i);
      WSplit(mem.cells, z, i, zn - i);
      MulRow(W(c0, x, i), c0[x + i], W(c0, y, yn), i, xn, yn, zn, W(c1, z, i), W(c1, z + i, zn - i),
             W(mem.cells, z + i, zn - i), c);
      KeepsIntro(c0, mem.cells, z, zn);
      i := i + 1;
    }
  }

  /** One row of schoolbook multiplication; the carry out of the whole buffer is always 0. */
  lemma MulRow(xl: nat, d: Digit, yv: nat, i: nat, xn: nat, yn: nat, zn: nat, low: nat, high: nat, high': nat, c: nat)
    requires i < xn && xn + yn <= zn && xl < P(i) && yv < P(yn)
    requires low + Sh(high, i) == xl * yv && c <= 1
    requires high' + Sh(c, zn - i) == high + d * yv
    ensures c == 0 && low + Sh(high', i) == (xl + Sh(d, i)) * yv
  {
    RowAlgebra(xl, d, yv, P(i), P(zn - i), low, high, high', c);
    RowBound(xl, d, yv, i, yn, zn);
    PAdd(i, zn - i);
    MulLe(0, high', P(i));
    if c == 1 { ShUnit(zn); }
  }

  lemma RowAlgebra(xl: int, d: int, yv: int, r: int, s: int, low: int, high: int, high': int, c: int)
    requires low + high * r == xl * yv && high' + c * s == high + d * yv
    ensures low + high' * r + c * (r * s) == (xl + d * r) * yv
  {
    Regroup(r, high', c, s);
    Distrib(high, d * yv, r);
    assert d * yv * r == d * r * yv;
    Distrib(xl, d * r, yv);
  }

  lemma RowBound(xl: nat, d: Digit, yv: nat, i: nat, yn: nat, zn: nat)
    requires i + 1 + yn <= zn && xl < P(i) && yv < P(yn)
    ensures (xl + Sh(d, i)) * yv < P(zn)
  {
    TopDigit(xl, d, P(i), B);
    PAdd(i + 1, yn);
    PMono(i + 1 + yn, zn);
    MulLt(xl + d * P(i), P(i + 1), yv, P(yn));
  }

  lemma MulLt(a: nat, b: nat, c: nat, d: nat)
    requires a < b && c < d
    ensures a * c < b * d
  {
    MulLe(a, b, c);
    assert b * (c + 1) == b * c + b;
    MulLe(c + 1, d, b);
  }

  /** bigdivrem_mulsub: subtract x*y from the low digits of z and return what is left at
      the top, including the top digit of z, which is not updated. */
  method MulSub(mem: Memory, z: nat, x: Digit, y: nat, yn: nat) returns (num: int)
    requires 0 < yn && z + yn + 1 <= |mem.cells| && y + yn <= |mem.cells|
    requires ReadsAhead(z, y, yn)
    modifies mem
    ensures |mem.cells| == |old(mem.cells)| && Keeps(old(mem.cells), mem.cells, z, yn)
    ensures W(mem.cells, z, yn) + Sh(num, yn) == old(W(mem.cells, z, yn + 1)) - x * old(W(mem.cells, y, yn))
    ensures 0 - B <= num < B
  {
    hide W, P, Sh, Up, Mul;
    ghost var c0 := mem.cells;
    WEmpty(c0, z);
    WEmpty(c0, y);
    ShUnit(0);
    MulIs(x, 0);
    num := 0;
    var t2: nat := 0;
    var i := 0;
    while i < yn
      invariant 0 <= i <= yn && -1 <= num <= 0 && t2 < B
      invariant Untouched(c0, mem.cells, z, i)
      invariant W(mem.cells, z, i) + Sh(num - t2, i) == W(c0, z, i) - Mul(x, W(c0, y, i))
    {
      var zi: nat, yi: nat := mem.cells[z + i], mem.cells[y + i];
      MulIs(x, yi);
      ProductFits(t2, x, yi, 0);
      var hi, t := Split(t2 + Mul(x, yi));
      var ee := num - t;
      // the double-width words hold these values: -B <= ee <= 0 and -B <= zi + ee < B
      var dn, lo := Split(zi + ee);
      MulSubStep(c0, mem.cells, z, y, i, x, num, t2, zi, yi, hi, t, dn, lo);
      if ee != 0 {
        mem.cells := mem.cells[z + i := lo];
      } else {
        SplitSmall(zi, dn, lo);
        assert mem.cells[z + i := lo] == mem.cells;
      }
      num, t2 := dn, hi;
      i := i + 1;
    }
    MulIs(x, W(c0, y, yn));
    WNext(c0, z, yn);
    ShAdd(num - t2, mem.cells[z + yn], yn);
    KeepsIntro(c0, mem.cells, z, yn);
    num := num + (mem.cells[z + i] - t2);
  }

  lemma MulSubStep(c0: seq<Digit>, c: seq<Digit>, z: nat, y: nat, i: nat, x: nat,
                   num: int, t2: int, zi: Digit, yi: Digit, hi: int, t: Digit, dn: int, lo: Digit)
    requires |c| == |c0| && z + i < |c| && y + i < |c| && c0[z + i] == zi && c0[y + i] == yi
    requires W(c, z, i) + Sh(num - t2, i) == W(c0, z, i) - Mul(x, W(c0, y, i))
    requires t2 + Mul(x, yi) == Up(hi) + t && zi + (num - t) == Up(dn) + lo
    ensures W(c[z + i := lo], z, i + 1) + Sh(dn - hi, i + 1) == W(c0, z, i + 1) - Mul(x, W(c0, y, i + 1))
  {
    hide W, P, Sh, Up, Mul;
    var p := Mul(x, yi);
    UpDiff(dn, hi);
    CarryStep(c, z, i, num - t2, zi - p, dn - hi, lo, W(c0, z, i) - Mul(x, W(c0, y, i)));
    ShAdd(zi, p, i);
    WNext(c0, z, i);
    WNext(c0, y, i);
    MulNext(x, W(c0, y, i), yi, i);
  }

  lemma UpDiff(a: int, b: int)
    ensures Up(a - b) == Up(a) - Up(b)
  {
    Distrib(a, b, B);
  }

  lemma MulNext(x: int, w: int, d: int, i: nat)
    ensures Mul(x, w + Sh(d, i)) == Mul(x, w) + Sh(Mul(x, d), i)
  {
    ScaleNext(x, w, d, P(i));
  }

  /** bary_mulsub_1xN */
  method MulSub1xN(mem: Memory, z: nat, x: Digit, y: nat, yn: nat) returns (c: nat)
    requires 0 < yn && z + yn + 1 <= |mem.cells| && y + yn <= |mem.cells|
    requires ReadsAhead(z, y, yn)
    modifies mem
    ensures |mem.cells| == |old(mem.cells)| && Keeps(old(mem.cells), mem.cells, z, yn + 1)
    ensures c <= 1
    ensures W(mem.cells, z, yn + 1) - Sh(c, yn + 1) == old(W(mem.cells, z, yn + 1)) - x * old(W(mem.cells, y, yn))
  {
    hide W, P, Sh, Up;
    ghost var c0 := mem.cells;
    var num := MulSub(mem, z, x, y, yn);
    var dn, lo := Split(num);
    ghost var total := W(mem.cells, z, yn) + Sh(num, yn);
    ShUnit(yn);
    ShUnit(yn + 1);
    CarryStep(mem.cells, z, yn, num, 0, dn, lo, total);
    mem.cells := mem.cells[z + yn := lo];
    KeepsIntro(c0, mem.cells, z, yn + 1);
    return if dn != 0 then 1 else 0;
  }

  /** Adding v into the n digits at offset i of the window adds Sh(v, i) to the window. */
  lemma AddInside(c: seq<Digit>, c': seq<Digit>, z: nat, zn: nat, i: nat, n: nat, v: int)
    requires |c'| == |c| && i + n <= zn && z + zn <= |c|
    requires Keeps(c, c', z + i, n) && W(c', z + i, n) == W(c, z + i, n) + v
    ensures W(c', z, zn) == W(c, z, zn) + Sh(v, i)
  {
    hide W, P, Sh, Up;
    WSplit(c, z, i, zn - i);
    WSplit(c', z, i, zn - i);
    WSplit(c, z + i, n, zn - i - n);
    WSplit(c', z + i, n, zn - i - n);
    assert W(c', z + i + n, zn - i - n) == W(c, z + i + n, zn - i - n);
    ShAdd(W(c, z + i, zn - i), v, i);
  }

  /** MEMCPY or MEMMOVE of n digits, zeros above */
  method CopyPadded(mem: Memory, z: nat, zn: nat, y: nat, n: nat)
    requires n <= zn && z + zn <= |mem.cells| && y + n <= |mem.cells|
    modifies mem
    ensures |mem.cells| == |old(mem.cells)| && Keeps(old(mem.cells), mem.cells, z, zn)
    ensures W(mem.cells, z, zn) == old(W(mem.cells, y, n))
  {
    hide W, P, Sh, Up;
    ghost var c0 := mem.cells;
    Copy(mem, z, y, n);
    Zero(mem, z + n, zn - n);
    WSplit(mem.cells, z, n, zn - n);
    ShUnit(n);
    KeepsIntro(c0, mem.cells, z, zn);
  }

  /** bary_zero_p */
  method ZeroP(mem: Memory, p: nat, n: nat) returns (zero: bool)
    requires p + n <= |mem.cells|
    ensures zero == (W(mem.cells, p, n) == 0)
  {
    hide W;
    WZero(mem.cells, p, n);
    var i := n;
    while i > 0
      invariant 0 <= i <= n && forall k :: p + i <= k < p + n ==> mem.cells[k] == 0
    {
      i := i - 1;
      if mem.cells[p + i] != 0 { return false; }
    }
    return true;
  }

  lemma TwoDigitValue(c: seq<Digit>, p: nat)
    requires p + 2 <= |c|
    ensures W(c, p, 2) == c[p] + Up(c[p + 1]) && 0 <= c[p] + Up(c[p + 1]) < Up(B)
  {
    WNext(c, p, 1);
    WOne(c, p);
    assert P(1) == B * P(0) == B;
    assert P(2) == B * P(1);
  }

  /** bdigitdbl2bary: the low and the high digit of a number of two digits */
  method PutTwo(mem: Memory, p: nat, v: int)
    requires 0 <= v < Up(B) && p + 2 <= |mem.cells|
    modifies mem
    ensures |mem.cells| == |old(mem.cells)| && Keeps(old(mem.cells), mem.cells, p, 2)
    ensures W(mem.cells, p, 2) == v
  {
    hide W, P, Sh, Up;
    ghost var c0 := mem.cells;
    var dn, lo := Split(v);
    mem.cells := mem.cells[p := lo][p + 1 := dn];
    TwoDigitValue(mem.cells, p);
    KeepsIntro(c0, mem.cells, p, 2);
  }

  /** The same in a new window */
  method StoreTwo(mem: Memory, v: int) returns (p: nat)
    requires 0 <= v < Up(B)
    modifies mem
    ensures p == |old(mem.cells)| && |mem.cells| == p + 2 && Keeps(old(mem.cells), mem.cells, p, 2)
    ensures W(mem.cells, p, 2) == v
  {
    hide W;
    ghost var c0 := mem.cells;
    p := mem.Alloc(2);
    PutTwo(mem, p, v);
    KeepsIntro(c0, mem.cells, p, 2);
  }
}
