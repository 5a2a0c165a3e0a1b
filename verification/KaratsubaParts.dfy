/** The steps of bary_mul_karatsuba between its recursive multiplications. */
module KaratsubaParts {
  import opened Arith
  import opened BDigits
  import opened Bary

  function Abs(v: int): nat {
    if v < 0 then -v else v
  }

  /** The recurring pattern of a difference that is negated, with its sign flipped, when it borrows */
  method AbsDiff(mem: Memory, z: nat, zn: nat, a: nat, an: nat, b: nat, bn: nat) returns (neg: bool)
    requires z + zn <= |mem.cells| && a + an <= |mem.cells| && b + bn <= |mem.cells|
    requires an <= zn && bn <= zn && ReadsAhead(z, a, an) && ReadsAhead(z, b, bn)
    modifies mem
    ensures |mem.cells| == |old(mem.cells)| && Keeps(old(mem.cells), mem.cells, z, zn)
    ensures W(mem.cells, z, zn) == Abs(old(W(mem.cells, a, an) - W(mem.cells, b, bn)))
    ensures neg == (old(W(mem.cells, a, an)) < old(W(mem.cells, b, bn)))
  {
    hide W, P, Sh, Up;
    ghost var c0 := mem.cells;
    var borrow := Sub(mem, z, zn, a, an, b, bn);
    ShUnit(zn);
    PMono(an, zn);
    PMono(bn, zn);
    if borrow != 0 {
      var zero := TwoComp(mem, z, zn);
      KeepsIntro(c0, mem.cells, z, zn);
    }
    neg := borrow != 0;
  }

  /** The middle product with its sign: -D mod B^(2n), where D is +v or -v; then its low half
      is saved at w. */
  method SignMiddle(mem: Memory, z1: nat, n: nat, subP: bool, w: nat) returns (borrow: nat)
    requires z1 + 2 * n <= |mem.cells| && w + n <= |mem.cells| && Apart(z1, 2 * n, w, n)
    modifies mem
    ensures |mem.cells| == |old(mem.cells)| && Keeps2(old(mem.cells), mem.cells, z1, 2 * n, w, n)
    ensures borrow <= 1
    ensures W(mem.cells, w, n) + Sh(W(mem.cells, z1 + n, n), n)
         == Sh(borrow, 2 * n) + (if subP then 0 - old(W(mem.cells, z1, 2 * n)) else old(W(mem.cells, z1, 2 * n)))
  {
    hide W, P, Sh, Up;
    ghost var c0 := mem.cells;
    borrow := 0;
    ShUnit(2 * n);
    if subP {
      var zero := TwoComp(mem, z1, 2 * n);
      borrow := if zero then 0 else 1;
    }
    WSplit(mem.cells, z1, n, n);
    Copy(mem, w, z1, n);
    Keeps2Intro(c0, mem.cells, z1, 2 * n, w, n);
  }

  lemma FoldLowSum(m0: int, m1: int, l0: int, l1: int, w1: int, ca: int, high: int, low: int, out: int, n: nat)
    requires w1 + Sh(ca, n) == m0 + l0 && high == m1 + l1 + ca && low + out == l1 + w1
    ensures low + out + Sh(high, n) == m0 + l0 + l1 + Sh(m1 + l1, n)
  {
    ShAdd(m1 + l1, ca, n);
  }

  /** The halves of the middle product take up those of x0*y0. */
  method FoldMiddle(mem: Memory, z: nat, n: nat, w: nat) returns (ghost ca: nat, carry: nat)
    requires z + 3 * n <= |mem.cells| && w + n <= |mem.cells| && Apart(z, 3 * n, w, n)
    modifies mem
    ensures |mem.cells| == |old(mem.cells)| && Keeps2(old(mem.cells), mem.cells, w, n, z + 2 * n, n) && carry <= 1
    ensures W(mem.cells, w, n) + Sh(ca, n) == old(W(mem.cells, w, n) + W(mem.cells, z, n))
    ensures W(mem.cells, z + 2 * n, n) + Sh(carry, n) == old(W(mem.cells, z + 2 * n, n) + W(mem.cells, z + n, n)) + ca
  {
    hide W, P, Sh, Up, Keeps, Keeps2;
    ghost var c0 := mem.cells;
    carry := Add(mem, w, n, w, n, z, n);
    ghost var c1 := mem.cells;
    ca := carry;
    WindowKept(c0, c1, w, n, z + n, n);
    WindowKept(c0, c1, w, n, z + 2 * n, n);
    carry := Addc(mem, z + 2 * n, n, z + 2 * n, n, z + n, n, carry);
    WindowKept(c1, mem.cells, z + 2 * n, n, w, n);
    TwoChanges(c0, c1, mem.cells, w, n, z + 2 * n, n);
  }

  lemma TwoChanges(c0: seq<Digit>, c1: seq<Digit>, c2: seq<Digit>, a: nat, an: nat, b: nat, bn: nat)
    requires |c0| == |c1| == |c2| && Keeps(c0, c1, a, an) && Keeps(c1, c2, b, bn)
    ensures Keeps2(c0, c2, a, an, b, bn)
  {
    Keeps2Intro(c0, c2, a, an, b, bn);
  }

  lemma FoldLowKept(c0: seq<Digit>, c1: seq<Digit>, c2: seq<Digit>, z: nat, n: nat, w: nat)
    requires |c0| == |c1| == |c2|
    requires Keeps2(c0, c1, w, n, z + 2 * n, n) && Keeps2(c1, c2, z + n, n, w, n)
    ensures Keeps2(c0, c2, z + n, 2 * n, w, n)
  {
    Keeps2Intro(c0, c2, z + n, 2 * n, w, n);
  }

  lemma WindowKept2(c: seq<Digit>, c': seq<Digit>, z: nat, zn: nat, w: nat, wn: nat, p: nat, n: nat)
    requires Keeps2(c, c', z, zn, w, wn) && p + n <= |c| && Apart(z, zn, p, n) && Apart(w, wn, p, n)
    ensures |c| <= |c'| && W(c', p, n) == W(c, p, n)
  {
  }

  /** x0*y0 is at z, the middle product split between w and z+2n: fold them into z+n and w. */
  method FoldLow(mem: Memory, z: nat, n: nat, w: nat) returns (carry1: nat, carry2: nat)
    requires z + 3 * n <= |mem.cells| && w + n <= |mem.cells| && Apart(z, 3 * n, w, n)
    modifies mem
    ensures |mem.cells| == |old(mem.cells)| && Keeps2(old(mem.cells), mem.cells, z + n, 2 * n, w, n)
    ensures carry1 <= 1 && carry2 <= 1
    ensures W(mem.cells, z + n, n) + Sh(carry2, n) + Sh(W(mem.cells, w, n) + Sh(carry1, n), n)
         == old(W(mem.cells, w, n) + W(mem.cells, z, n) + W(mem.cells, z + n, n)
                + Sh(W(mem.cells, z + 2 * n, n) + W(mem.cells, z + n, n), n))
  {
    hide W, P, Sh, Up, Keeps, Keeps2;
    ghost var c0 := mem.cells;
    ghost var ca;
    ca, carry1 := FoldMiddle(mem, z, n, w);
    ghost var c1 := mem.cells;
    WindowKept2(c0, c1, w, n, z + 2 * n, n, z + n, n);
    carry2 := Add(mem, z + n, n, z + n, n, w, n);
    ghost var c2 := mem.cells;
    WindowKept(c1, c2, z + n, n, z + 2 * n, n);
    FoldLowSum(W(c0, w, n), W(c0, z + 2 * n, n), W(c0, z, n), W(c0, z + n, n), W(c1, w, n), ca,
               W(c1, z + 2 * n, n) + Sh(carry1, n), W(c2, z + n, n), Sh(carry2, n), n);
    Copy(mem, w, z + 2 * n, n);
    WindowKept(c2, mem.cells, w, n, z + n, n);
    TwoChanges(c1, c2, mem.cells, z + n, n, w, n);
    FoldLowKept(c0, c1, mem.cells, z, n, w);
  }

  /** x1*y1 is at z+2n: add it in the middle and add everything carried. */
  method FoldHigh(mem: Memory, z: nat, zn: nat, n: nat, w: nat, carry1: nat, carry2: nat, borrow: nat)
    returns (ghost t: int)
    requires 3 * n < zn && z + zn <= |mem.cells| && w + n <= |mem.cells| && Apart(z, zn, w, n)
    requires carry1 <= 1 && carry2 <= 1 && borrow <= 1 && 0 < n
    requires W(mem.cells, z + 2 * n, zn - 2 * n) < P(2 * n)
    modifies mem
    ensures |mem.cells| == |old(mem.cells)| && Keeps(old(mem.cells), mem.cells, z, zn)
    ensures W(mem.cells, z, zn) + Sh(t, zn)
         == old(W(mem.cells, z, n) + Sh(W(mem.cells, z + n, n) + W(mem.cells, z + 2 * n, zn - 2 * n), n)
                + Sh(W(mem.cells, z + 2 * n, zn - 2 * n) + W(mem.cells, w, n) + carry2 + Sh(carry1 - borrow, n), 2 * n))
  {
    hide W, P, Sh, Up;
    ghost var c0 := mem.cells;
    var hn := zn - 2 * n;
    ghost var z0, z1, u, wv := W(c0, z, n), W(c0, z + n, n), W(c0, z + 2 * n, hn), W(c0, w, n);
    var carry3a := Add(mem, z + n, n, z + n, n, z + 2 * n, n);
    ghost var z1' := W(mem.cells, z + n, n);
    assert W(mem.cells, z, n) == z0 && W(mem.cells, z + 2 * n, hn) == u && W(mem.cells, w, n) == wv;
    ghost var u0 := W(c0, z + 2 * n, n);
    var carry3; ghost var u1;
    carry3, u1 := AddHalf(mem, z + 2 * n, hn, n, carry3a);
    assert W(mem.cells, z, n) == z0 && W(mem.cells, z + n, n) == z1' && W(mem.cells, w, n) == wv;
    ghost var t2 := AddRest(mem, z + 2 * n, hn, n, w, carry2, carry1 + carry3 - borrow);
    assert W(mem.cells, z, n) == z0 && W(mem.cells, z + n, n) == z1';
    WSplit3(mem.cells, z, n, n, hn);
    t := t2;
    FoldHighValue(n, zn, z0, z1, u, wv, u0, u1, z1', W(mem.cells, z + 2 * n, hn),
                  carry1, carry2, carry3, carry3a, borrow, t);
    KeepsIntro(c0, mem.cells, z, zn);
  }

  /** The second half of the carry3 step: add the upper half of x1*y1 to its lower half. */
  method AddHalf(mem: Memory, z2: nat, hn: nat, n: nat, carry: nat) returns (carry3: nat, ghost u1: nat)
    requires 0 < n < hn && z2 + hn <= |mem.cells| && carry <= 1
    requires W(mem.cells, z2, hn) < P(2 * n)
    modifies mem
    ensures |mem.cells| == |old(mem.cells)| && Keeps(old(mem.cells), mem.cells, z2, hn)
    ensures carry3 <= 1
    ensures old(W(mem.cells, z2, hn)) == old(W(mem.cells, z2, n)) + Sh(u1, n)
    ensures W(mem.cells, z2, hn) == old(W(mem.cells, z2, hn)) + u1 + carry - Sh(carry3, n)
  {
    hide W, P, Sh, Up;
    ghost var c0 := mem.cells;
    var m := if 2 * n < hn then n else hn - n;
    u1 := W(c0, z2 + n, hn - n);
    UpperHalf(c0, z2, hn, n, m);
    carry3 := Addc(mem, z2, n, z2, n, z2 + n, m, carry);
    WSplit(c0, z2, n, hn - n);
    WSplit(mem.cells, z2, n, hn - n);
    KeepsIntro(c0, mem.cells, z2, hn);
  }

  lemma UpperHalf(c: seq<Digit>, p: nat, hn: nat, n: nat, m: nat)
    requires n <= hn && p + hn <= |c| && m == (if 2 * n < hn then n else hn - n)
    requires W(c, p, hn) < P(2 * n)
    ensures W(c, p + n, m) == W(c, p + n, hn - n)
  {
    if 2 * n < hn {
      WSplit(c, p, 2 * n, hn - 2 * n);
      WSplit(c, p + n, n, hn - 2 * n);
      var top := W(c, p + 2 * n, hn - 2 * n);
      if top > 0 { MulLe(1, top, P(2 * n)); }
    }
  }

  /** The last additions into x1*y1, modulo the length of the buffer */
  method AddRest(mem: Memory, z2: nat, hn: nat, n: nat, w: nat, carry2: nat, s: int) returns (ghost t: int)
    requires 0 < n < hn && z2 + hn <= |mem.cells| && w + n <= |mem.cells| && Apart(z2, hn, w, n)
    requires carry2 <= 1 && -1 <= s <= 2
    modifies mem
    ensures |mem.cells| == |old(mem.cells)| && Keeps(old(mem.cells), mem.cells, z2, hn)
    ensures W(mem.cells, z2, hn) + Sh(t, hn)
         == old(W(mem.cells, z2, hn) + W(mem.cells, w, n)) + carry2 + Sh(s, n)
  {
    hide W, P, Sh, Up;
    ghost var c0 := mem.cells;
    t := Add(mem, z2, hn, z2, hn, w, n);
    ShUnit(hn);
    if carry2 != 0 {
      var c := AddOne(mem, z2, hn);
      ShAdd(t, c, hn);
      t := t + c;
    }
    KeepsIntro(c0, mem.cells, z2, hn);
    ghost var t1 := AddSmall(mem, z2, hn, n, s);
    ShAdd(t, t1, hn);
    t := t + t1;
    KeepsIntro(c0, mem.cells, z2, hn);
  }

  /** Adding carry1 + carry3 - borrow at the third quarter */
  method AddSmall(mem: Memory, z2: nat, hn: nat, n: nat, s: int) returns (ghost t: int)
    requires 0 < n < hn && z2 + hn <= |mem.cells| && -1 <= s <= 2
    modifies mem
    ensures |mem.cells| == |old(mem.cells)| && Keeps(old(mem.cells), mem.cells, z2, hn)
    ensures W(mem.cells, z2, hn) + Sh(t, hn) == old(W(mem.cells, z2, hn)) + Sh(s, n)
  {
    hide W, P, Sh, Up;
    ghost var c0 := mem.cells;
    ghost var hi := W(c0, z2 + n, hn - n);
    t := 0;
    ShUnit(n);
    ShUnit(hn);
    ShUnit(hn - n);
    WSplit(c0, z2, n, hn - n);
    if s < 0 {
      var c: int := SubOne(mem, z2 + n, hn - n);
      ShAdd(0, c, hn - n);
      t := 0 - c;
    } else if s > 0 {
      var c := AddDigitTo(mem, z2 + n, hn - n, s);
      t := c;
    }
    KeepsIntro(c0, mem.cells, z2, hn);
    ShAdd(hi, s - Sh(t, hn - n), n);
    ShAdd(s, Sh(t, hn - n), n);
    ShSh(t, hn - n, n);
    WSplit(mem.cells, z2, n, hn - n);
  }

  /** bary_add of a one-digit operand held in a local variable */
  method AddDigitTo(mem: Memory, z: nat, zn: nat, d: Digit) returns (c: nat)
    requires 0 < zn && z + zn <= |mem.cells|
    modifies mem
    ensures |mem.cells| == |old(mem.cells)| && Keeps(old(mem.cells), mem.cells, z, zn)
    ensures c <= 1 && W(mem.cells, z, zn) + Sh(c, zn) == old(W(mem.cells, z, zn)) + d
  {
    hide W, P, Sh, Up;
    ghost var c0 := mem.cells;
    var local := |mem.cells|;
    mem.cells := mem.cells + [d];
    KeepsIntro(c0, mem.cells, local, 1);
    assert W(mem.cells, z, zn) == W(c0, z, zn);
    WNext(mem.cells, local, 0);
    WEmpty(mem.cells, local);
    ShUnit(0);
    c := Add(mem, z, zn, z, zn, local, 1);
    ghost var c1 := mem.cells;
    mem.cells := mem.cells[..local];
    WCopy(mem.cells, z, c1, z, zn);
    KeepsIntro(c0, mem.cells, z, zn);
  }

  lemma WSplit3(c: seq<Digit>, p: nat, a: nat, b: nat, d: nat)
    requires p + a + b + d <= |c|
    ensures W(c, p, a + b + d) == W(c, p, a) + Sh(W(c, p + a, b), a) + Sh(W(c, p + a + b, d), a + b)
  {
    WSplit(c, p, a + b, d);
    WSplit(c, p, a, b);
  }

  lemma FoldHighValue(n: nat, zn: nat, z0: int, z1: int, u: int, wv: int, u0: int, u1: int, z1': int, top: int,
                      carry1: int, carry2: int, carry3: int, carry3a: int, borrow: int, t: int)
    requires 2 * n <= zn
    requires z1' + Sh(carry3a, n) == z1 + u0
    requires u == u0 + Sh(u1, n)
    requires top + Sh(t, zn - 2 * n) == u + u1 + carry3a - Sh(carry3, n) + wv + carry2 + Sh(carry1 + carry3 - borrow, n)
    ensures z0 + Sh(z1', n) + Sh(top, 2 * n) + Sh(t, zn)
         == z0 + Sh(z1 + u, n) + Sh(u + wv + carry2 + Sh(carry1 - borrow, n), 2 * n)
  {
    hide P, Sh;
    var e := u + wv + carry2 + Sh(carry1 - borrow, n);
    ShAdd(carry1 - borrow, carry3, n);
    assert top + Sh(t, zn - 2 * n) == e + u1 + carry3a;
    ShSh(t, zn - 2 * n, 2 * n);
    ShAdd(top, Sh(t, zn - 2 * n), 2 * n);
    ShAdd(e + u1, carry3a, 2 * n);
    ShAdd(e, u1, 2 * n);
    assert z1 + u == z1' + Sh(carry3a, n) + Sh(u1, n);
    ShAdd(z1' + Sh(carry3a, n), Sh(u1, n), n);
    ShAdd(z1', Sh(carry3a, n), n);
    ShSh(carry3a, n, n);
    ShSh(u1, n, n);
  }

  /** What the in-place schedule leaves in z, in terms of the three half products:
      l + (l + u - d)*B^n + u*B^(2n). */
  lemma ScheduleValue(n: nat, l: int, l0: int, l1: int, u: int, d: int, m0: int, m1: int, z1: int, wv: int,
                      carry1: int, carry2: int, borrow: int)
    requires l0 + Sh(l1, n) == l
    requires m0 + Sh(m1, n) == Sh(borrow, 2 * n) - d
    requires z1 + Sh(carry2, n) + Sh(wv + Sh(carry1, n), n) == m0 + l0 + l1 + Sh(m1 + l1, n)
    ensures l0 + Sh(z1 + u, n) + Sh(u + wv + carry2 + Sh(carry1 - borrow, n), 2 * n)
         == l + Sh(l + u - d, n) + Sh(u, 2 * n)
  {
    hide P, Sh;
    ShAdd(m1, l1, n);
    assert z1 + Sh(carry2, n) + Sh(wv + Sh(carry1, n), n) == Sh(borrow, 2 * n) - d + l + l1;
    ShAdd(z1 + Sh(carry2, n), Sh(wv + Sh(carry1, n), n), n);
    ShAdd(z1, Sh(carry2, n), n);
    ShSh(carry2, n, n);
    ShSh(wv + Sh(carry1, n), n, n);
    ShAdd(Sh(borrow, 2 * n) - d, l + l1, n);
    ShAdd(Sh(borrow, 2 * n), d, n);
    ShAdd(l, l1, n);
    ShSh(borrow, 2 * n, n);
    ShAdd(z1, u, n);
    ShAdd(u + carry2, wv + Sh(carry1, n) - Sh(borrow, n), 2 * n);
    ShAdd(u, carry2, 2 * n);
    ShAdd(wv + Sh(carry1, n), Sh(borrow, n), 2 * n);
    ShAdd(carry1, borrow, n);
    ShSh(borrow, n, 2 * n);
    ShAdd(l + u, d, n);
    ShAdd(l, u, n);
  }

  /** Karatsuba's identity */
  lemma KaratsubaIdentity(x0: int, x1: int, y0: int, y1: int, n: nat)
    ensures Mul(x0, y0) + Sh(Mul(x0, y0) + Mul(x1, y1) - Mul(x0 - x1, y0 - y1), n) + Sh(Mul(x1, y1), 2 * n)
         == Mul(x0 + Sh(x1, n), y0 + Sh(y1, n))
  {
    PAdd(n, n);
    HalvesProduct(x0, x1, y0, y1, P(n));
  }

  lemma HalvesProduct(x0: int, x1: int, y0: int, y1: int, r: int)
    ensures (x0 + x1 * r) * (y0 + y1 * r)
         == x0 * y0 + (x0 * y0 + x1 * y1 - (x0 - x1) * (y0 - y1)) * r + x1 * y1 * (r * r)
  {
    var m := x0 * y1 + x1 * y0;
    assert (x0 - x1) * (y0 - y1) == x0 * y0 - m + x1 * y1 by {
      assert (x0 - x1) * (y0 - y1) == x0 * (y0 - y1) - x1 * (y0 - y1);
    }
    CrossProduct(x0, x1, y0, y1, r);
  }

  lemma CrossProduct(x0: int, x1: int, y0: int, y1: int, r: int)
    ensures (x0 + x1 * r) * (y0 + y1 * r) == x0 * y0 + (x0 * y1 + x1 * y0) * r + x1 * y1 * (r * r)
  {
    var a, b := x1 * r, y1 * r;
    assert (x0 + a) * (y0 + b) == x0 * y0 + x0 * b + a * y0 + a * b by {
      Distrib(x0, a, y0 + b);
    }
    assert x0 * b == x0 * y1 * r;
    assert a * y0 == x1 * y0 * r;
    assert a * b == x1 * y1 * (r * r);
    Distrib(x0 * y1, x1 * y0, r);
  }

  /** A value below B^zn that agrees with another such value modulo B^zn is that value. */
  lemma NoWrap(z: nat, t: int, v: nat, zn: nat)
    requires z < P(zn) && v < P(zn) && z + Sh(t, zn) == v
    ensures z == v
  {
    if t < 0 { MulLe(t, -1, P(zn)); }
    if t > 0 { MulLe(1, t, P(zn)); }
  }

  lemma ProductBound(a: nat, an: nat, b: nat, bn: nat, zn: nat)
    requires a < P(an) && b < P(bn) && an + bn <= zn
    ensures 0 <= Mul(a, b) < P(an + bn) <= P(zn)
  {
    PAdd(an, bn);
    PMono(an + bn, zn);
    MulLt(a, P(an), b, P(bn));
  }
}
