/** The steps of bary_mul_toom3 around its five recursive multiplications. */
module ToomParts {
  import opened Arith
  import opened BDigits
  import opened Bary
  import opened Shift
  import opened KaratsubaParts

  /** A magnitude with its "p" flag (non-negative or not) */
  function Sg(p: bool, v: int): int {
    if p then v else -v
  }

  /** The recurring pattern of a difference of two signed magnitudes: equal signs subtract
      and perhaps flip, different signs add. */
  method SignedSub(mem: Memory, z: nat, zn: nat, a: nat, an: nat, ap: bool, b: nat, bn: nat, bp: bool)
    returns (zp: bool)
    requires z + zn <= |mem.cells| && a + an <= |mem.cells| && b + bn <= |mem.cells|
    requires an <= zn && bn <= zn && ReadsAhead(z, a, an) && ReadsAhead(z, b, bn)
    requires W(mem.cells, a, an) + W(mem.cells, b, bn) < P(zn)
    modifies mem
    ensures |mem.cells| == |old(mem.cells)| && Keeps(old(mem.cells), mem.cells, z, zn)
    ensures Sg(zp, W(mem.cells, z, zn)) == Sg(ap, old(W(mem.cells, a, an))) - Sg(bp, old(W(mem.cells, b, bn)))
  {
    hide W, P, Sh, Up;
    zp := ap;
    if ap == bp {
      var neg := AbsDiff(mem, z, zn, a, an, b, bn);
      if neg { zp := !zp; }
    } else {
      ghost var v := W(mem.cells, a, an) + W(mem.cells, b, bn);
      var c := Add(mem, z, zn, a, an, b, bn);
      NoWrap(W(mem.cells, z, zn), c, v, zn);
    }
  }

  lemma SgBound(p: bool, v: nat, s: int)
    requires Sg(p, v) == s
    ensures v == Abs(s)
  {
  }

  /** P(n+1) is large against a small multiple of P(n). */
  lemma Room(n: nat, k: nat)
    requires k <= 65536
    ensures k * P(n) <= P(n + 1)
  {
    MulLe(k, B, P(n));
  }

  /** The values of the polynomial x0 + x1*b + x2*b^2 at 1, -1 and -2 */
  function At1(x0: int, x1: int, x2: int): int { x0 + x1 + x2 }
  function AtM1(x0: int, x1: int, x2: int): int { x0 - x1 + x2 }
  function AtM2(x0: int, x1: int, x2: int): int { x0 - 2 * x1 + 4 * x2 }

  /** The magnitudes at u1, u2 and u3 with their signs are the values of operand x at 1, -1, -2. */
  ghost predicate Evaluated(c: seq<Digit>, u1: nat, u2: nat, p2: bool, u3: nat, p3: bool, n: nat, x0: int, x1: int,
                            x2: int)
    requires u1 + n + 1 <= |c| && u2 + n + 1 <= |c| && u3 + n + 1 <= |c|
  {
    && W(c, u1, n + 1) == At1(x0, x1, x2)
    && Sg(p2, W(c, u2, n + 1)) == AtM1(x0, x1, x2)
    && Sg(p3, W(c, u3, n + 1)) == AtM2(x0, x1, x2)
  }

  /** [Step1] of bary_mul_toom3 for one operand: the n+1 digits at u1, u2 and u3 receive the
      magnitudes of its values at 1, -1 and -2. */
  method Evaluate(mem: Memory, u1: nat, u2: nat, u3: nat, x: nat, xn: nat, n: nat) returns (p2: bool, p3: bool)
    requires 2 * n < xn <= 3 * n && x + xn <= |mem.cells|
    requires u1 + n + 1 <= u2 && u2 + n + 1 <= u3 && u3 + n + 1 <= |mem.cells| && Apart(u1, u3 + n + 1 - u1, x, xn)
    modifies mem
    ensures |mem.cells| == |old(mem.cells)| && Keeps(old(mem.cells), mem.cells, u1, u3 + n + 1 - u1)
    ensures Evaluated(mem.cells, u1, u2, p2, u3, p3, n,
                      old(W(mem.cells, x, n)), old(W(mem.cells, x + n, n)), old(W(mem.cells, x + 2 * n, xn - 2 * n)))
  {
    hide W, P, Sh, Up, Sg, Keeps;
    ghost var c0 := mem.cells;
    p2 := EvaluateOnes(mem, u1, u2, x, xn, n);
    ghost var c3 := mem.cells;
    PartsKept(c0, c3, u1, u2 + n + 1 - u1, x, xn, n);
    p3 := EvaluateM2(mem, u2, p2, u3, x, xn, n);
    ghost var c4 := mem.cells;
    WindowKept(c3, c4, u3, n + 1, u1, n + 1);
    WindowKept(c3, c4, u3, n + 1, u2, n + 1);
    InsideKept(c0, c3, u1, u2 + n + 1 - u1, u1, u3 + n + 1 - u1);
    InsideKept(c3, c4, u3, n + 1, u1, u3 + n + 1 - u1);
    KeptTwice(c0, c3, c4, u1, u3 + n + 1 - u1);
  }

  /** The values at 1 and -1: u1 <- x0 + x2, u2 <- u1 - x1, u1 <- u1 + x1 */
  method EvaluateOnes(mem: Memory, u1: nat, u2: nat, x: nat, xn: nat, n: nat) returns (p2: bool)
    requires 2 * n < xn <= 3 * n && x + xn <= |mem.cells|
    requires u1 + n + 1 <= u2 && u2 + n + 1 <= |mem.cells| && Apart(u1, u2 + n + 1 - u1, x, xn)
    modifies mem
    ensures |mem.cells| == |old(mem.cells)| && Keeps(old(mem.cells), mem.cells, u1, u2 + n + 1 - u1)
    ensures W(mem.cells, u1, n + 1)
         == At1(old(W(mem.cells, x, n)), old(W(mem.cells, x + n, n)), old(W(mem.cells, x + 2 * n, xn - 2 * n)))
    ensures Sg(p2, W(mem.cells, u2, n + 1))
         == AtM1(old(W(mem.cells, x, n)), old(W(mem.cells, x + n, n)), old(W(mem.cells, x + 2 * n, xn - 2 * n)))
  {
    hide W, P, Sh, Up, Sg, Keeps;
    ghost var c0 := mem.cells;
    ghost var x0: int, x1: int, x2: int := W(c0, x, n), W(c0, x + n, n), W(c0, x + 2 * n, xn - 2 * n);
    PMono(xn - 2 * n, n);
    Room(n, 16);
    var c := Add(mem, u1, n + 1, x, n, x + 2 * n, xn - 2 * n);
    NoWrap(W(mem.cells, u1, n + 1), c, x0 + x2, n + 1);
    ghost var c1 := mem.cells;
    PartsKept(c0, c1, u1, n + 1, x, xn, n);
    p2 := SignedSub(mem, u2, n + 1, u1, n + 1, true, x + n, n, true);
    ghost var c2 := mem.cells;
    PartsKept(c1, c2, u2, n + 1, x, xn, n);
    WindowKept(c1, c2, u2, n + 1, u1, n + 1);
    SgIs(true, x0 + x2);
    SgIs(true, x1);
    c := Add(mem, u1, n + 1, u1, n + 1, x + n, n);
    NoWrap(W(mem.cells, u1, n + 1), c, x0 + x1 + x2, n + 1);
    ghost var c3 := mem.cells;
    WindowKept(c2, c3, u1, n + 1, u2, n + 1);
    ThreeChanges(c0, c1, c2, c3, u1, u2, n + 1);
  }

  /** Changes in two windows are changes in the span of both. */
  lemma ThreeChanges(c0: seq<Digit>, c1: seq<Digit>, c2: seq<Digit>, c3: seq<Digit>, u1: nat, u2: nat, n: nat)
    requires u1 + n <= u2 && u2 + n <= |c0| == |c1| == |c2| == |c3|
    requires Keeps(c0, c1, u1, n) && Keeps(c1, c2, u2, n) && Keeps(c2, c3, u1, n)
    ensures Keeps(c0, c3, u1, u2 + n - u1)
  {
    hide Keeps;
    InsideKept(c0, c1, u1, n, u1, u2 + n - u1);
    InsideKept(c1, c2, u2, n, u1, u2 + n - u1);
    InsideKept(c2, c3, u1, n, u1, u2 + n - u1);
    KeptTwice(c0, c1, c2, u1, u2 + n - u1);
    KeptTwice(c0, c2, c3, u1, u2 + n - u1);
  }

  lemma SgIs(p: bool, v: int)
    ensures Sg(true, v) == v && Sg(false, v) == 0 - v && Sg(p, 0) == 0
  {
  }

  lemma PartsKept(c: seq<Digit>, c': seq<Digit>, z: nat, zn: nat, x: nat, xn: nat, n: nat)
    requires Keeps(c, c', z, zn) && 2 * n <= xn && x + xn <= |c| && Apart(z, zn, x, xn)
    ensures |c| <= |c'| && W(c', x, n) == W(c, x, n) && W(c', x + n, n) == W(c, x + n, n)
    ensures W(c', x + 2 * n, xn - 2 * n) == W(c, x + 2 * n, xn - 2 * n)
  {
  }

  /** u3 <- u2 + x2, as a difference with the sign of x2 flipped */
  method AddTop(mem: Memory, u2: nat, p2: bool, u3: nat, n: nat, x2: nat, x2n: nat) returns (p3: bool)
    requires x2n <= n + 1 && x2 + x2n <= |mem.cells| && u2 + n + 1 <= u3 && u3 + n + 1 <= |mem.cells|
    requires Apart(u3, n + 1, x2, x2n)
    requires W(mem.cells, u2, n + 1) + W(mem.cells, x2, x2n) < P(n + 1)
    modifies mem
    ensures |mem.cells| == |old(mem.cells)| && Keeps(old(mem.cells), mem.cells, u3, n + 1)
    ensures Sg(p3, W(mem.cells, u3, n + 1)) == Sg(p2, old(W(mem.cells, u2, n + 1))) + old(W(mem.cells, x2, x2n))
  {
    hide W, P, Sh, Up, Keeps;
    if p2 {
      ghost var sum := W(mem.cells, u2, n + 1) + W(mem.cells, x2, x2n);
      var c := Add(mem, u3, n + 1, u2, n + 1, x2, x2n);
      NoWrap(W(mem.cells, u3, n + 1), c, sum, n + 1);
      p3 := true;
    } else {
      p3 := SignedSub(mem, u3, n + 1, x2, x2n, true, u2, n + 1, true);
    }
  }

  /** u3 <- 2*(u2 + x2) - x0 */
  method EvaluateM2(mem: Memory, u2: nat, p2: bool, u3: nat, x: nat, xn: nat, n: nat) returns (p3: bool)
    requires 2 * n < xn <= 3 * n && x + xn <= |mem.cells|
    requires u2 + n + 1 <= u3 && u3 + n + 1 <= |mem.cells| && Apart(u3, n + 1, x, xn)
    requires Sg(p2, W(mem.cells, u2, n + 1))
          == AtM1(W(mem.cells, x, n), W(mem.cells, x + n, n), W(mem.cells, x + 2 * n, xn - 2 * n))
    modifies mem
    ensures |mem.cells| == |old(mem.cells)| && Keeps(old(mem.cells), mem.cells, u3, n + 1)
    ensures Sg(p3, W(mem.cells, u3, n + 1))
         == AtM2(old(W(mem.cells, x, n)), old(W(mem.cells, x + n, n)), old(W(mem.cells, x + 2 * n, xn - 2 * n)))
  {
    hide W, P, Sh, Up, Keeps;
    ghost var c0 := mem.cells;
    ghost var x0: int, x1: int, x2: int := W(c0, x, n), W(c0, x + n, n), W(c0, x + 2 * n, xn - 2 * n);
    PMono(xn - 2 * n, n);
    Room(n, 16);
    SgBound(p2, W(c0, u2, n + 1), AtM1(x0, x1, x2));
    p3 := AddTop(mem, u2, p2, u3, n, x + 2 * n, xn - 2 * n);
    ghost var c1 := mem.cells;
    PartsKept(c0, c1, u3, n + 1, x, xn, n);
    SgBound(p3, W(c1, u3, n + 1), x0 - x1 + 2 * x2);
    Double(mem, u3, n + 1);
    ghost var c2 := mem.cells;
    PartsKept(c1, c2, u3, n + 1, x, xn, n);
    SgBound(p3, W(c2, u3, n + 1), 2 * (x0 - x1 + 2 * x2));
    p3 := SignedSub(mem, u3, n + 1, u3, n + 1, p3, x, n, true);
    KeptTwice(c0, c1, c2, u3, n + 1);
    KeptTwice(c0, c2, mem.cells, u3, n + 1);
  }

  /** bary_small_lshift by one bit, when no bit is lost */
  method Double(mem: Memory, u: nat, n: nat)
    requires u + n <= |mem.cells| && 2 * W(mem.cells, u, n) < P(n)
    modifies mem
    ensures |mem.cells| == |old(mem.cells)| && Keeps(old(mem.cells), mem.cells, u, n)
    ensures W(mem.cells, u, n) == 2 * old(W(mem.cells, u, n))
  {
    hide W, P, Sh, Up, Mul;
    TwoAndThree();
    ghost var v := W(mem.cells, u, n);
    var out := SmallLshift(mem, u, u, n, 2);
    MulIs(2, v);
    NoWrap(W(mem.cells, u, n), out, 2 * v, n);
  }

  lemma TwoAndThree()
    ensures IsPow2(2) && !IsPow2(3)
  {
    assert IsPow2(1);
  }

  /** bigdivrem_single by 3, when the division is exact */
  method ThirdOf(mem: Memory, z: nat, m: nat, zp: bool, ghost k: int)
    requires 0 < m && z + m <= |mem.cells| && Sg(zp, W(mem.cells, z, m)) == 3 * k
    modifies mem
    ensures |mem.cells| == |old(mem.cells)| && Keeps(old(mem.cells), mem.cells, z, m)
    ensures Sg(zp, W(mem.cells, z, m)) == k
  {
    hide W, P, Sh, Up, Above;
    ghost var v := W(mem.cells, z, m);
    AboveZero(mem.cells, z, m);
    var r := DivremSingle1(mem, z, z, m, 0, 3);
    assert 3 * W(mem.cells, z, m) + r == v;
  }

  /** bary_small_rshift by one bit, when the number is even */
  method HalfOf(mem: Memory, z: nat, m: nat, zp: bool, ghost k: int)
    requires 0 < m && z + m <= |mem.cells| && Sg(zp, W(mem.cells, z, m)) == 2 * k
    modifies mem
    ensures |mem.cells| == |old(mem.cells)| && Keeps(old(mem.cells), mem.cells, z, m)
    ensures Sg(zp, W(mem.cells, z, m)) == k
  {
    hide W, P, Sh, Up, Above, Mul;
    ghost var c0 := mem.cells;
    AboveZero(c0, z, m);
    TwoAndThree();
    SmallRshift(mem, z, z, m, 2, 0);
    AboveZero(mem.cells, z, m);
    MulIs(2, W(mem.cells, z, m));
    assert 2 * W(mem.cells, z, m) + c0[z] % 2 == W(c0, z, m);
  }

  /** z <- z + 2*t */
  method AddTwice(mem: Memory, z: nat, zp0: bool, t: nat, tn: nat) returns (zp: bool)
    requires 0 < tn && z + tn + 1 <= |mem.cells| && t + tn <= |mem.cells| && ReadsAhead(z, t, tn)
    requires W(mem.cells, z, tn + 1) + 2 * W(mem.cells, t, tn) < P(tn + 1)
    modifies mem
    ensures |mem.cells| == |old(mem.cells)| && Keeps(old(mem.cells), mem.cells, z, tn + 1)
    ensures Sg(zp, W(mem.cells, z, tn + 1)) == Sg(zp0, old(W(mem.cells, z, tn + 1))) + 2 * old(W(mem.cells, t, tn))
  {
    hide W, P, Sh, Up;
    ghost var c0 := mem.cells;
    zp := zp0;
    if zp {
      var c := MulAdd1xN(mem, z, tn + 1, 2, t, tn);
      NoWrap(W(mem.cells, z, tn + 1), c, W(c0, z, tn + 1) + 2 * W(c0, t, tn), tn + 1);
    } else {
      var c := MulSub1xN(mem, z, 2, t, tn);
      ShUnit(tn + 1);
      if c != 0 {
        var zero := TwoComp(mem, z, tn + 1);
        zp := !zp;
        KeepsIntro(c0, mem.cells, z, tn + 1);
      }
    }
  }

  /** The work windows of the interpolation, in the order of their allocation */
  predicate Layout(size: nat, n: nat, t0: nat, t1: nat, t2: nat, t3: nat, t4: nat, z1: nat, z2: nat, z3: nat) {
    && 0 < n && t0 + 2 * n <= t1 && t1 + 2 * n + 2 <= t2 && t2 + 2 * n + 2 <= t3 && t3 + 2 * n + 2 <= t4
    && t4 + 2 * n <= z1 && z1 + 2 * n + 1 == z2 && z2 + 2 * n + 1 == z3 && z3 + 2 * n + 1 <= size
  }

  /** The five point values as left by the multiplications, in terms of the coefficients of the
      product polynomial k0 + k1*b + k2*b^2 + k3*b^3 + k4*b^4 */
  ghost predicate Points(c: seq<Digit>, n: nat, t0: nat, t1: nat, t2: nat, t2p: bool, t3: nat, t3p: bool, t4: nat,
                         k0: int, k1: int, k2: int, k3: int, k4: int)
    requires t0 + 2 * n <= |c| && t1 + 2 * n + 1 <= |c| && t2 + 2 * n + 1 <= |c| && t3 + 2 * n + 1 <= |c|
    requires t4 + 2 * n <= |c|
  {
    && W(c, t0, 2 * n) == k0 && W(c, t4, 2 * n) == k4
    && W(c, t1, 2 * n + 1) == k0 + k1 + k2 + k3 + k4
    && Sg(t2p, W(c, t2, 2 * n + 1)) == k0 - k1 + k2 - k3 + k4
    && Sg(t3p, W(c, t3, 2 * n + 1)) == k0 - 2 * k1 + 4 * k2 - 8 * k3 + 16 * k4
  }

  /** The coefficients are products of parts of at most n digits, added up. */
  ghost predicate Small(n: nat, k0: int, k1: int, k2: int, k3: int, k4: int) {
    && 0 <= k0 < P(2 * n) && 0 <= k1 <= 2 * P(2 * n) && 0 <= k2 <= 3 * P(2 * n)
    && 0 <= k3 <= 2 * P(2 * n) && 0 <= k4 < P(2 * n)
  }

  lemma PointsKept(c: seq<Digit>, c': seq<Digit>, p: nat, m: nat, n: nat, t0: nat, t1: nat, t2: nat, t2p: bool,
                   t3: nat, t3p: bool, t4: nat,
                   z1: nat, z2: nat, z3: nat, k0: int, k1: int, k2: int, k3: int, k4: int)
    requires Layout(|c|, n, t0, t1, t2, t3, t4, z1, z2, z3) && z1 <= p && Keeps(c, c', p, m)
    requires Points(c, n, t0, t1, t2, t2p, t3, t3p, t4, k0, k1, k2, k3, k4)
    ensures |c| <= |c'| && Points(c', n, t0, t1, t2, t2p, t3, t3p, t4, k0, k1, k2, k3, k4)
  {
    hide W, P, Sh;
  }

  /** z <- (a - b) / 3, an exact division */
  method SubThird(mem: Memory, z: nat, m: nat, a: nat, ap: bool, b: nat, bp: bool, ghost k: int) returns (zp: bool)
    requires 0 < m && z + m <= |mem.cells| && a + m <= |mem.cells| && b + m <= |mem.cells|
    requires ReadsAhead(z, a, m) && ReadsAhead(z, b, m) && W(mem.cells, a, m) + W(mem.cells, b, m) < P(m)
    requires Sg(ap, W(mem.cells, a, m)) - Sg(bp, W(mem.cells, b, m)) == 3 * k
    modifies mem
    ensures |mem.cells| == |old(mem.cells)| && Keeps(old(mem.cells), mem.cells, z, m)
    ensures Sg(zp, W(mem.cells, z, m)) == k
  {
    hide W, P, Sh, Up, Sg;
    ghost var c0 := mem.cells;
    zp := SignedSub(mem, z, m, a, m, ap, b, m, bp);
    ThirdOf(mem, z, m, zp, k);
    KeepsIntro(c0, mem.cells, z, m);
  }

  /** z <- (a - b) / 2, an exact division */
  method SubHalf(mem: Memory, z: nat, m: nat, a: nat, ap: bool, b: nat, bp: bool, ghost k: int) returns (zp: bool)
    requires 0 < m && z + m <= |mem.cells| && a + m <= |mem.cells| && b + m <= |mem.cells|
    requires ReadsAhead(z, a, m) && ReadsAhead(z, b, m) && W(mem.cells, a, m) + W(mem.cells, b, m) < P(m)
    requires Sg(ap, W(mem.cells, a, m)) - Sg(bp, W(mem.cells, b, m)) == 2 * k
    modifies mem
    ensures |mem.cells| == |old(mem.cells)| && Keeps(old(mem.cells), mem.cells, z, m)
    ensures Sg(zp, W(mem.cells, z, m)) == k
  {
    hide W, P, Sh, Up, Sg;
    ghost var c0 := mem.cells;
    zp := SignedSub(mem, z, m, a, m, ap, b, m, bp);
    HalfOf(mem, z, m, zp, k);
    KeepsIntro(c0, mem.cells, z, m);
  }

  method ThirdOfDifference(mem: Memory, n: nat, t0: nat, t1: nat, t2: nat, t2p: bool, t3: nat, t3p: bool, t4: nat,
                     z1: nat, z2: nat, z3: nat,
                     ghost k0: int, ghost k1: int, ghost k2: int, ghost k3: int, ghost k4: int)
    returns (z3p: bool)
    requires Layout(|mem.cells|, n, t0, t1, t2, t3, t4, z1, z2, z3) && Small(n, k0, k1, k2, k3, k4)
    requires Points(mem.cells, n, t0, t1, t2, t2p, t3, t3p, t4, k0, k1, k2, k3, k4)
    modifies mem
    ensures |mem.cells| == |old(mem.cells)| && Keeps(old(mem.cells), mem.cells, z3, 2 * n + 1)
    ensures Points(mem.cells, n, t0, t1, t2, t2p, t3, t3p, t4, k0, k1, k2, k3, k4)
    ensures Sg(z3p, W(mem.cells, z3, 2 * n + 1)) == k2 - k1 - 3 * k3 + 5 * k4
  {
    hide W, P, Sh, Up, Keeps;
    ghost var c0 := mem.cells;
    var m := 2 * n + 1;
    Room(2 * n, 100);
    SgBound(t3p, W(c0, t3, m), k0 - 2 * k1 + 4 * k2 - 8 * k3 + 16 * k4);
    z3p := SubThird(mem, z3, m, t3, t3p, t1, true, k2 - k1 - 3 * k3 + 5 * k4);
    PointsKept(c0, mem.cells, z3, m, n, t0, t1, t2, t2p, t3, t3p, t4, z1, z2, z3, k0, k1, k2, k3, k4);
  }

  method HalfOfDifference(mem: Memory, n: nat, t0: nat, t1: nat, t2: nat, t2p: bool, t3: nat, t3p: bool, t4: nat,
                     z1: nat, z2: nat, z3: nat,
                     ghost k0: int, ghost k1: int, ghost k2: int, ghost k3: int, ghost k4: int)
    returns (z1p: bool)
    requires Layout(|mem.cells|, n, t0, t1, t2, t3, t4, z1, z2, z3) && Small(n, k0, k1, k2, k3, k4)
    requires Points(mem.cells, n, t0, t1, t2, t2p, t3, t3p, t4, k0, k1, k2, k3, k4)
    modifies mem
    ensures |mem.cells| == |old(mem.cells)| && Keeps(old(mem.cells), mem.cells, z1, 2 * n + 1)
    ensures Points(mem.cells, n, t0, t1, t2, t2p, t3, t3p, t4, k0, k1, k2, k3, k4)
    ensures Sg(z1p, W(mem.cells, z1, 2 * n + 1)) == k1 + k3
  {
    hide W, P, Sh, Up, Keeps;
    ghost var c0 := mem.cells;
    var m := 2 * n + 1;
    Room(2 * n, 100);
    SgBound(t2p, W(c0, t2, m), k0 - k1 + k2 - k3 + k4);
    z1p := SubHalf(mem, z1, m, t1, true, t2, t2p, k1 + k3);
    PointsKept(c0, mem.cells, z1, m, n, t0, t1, t2, t2p, t3, t3p, t4, z1, z2, z3, k0, k1, k2, k3, k4);
  }

  method PointMinusConstant(mem: Memory, n: nat, t0: nat, t1: nat, t2: nat, t2p: bool, t3: nat, t3p: bool, t4: nat,
                     z1: nat, z2: nat, z3: nat,
                     ghost k0: int, ghost k1: int, ghost k2: int, ghost k3: int, ghost k4: int)
    returns (z2p: bool)
    requires Layout(|mem.cells|, n, t0, t1, t2, t3, t4, z1, z2, z3) && Small(n, k0, k1, k2, k3, k4)
    requires Points(mem.cells, n, t0, t1, t2, t2p, t3, t3p, t4, k0, k1, k2, k3, k4)
    modifies mem
    ensures |mem.cells| == |old(mem.cells)| && Keeps(old(mem.cells), mem.cells, z2, 2 * n + 1)
    ensures Points(mem.cells, n, t0, t1, t2, t2p, t3, t3p, t4, k0, k1, k2, k3, k4)
    ensures Sg(z2p, W(mem.cells, z2, 2 * n + 1)) == k2 + k4 - k1 - k3
  {
    hide W, P, Sh, Up, Keeps;
    ghost var c0 := mem.cells;
    var m := 2 * n + 1;
    Room(2 * n, 100);
    SgBound(t2p, W(c0, t2, m), k0 - k1 + k2 - k3 + k4);
    z2p := SignedSub(mem, z2, m, t2, m, t2p, t0, 2 * n, true);
    PointsKept(c0, mem.cells, z2, m, n, t0, t1, t2, t2p, t3, t3p, t4, z1, z2, z3, k0, k1, k2, k3, k4);
  }

  /** [Step2] of bary_mul_toom3, first half: z1 = k1 + k3, z2 = -k1 + k2 - k3 + k4 and
      z3 = -k1 + k2 - 3*k3 + 5*k4.  Both divisions are exact. */
  method InterpolateFirst(mem: Memory, n: nat, t0: nat, t1: nat, t2: nat, t2p: bool, t3: nat, t3p: bool, t4: nat,
                          z1: nat, z2: nat, z3: nat,
                     ghost k0: int, ghost k1: int, ghost k2: int, ghost k3: int, ghost k4: int)
    returns (z1p: bool, z2p: bool, z3p: bool)
    requires Layout(|mem.cells|, n, t0, t1, t2, t3, t4, z1, z2, z3) && Small(n, k0, k1, k2, k3, k4)
    requires Points(mem.cells, n, t0, t1, t2, t2p, t3, t3p, t4, k0, k1, k2, k3, k4)
    modifies mem
    ensures |mem.cells| == |old(mem.cells)| && Keeps(old(mem.cells), mem.cells, z1, 6 * n + 3)
    ensures Sg(z1p, W(mem.cells, z1, 2 * n + 1)) == k1 + k3
    ensures Sg(z2p, W(mem.cells, z2, 2 * n + 1)) == k2 + k4 - k1 - k3
    ensures Sg(z3p, W(mem.cells, z3, 2 * n + 1)) == k2 - k1 - 3 * k3 + 5 * k4
  {
    hide W, P, Sh, Up, Keeps, Points, Small, Sg;
    ghost var c0 := mem.cells;
    var m := 2 * n + 1;
    z3p := ThirdOfDifference(mem, n, t0, t1, t2, t2p, t3, t3p, t4, z1, z2, z3, k0, k1, k2, k3, k4);
    ghost var c1 := mem.cells;
    z1p := HalfOfDifference(mem, n, t0, t1, t2, t2p, t3, t3p, t4, z1, z2, z3, k0, k1, k2, k3, k4);
    ghost var c2 := mem.cells;
    z2p := PointMinusConstant(mem, n, t0, t1, t2, t2p, t3, t3p, t4, z1, z2, z3, k0, k1, k2, k3, k4);
    WindowKept(c1, c2, z1, m, z3, m);
    WindowKept(c2, mem.cells, z2, m, z3, m);
    WindowKept(c2, mem.cells, z2, m, z1, m);
    KeepsThree(c0, c1, c2, mem.cells, z1, z2, z3, m);
  }

  lemma KeepsThree(c0: seq<Digit>, c1: seq<Digit>, c2: seq<Digit>, c3: seq<Digit>, z1: nat, z2: nat, z3: nat, m: nat)
    requires |c3| == |c2| == |c1| == |c0| && z1 + m == z2 && z2 + m == z3
    requires Keeps(c0, c1, z3, m) && Keeps(c1, c2, z1, m) && Keeps(c2, c3, z2, m)
    ensures Keeps(c0, c3, z1, 3 * m)
  {
    KeepsIntro(c0, c3, z1, 3 * m);
  }

  /** The magnitudes left by the first half are far below the size of their windows. */
  lemma SecondBounds(n: nat, k0: int, k1: int, k2: int, k3: int, k4: int, p1: bool, w1: nat, p2: bool, w2: nat,
                     p3: bool, w3: nat)
    requires Small(n, k0, k1, k2, k3, k4) && Sg(p1, w1) == k1 + k3
    requires Sg(p2, w2) == k2 + k4 - k1 - k3 && Sg(p3, w3) == k2 - k1 - 3 * k3 + 5 * k4
    ensures w2 + w3 < P(2 * n + 1) && w1 + w2 < P(2 * n + 1) && w1 + k3 < P(2 * n + 1) && 0 <= k3 <= 2 * P(2 * n)
    ensures 0 <= k2 <= 3 * P(2 * n) && 0 <= k4 < P(2 * n)
  {
    hide P;
    Room(2 * n, 100);
  }

  /** z1 <- z1 - z3 */
  method FirstCoefficient(mem: Memory, n: nat, z1: nat, z1p0: bool, z3: nat, z3p: bool, ghost k1: int, ghost k3: int)
    returns (z1p: bool)
    requires z1 + 2 * n + 1 <= z3 && z3 + 2 * n + 1 <= |mem.cells| && k3 >= 0
    requires Sg(z1p0, W(mem.cells, z1, 2 * n + 1)) == k1 + k3 && Sg(z3p, W(mem.cells, z3, 2 * n + 1)) == k3
    requires W(mem.cells, z1, 2 * n + 1) + k3 < P(2 * n + 1)
    modifies mem
    ensures |mem.cells| == |old(mem.cells)| && Keeps(old(mem.cells), mem.cells, z1, 2 * n + 1)
    ensures Sg(z1p, W(mem.cells, z1, 2 * n + 1)) == k1
  {
    hide W, P, Sh, Up, Keeps;
    var m := 2 * n + 1;
    SgBound(z3p, W(mem.cells, z3, m), k3);
    z1p := SignedSub(mem, z1, m, z1, m, z1p0, z3, m, z3p);
  }

  /** [Step2], second half: z3 = k3, z2 = k2, z1 = k1 */
  method InterpolateSecond(mem: Memory, n: nat, t4: nat, z1: nat, z1p0: bool, z2: nat, z2p0: bool, z3: nat, z3p0: bool,
                           ghost k0: int, ghost k1: int, ghost k2: int, ghost k3: int, ghost k4: int)
    returns (z1p: bool, z2p: bool, z3p: bool)
    requires 0 < n && t4 + 2 * n <= z1 && z1 + 2 * n + 1 == z2 && z2 + 2 * n + 1 == z3 && z3 + 2 * n + 1 <= |mem.cells|
    requires Small(n, k0, k1, k2, k3, k4) && W(mem.cells, t4, 2 * n) == k4
    requires Sg(z1p0, W(mem.cells, z1, 2 * n + 1)) == k1 + k3
    requires Sg(z2p0, W(mem.cells, z2, 2 * n + 1)) == k2 + k4 - k1 - k3
    requires Sg(z3p0, W(mem.cells, z3, 2 * n + 1)) == k2 - k1 - 3 * k3 + 5 * k4
    modifies mem
    ensures |mem.cells| == |old(mem.cells)| && Keeps(old(mem.cells), mem.cells, z1, 6 * n + 3)
    ensures Sg(z1p, W(mem.cells, z1, 2 * n + 1)) == k1
    ensures Sg(z2p, W(mem.cells, z2, 2 * n + 1)) == k2
    ensures Sg(z3p, W(mem.cells, z3, 2 * n + 1)) == k3
  {
    hide W, P, Sh, Up, Keeps, Small, Sg;
    ghost var c0 := mem.cells;
    var m := 2 * n + 1;
    SecondBounds(n, k0, k1, k2, k3, k4, z1p0, W(c0, z1, m), z2p0, W(c0, z2, m), z3p0, W(c0, z3, m));
    z3p := ThirdCoefficient(mem, n, t4, z2, z2p0, z3, z3p0, k3, k4);
    ghost var c1 := mem.cells;
    WindowKept(c0, c1, z3, m, z1, m);
    WindowKept(c0, c1, z3, m, z2, m);
    WindowKept(c0, c1, z3, m, t4, 2 * n);
    z2p := SecondCoefficient(mem, n, t4, z1, z1p0, z2, z2p0, k2, k4);
    ghost var c2 := mem.cells;
    WindowKept(c1, c2, z2, m, z1, m);
    WindowKept(c1, c2, z2, m, z3, m);
    z1p := FirstCoefficient(mem, n, z1, z1p0, z3, z3p, k1, k3);
    WindowKept(c2, mem.cells, z1, m, z2, m);
    WindowKept(c2, mem.cells, z1, m, z3, m);
    KeepsThree'(c0, c1, c2, mem.cells, z1, z2, z3, m);
  }

  lemma KeepsThree'(c0: seq<Digit>, c1: seq<Digit>, c2: seq<Digit>, c3: seq<Digit>, z1: nat, z2: nat, z3: nat, m: nat)
    requires |c3| == |c2| == |c1| == |c0| && z1 + m == z2 && z2 + m == z3
    requires Keeps(c0, c1, z3, m) && Keeps(c1, c2, z2, m) && Keeps(c2, c3, z1, m)
    ensures Keeps(c0, c3, z1, 3 * m)
  {
    KeepsIntro(c0, c3, z1, 3 * m);
  }

  /** z3 <- (z2 - z3) / 2 + 2*t4 */
  method ThirdCoefficient(mem: Memory, n: nat, t4: nat, z2: nat, z2p: bool, z3: nat, z3p0: bool, ghost k3: int,
                          ghost k4: int)
    returns (z3p: bool)
    requires 0 < n && t4 + 2 * n <= z2 && z2 + 2 * n + 1 == z3 && z3 + 2 * n + 1 <= |mem.cells|
    requires W(mem.cells, t4, 2 * n) == k4
    requires W(mem.cells, z2, 2 * n + 1) + W(mem.cells, z3, 2 * n + 1) < P(2 * n + 1)
    requires 0 <= k3 <= 2 * P(2 * n) && k4 < P(2 * n)
    requires Sg(z2p, W(mem.cells, z2, 2 * n + 1)) - Sg(z3p0, W(mem.cells, z3, 2 * n + 1)) == 2 * (k3 - 2 * k4)
    modifies mem
    ensures |mem.cells| == |old(mem.cells)| && Keeps(old(mem.cells), mem.cells, z3, 2 * n + 1)
    ensures Sg(z3p, W(mem.cells, z3, 2 * n + 1)) == k3
  {
    hide W, P, Sh, Up;
    ghost var c0 := mem.cells;
    var m := 2 * n + 1;
    Room(2 * n, 100);
    z3p := SubHalf(mem, z3, m, z2, z2p, z3, z3p0, k3 - 2 * k4);
    SgBound(z3p, W(mem.cells, z3, m), k3 - 2 * k4);
    assert W(mem.cells, t4, 2 * n) == k4;
    z3p := AddTwice(mem, z3, z3p, t4, 2 * n);
    KeepsIntro(c0, mem.cells, z3, m);
  }

  /** z2 <- z2 + z1 - t4 */
  method SecondCoefficient(mem: Memory, n: nat, t4: nat, z1: nat, z1p: bool, z2: nat, z2p0: bool, ghost k2: int,
                           ghost k4: int)
    returns (z2p: bool)
    requires 0 < n && t4 + 2 * n <= z1 && z1 + 2 * n + 1 == z2 && z2 + 2 * n + 1 <= |mem.cells|
    requires W(mem.cells, t4, 2 * n) == k4
    requires W(mem.cells, z1, 2 * n + 1) + W(mem.cells, z2, 2 * n + 1) < P(2 * n + 1)
    requires 0 <= k2 <= 3 * P(2 * n) && 0 <= k4 < P(2 * n)
    requires Sg(z2p0, W(mem.cells, z2, 2 * n + 1)) + Sg(z1p, W(mem.cells, z1, 2 * n + 1)) == k2 + k4
    modifies mem
    ensures |mem.cells| == |old(mem.cells)| && Keeps(old(mem.cells), mem.cells, z2, 2 * n + 1)
    ensures Sg(z2p, W(mem.cells, z2, 2 * n + 1)) == k2
  {
    hide W, P, Sh, Up;
    ghost var c0 := mem.cells;
    var m := 2 * n + 1;
    Room(2 * n, 100);
    z2p := SignedSub(mem, z2, m, z2, m, z2p0, z1, m, !z1p);
    SgBound(z2p, W(mem.cells, z2, m), k2 + k4);
    assert W(mem.cells, t4, 2 * n) == k4;
    z2p := SignedSub(mem, z2, m, z2, m, z2p, t4, 2 * n, true);
    KeepsIntro(c0, mem.cells, z2, m);
  }

  /** The coefficients of the product polynomial */
  function K1(x0: int, x1: int, x2: int, y0: int, y1: int, y2: int): int { Mul(x0, y1) + Mul(x1, y0) }
  function K2(x0: int, x1: int, x2: int, y0: int, y1: int, y2: int): int { Mul(x0, y2) + Mul(x1, y1) + Mul(x2, y0) }
  function K3(x0: int, x1: int, x2: int, y0: int, y1: int, y2: int): int { Mul(x1, y2) + Mul(x2, y1) }

  lemma PointProducts(x0: int, x1: int, x2: int, y0: int, y1: int, y2: int)
    ensures var k0, k4 := Mul(x0, y0), Mul(x2, y2);
            var k1, k2 := K1(x0, x1, x2, y0, y1, y2), K2(x0, x1, x2, y0, y1, y2);
            var k3 := K3(x0, x1, x2, y0, y1, y2);
            && Mul(At1(x0, x1, x2), At1(y0, y1, y2)) == k0 + k1 + k2 + k3 + k4
            && Mul(AtM1(x0, x1, x2), AtM1(y0, y1, y2)) == k0 - k1 + k2 - k3 + k4
            && Mul(AtM2(x0, x1, x2), AtM2(y0, y1, y2)) == k0 - 2 * k1 + 4 * k2 - 8 * k3 + 16 * k4
  {
    NineProducts(x0, x1, x2, y0, y1, y2);
    NineProducts(x0, -x1, x2, y0, -y1, y2);
    NineProducts(x0, -2 * x1, 4 * x2, y0, -2 * y1, 4 * y2);
    TwoSigns(x0, x1, x2, y0, y1, y2);
    FourScales(x0, x1, x2, y0, y1, y2);
  }

  lemma NineProducts(a: int, b: int, c: int, d: int, e: int, f: int)
    ensures (a + b + c) * (d + e + f) == a * d + a * e + a * f + b * d + b * e + b * f + c * d + c * e + c * f
  {
    Distrib(a + b, c, d + e + f);
    Distrib(a, b, d + e + f);
    assert a * (d + e + f) == a * d + a * e + a * f;
    assert b * (d + e + f) == b * d + b * e + b * f;
    assert c * (d + e + f) == c * d + c * e + c * f;
  }

  lemma TwoSigns(x0: int, x1: int, x2: int, y0: int, y1: int, y2: int)
    ensures x0 * -y1 == -(x0 * y1) && -x1 * y0 == -(x1 * y0) && -x1 * -y1 == x1 * y1 && -x1 * y2 == -(x1 * y2)
    ensures x2 * -y1 == -(x2 * y1)
  {
  }

  lemma FourScales(x0: int, x1: int, x2: int, y0: int, y1: int, y2: int)
    ensures x0 * (-2 * y1) == -2 * (x0 * y1) && x0 * (4 * y2) == 4 * (x0 * y2)
    ensures -2 * x1 * y0 == -2 * (x1 * y0) && -2 * x1 * (-2 * y1) == 4 * (x1 * y1)
    ensures -2 * x1 * (4 * y2) == -8 * (x1 * y2)
    ensures 4 * x2 * y0 == 4 * (x2 * y0) && 4 * x2 * (-2 * y1) == -8 * (x2 * y1) && 4 * x2 * (4 * y2) == 16 * (x2 * y2)
  {
  }

  lemma SgProduct(p: bool, a: nat, q: bool, b: nat)
    ensures Sg(p == q, Mul(a, b)) == Mul(Sg(p, a), Sg(q, b))
  {
  }

  lemma CoefficientsSmall(n: nat, x0: int, x1: int, x2: int, y0: int, y1: int, y2: int)
    requires 0 <= x0 < P(n) && 0 <= x1 < P(n) && 0 <= x2 < P(n) && 0 <= y0 < P(n) && 0 <= y1 < P(n) && 0 <= y2 < P(n)
    ensures Small(n, Mul(x0, y0), K1(x0, x1, x2, y0, y1, y2), K2(x0, x1, x2, y0, y1, y2),
                  K3(x0, x1, x2, y0, y1, y2), Mul(x2, y2))
  {
    hide P, Mul;
    PartProduct(n, x0, y0);
    PartProduct(n, x0, y1);
    PartProduct(n, x0, y2);
    PartProduct(n, x1, y0);
    PartProduct(n, x1, y1);
    PartProduct(n, x1, y2);
    PartProduct(n, x2, y0);
    PartProduct(n, x2, y1);
    PartProduct(n, x2, y2);
  }

  lemma PartProduct(n: nat, a: int, b: int)
    requires 0 <= a < P(n) && 0 <= b < P(n)
    ensures 0 <= Mul(a, b) < P(2 * n)
  {
    PAdd(n, n);
    MulLe(0, a, b);
    hide P;
    MulLt(a, P(n), b, P(n));
  }

  /** Substituting B^n for b in the product polynomial gives the product. */
  lemma ToomIdentity(x0: int, x1: int, x2: int, y0: int, y1: int, y2: int, n: nat)
    ensures Mul(x0 + Sh(x1, n) + Sh(x2, 2 * n), y0 + Sh(y1, n) + Sh(y2, 2 * n))
         == Mul(x0, y0) + Sh(K1(x0, x1, x2, y0, y1, y2), n) + Sh(K2(x0, x1, x2, y0, y1, y2), 2 * n)
            + Sh(K3(x0, x1, x2, y0, y1, y2), 3 * n) + Sh(Mul(x2, y2), 4 * n)
  {
    var r := P(n);
    PAdd(n, n);
    PAdd(2 * n, n);
    PAdd(2 * n, 2 * n);
    NineProducts(x0, x1 * r, x2 * (r * r), y0, y1 * r, y2 * (r * r));
    ShiftedTerms(x0, x1, x2, y0, y1, y2, r);
    Distrib(x0 * y1, x1 * y0, r);
    Distrib(x0 * y2 + x1 * y1, x2 * y0, r * r);
    Distrib(x0 * y2, x1 * y1, r * r);
    Distrib(x1 * y2, x2 * y1, r * r * r);
  }

  lemma ShiftedTerms(x0: int, x1: int, x2: int, y0: int, y1: int, y2: int, r: int)
    ensures x0 * (y1 * r) == x0 * y1 * r && x0 * (y2 * (r * r)) == x0 * y2 * (r * r)
    ensures x1 * r * y0 == x1 * y0 * r && x1 * r * (y1 * r) == x1 * y1 * (r * r)
    ensures x1 * r * (y2 * (r * r)) == x1 * y2 * (r * r * r)
    ensures x2 * (r * r) * y0 == x2 * y0 * (r * r) && x2 * (r * r) * (y1 * r) == x2 * y1 * (r * r * r)
    ensures x2 * (r * r) * (y2 * (r * r)) == x2 * y2 * (r * r * (r * r))
  {
    CommuteLast(x1, r, y0);
    CommuteLast(x2, r * r, y0);
    Commute4(x1, r, y1, r);
    Commute4(x1, r, y2, r * r);
    Commute4(x2, r * r, y1, r);
    Commute4(x2, r * r, y2, r * r);
  }

  lemma CommuteLast(a: int, b: int, c: int)
    ensures a * b * c == a * c * b
  {
    assert a * (b * c) == a * (c * b);
  }

  /** The five products as the recursive multiplications leave them; the top digits of the
      products at 1, -1 and -2 are 0. */
  lemma PointsFromProducts(c: seq<Digit>, n: nat, u1: nat, u2: nat, u2p: bool, u3: nat, u3p: bool, v1: nat, v2: nat,
                           v2p: bool, v3: nat, v3p: bool,
                           t0: nat, t1: nat, t2: nat, t3: nat, t4: nat,
                           x0: int, x1: int, x2: int, y0: int, y1: int, y2: int)
    requires u1 + n + 1 <= |c| && u2 + n + 1 <= |c| && u3 + n + 1 <= |c| && v1 + n + 1 <= |c| && v2 + n + 1 <= |c|
    requires v3 + n + 1 <= |c|
    requires t0 + 2 * n <= |c| && t1 + 2 * n + 2 <= |c| && t2 + 2 * n + 2 <= |c| && t3 + 2 * n + 2 <= |c|
    requires t4 + 2 * n <= |c|
    requires 0 <= x0 < P(n) && 0 <= x1 < P(n) && 0 <= x2 < P(n) && 0 <= y0 < P(n) && 0 <= y1 < P(n) && 0 <= y2 < P(n)
    requires Evaluated(c, u1, u2, u2p, u3, u3p, n, x0, x1, x2) && Evaluated(c, v1, v2, v2p, v3, v3p, n, y0, y1, y2)
    requires W(c, t0, 2 * n) == Mul(x0, y0) && W(c, t4, 2 * n) == Mul(x2, y2)
    requires W(c, t1, 2 * n + 2) == Mul(W(c, u1, n + 1), W(c, v1, n + 1))
    requires W(c, t2, 2 * n + 2) == Mul(W(c, u2, n + 1), W(c, v2, n + 1))
    requires W(c, t3, 2 * n + 2) == Mul(W(c, u3, n + 1), W(c, v3, n + 1))
    ensures c[t1 + 2 * n + 1] == c[t2 + 2 * n + 1] == c[t3 + 2 * n + 1] == 0
    ensures Points(c, n, t0, t1, t2, u2p == v2p, t3, u3p == v3p, t4, Mul(x0, y0), K1(x0, x1, x2, y0, y1, y2),
                   K2(x0, x1, x2, y0, y1, y2), K3(x0, x1, x2, y0, y1, y2), Mul(x2, y2))
    ensures Small(n, Mul(x0, y0), K1(x0, x1, x2, y0, y1, y2), K2(x0, x1, x2, y0, y1, y2),
                  K3(x0, x1, x2, y0, y1, y2), Mul(x2, y2))
  {
    hide W, P, Sh, Mul, K1, K2, K3;
    CoefficientsSmall(n, x0, x1, x2, y0, y1, y2);
    PointProducts(x0, x1, x2, y0, y1, y2);
    SgProduct(u2p, W(c, u2, n + 1), v2p, W(c, v2, n + 1));
    SgProduct(u3p, W(c, u3, n + 1), v3p, W(c, v3, n + 1));
    Room(2 * n, 100);
    TopDigitZero(c, t1, n, W(c, t1, 2 * n + 2));
    TopDigitZero(c, t2, n, W(c, t2, 2 * n + 2));
    TopDigitZero(c, t3, n, W(c, t3, 2 * n + 2));
  }

  lemma TopDigitZero(c: seq<Digit>, t: nat, n: nat, v: nat)
    requires t + 2 * n + 2 <= |c| && W(c, t, 2 * n + 2) == v < P(2 * n + 1)
    ensures c[t + 2 * n + 1] == 0 && W(c, t, 2 * n + 1) == v
  {
    WNext(c, t, 2 * n + 1);
    var d := c[t + 2 * n + 1];
    if d > 0 { MulLe(1, d, P(2 * n + 1)); }
  }

  /** Adds one coefficient at its place; a negative flag can only mean zero. */
  method AddCoefficient(mem: Memory, zz: nat, zzn: nat, i: nat, z1: nat, m: nat, z1p: bool, ghost k: int)
    requires i + m <= zzn && zz + zzn <= |mem.cells| && z1 + m <= |mem.cells| && Apart(zz, zzn, z1, m)
    requires 0 <= k && Sg(z1p, W(mem.cells, z1, m)) == k && W(mem.cells, zz, zzn) + Sh(k, i) < P(zzn)
    modifies mem
    ensures |mem.cells| == |old(mem.cells)| && Keeps(old(mem.cells), mem.cells, zz, zzn)
    ensures W(mem.cells, zz, zzn) == old(W(mem.cells, zz, zzn)) + Sh(k, i)
  {
    hide W, P, Sh, Up;
    ghost var c0 := mem.cells;
    ShNonNeg(k, i);
    var n := zzn - i;
    if z1p {
      var c := Add(mem, zz + i, n, zz + i, n, z1, m);
      AddInside(c0, mem.cells, zz, zzn, i, n, k - Sh(c, n));
      ShAdd(k, Sh(c, n), i);
      ShSh(c, n, i);
      NoWrap(W(mem.cells, zz, zzn), c, W(c0, zz, zzn) + Sh(k, i), zzn);
    } else {
      var c := Sub(mem, zz + i, n, zz + i, n, z1, m);
      ShUnit(n);
      ShUnit(i);
      AddInside(c0, mem.cells, zz, zzn, i, n, 0);
    }
    KeepsIntro(c0, mem.cells, zz, zzn);
  }

  /** [Step3]: z0 and z4 side by side with zeros between and above */
  method PlaceEnds(mem: Memory, zz: nat, n: nat, t0: nat, t4: nat)
    requires zz + 6 * n + 1 <= t0 && t0 + 2 * n <= t4 && t4 + 2 * n <= |mem.cells|
    modifies mem
    ensures |mem.cells| == |old(mem.cells)| && Keeps(old(mem.cells), mem.cells, zz, 6 * n + 1)
    ensures W(mem.cells, zz, 6 * n + 1) == old(W(mem.cells, t0, 2 * n)) + Sh(old(W(mem.cells, t4, 2 * n)), 4 * n)
  {
    hide W, P, Sh, Up;
    ghost var c0 := mem.cells;
    CopyPadded(mem, zz, 4 * n, t0, 2 * n);
    assert W(mem.cells, t4, 2 * n) == W(c0, t4, 2 * n);
    ghost var c1 := mem.cells;
    CopyPadded(mem, zz + 4 * n, 2 * n + 1, t4, 2 * n);
    assert W(mem.cells, zz, 4 * n) == W(c1, zz, 4 * n);
    WSplit(mem.cells, zz, 4 * n, 2 * n + 1);
    KeepsIntro(c0, mem.cells, zz, 6 * n + 1);
  }

  /** [Step3] of bary_mul_toom3: the coefficients added up at their places in zz, then moved
      to z. */
  method Recompose(mem: Memory, z: nat, zn: nat, zz: nat, n: nat, t0: nat, t4: nat, z1: nat, z1p: bool, z2: nat,
                   z2p: bool, z3: nat, z3p: bool,
                   ghost k0: int, ghost k1: int, ghost k2: int, ghost k3: int, ghost k4: int,
                   ghost v: int, ghost len: nat)
    requires 0 < n && zz + 6 * n + 1 <= t0 && t0 + 2 * n <= t4 && t4 + 2 * n <= z1 && z1 + 2 * n + 1 == z2
    requires z2 + 2 * n + 1 == z3
    requires z3 + 2 * n + 1 <= |mem.cells| && z + zn <= |mem.cells| && Apart(z, zn, zz, z3 + 2 * n + 1 - zz)
    requires W(mem.cells, t0, 2 * n) == k0 && W(mem.cells, t4, 2 * n) == k4
    requires 0 <= k1 && Sg(z1p, W(mem.cells, z1, 2 * n + 1)) == k1
    requires 0 <= k2 && Sg(z2p, W(mem.cells, z2, 2 * n + 1)) == k2
    requires 0 <= k3 && Sg(z3p, W(mem.cells, z3, 2 * n + 1)) == k3
    requires v == k0 + Sh(k1, n) + Sh(k2, 2 * n) + Sh(k3, 3 * n) + Sh(k4, 4 * n) && 0 <= v < P(len) && len <= zn
    requires len <= 6 * n
    modifies mem
    ensures |mem.cells| == |old(mem.cells)| && Keeps2(old(mem.cells), mem.cells, z, zn, zz, 6 * n + 1)
    ensures W(mem.cells, z, zn) == v
  {
    hide W, P, Sh, Up, Keeps, Sg;
    ghost var c0 := mem.cells;
    var zzn, m := 6 * n + 1, 2 * n + 1;
    PMono(len, zzn);
    ShNonNeg(k1, n);
    ShNonNeg(k2, 2 * n);
    ShNonNeg(k3, 3 * n);
    PlaceEnds(mem, zz, n, t0, t4);
    ghost var c1 := mem.cells;
    CoefficientsKept(c0, c1, zz, zzn, z1, z2, z3, m);
    AddCoefficient(mem, zz, zzn, n, z1, m, z1p, k1);
    ghost var c2 := mem.cells;
    CoefficientsKept(c1, c2, zz, zzn, z1, z2, z3, m);
    AddCoefficient(mem, zz, zzn, 2 * n, z2, m, z2p, k2);
    ghost var c3 := mem.cells;
    CoefficientsKept(c2, c3, zz, zzn, z1, z2, z3, m);
    AddCoefficient(mem, zz, zzn, 3 * n, z3, m, z3p, k3);
    ghost var c4 := mem.cells;
    var tn := Trunc(mem, zz, zzn);
    TruncatedLength(c4, zz, tn, len);
    CopyPadded(mem, z, zn, zz, tn);
    KeepsFive(c0, c1, c2, c3, c4, mem.cells, z, zn, zz, zzn);
  }

  lemma CoefficientsKept(c: seq<Digit>, c': seq<Digit>, zz: nat, zzn: nat, z1: nat, z2: nat, z3: nat, m: nat)
    requires Keeps(c, c', zz, zzn) && zz + zzn <= z1 && z1 + m <= z2 && z2 + m <= z3 && z3 + m <= |c| == |c'|
    ensures W(c', z1, m) == W(c, z1, m) && W(c', z2, m) == W(c, z2, m) && W(c', z3, m) == W(c, z3, m)
  {
  }

  lemma KeepsFive(c0: seq<Digit>, c1: seq<Digit>, c2: seq<Digit>, c3: seq<Digit>, c4: seq<Digit>, c5: seq<Digit>,
                  z: nat, zn: nat, zz: nat, zzn: nat)
    requires |c0| == |c1| == |c2| == |c3| == |c4| == |c5|
    requires Keeps(c0, c1, zz, zzn) && Keeps(c1, c2, zz, zzn) && Keeps(c2, c3, zz, zzn) && Keeps(c3, c4, zz, zzn)
    requires Keeps(c4, c5, z, zn)
    ensures Keeps2(c0, c5, z, zn, zz, zzn)
  {
    Keeps2Intro(c0, c5, z, zn, zz, zzn);
  }

  lemma TruncatedLength(c: seq<Digit>, p: nat, n: nat, len: nat)
    requires p + n <= |c| && (n > 0 ==> c[p + n - 1] != 0) && W(c, p, n) < P(len)
    ensures n <= len
  {
    if n > len {
      WNext(c, p, n - 1);
      MulLe(1, c[p + n - 1], P(n - 1));
      PMono(len, n - 1);
    }
  }
}
