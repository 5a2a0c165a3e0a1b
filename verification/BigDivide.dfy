/** Long division: bigdivrem1, bigdivrem_restoring, bary_divmod_normal and bary_divmod. */
module BigDivide {
  import opened Arith
  import opened BDigits
  import opened Bary
  import opened Shift

  /** The trial quotient digit from the two top digits of the dividend and the top digit
      of the divisor. */
  function Trial(zt: Digit, zs: Digit, yt: Digit): (q: int)
    requires 0 < yt
  {
    if zt == yt then B - 1 else (zt * B + zs) / yt
  }

  /** BDIGIT_MSB: the top bit of the digit is set. */
  predicate Normalised(d: int) {
    B <= 2 * d
  }

  /** v = (zt*B + zs)*r + vl is the dividend window, yv = yt*r + yl the divisor. */
  ghost predicate Window(v: nat, yv: nat, zt: Digit, zs: Digit, yt: Digit, vl: nat, yl: nat, r: nat) {
    && v == (zt * B + zs) * r + vl && vl < r
    && yv == yt * r + yl && yl < r
    && v < yv * B
    && Normalised(yt)
  }

  lemma TopOfWindow(v: nat, yv: nat, zt: Digit, zs: Digit, yt: Digit, vl: nat, yl: nat, r: nat)
    requires Window(v, yv, zt, zs, yt, vl, yl, r)
    ensures zt <= yt
  {
    if zt > yt { TopAlgebra(yv, zt, zs, yt, yl, r, B); }
  }

  lemma TopAlgebra(yv: nat, zt: nat, zs: nat, yt: nat, yl: nat, r: nat, b: nat)
    requires yv == yt * r + yl && yl < r && yt < zt
    ensures yv * b <= (zt * b + zs) * r
  {
    var t := yt + 1;
    Distrib(yt, 1, r);
    MulLe(yv, t * r, b);
    assert t * r * b == t * b * r by {
      assert t * r * b == t * (r * b);
      Commute(r, b);
      assert t * b * r == t * (b * r);
    }
    MulLe(t, zt, b);
    MulLe(t * b, zt * b + zs, r);
  }

  /** The trial digit is a digit, and subtracting its multiple of the divisor leaves less
      than the divisor and more than -B^yn: the top word left over is 0 or -1. */
  lemma TrialDigit(v: nat, yv: nat, zt: Digit, zs: Digit, yt: Digit, vl: nat, yl: nat, r: nat)
    requires Window(v, yv, zt, zs, yt, vl, yl, r)
    ensures 0 <= Trial(zt, zs, yt) < B
    ensures 0 - B * r < v - Trial(zt, zs, yt) * yv < yv
  {
    TopOfWindow(v, yv, zt, zs, yt, vl, yl, r);
    var q := Trial(zt, zs, yt);
    var t := zt * B + zs;
    if zt == yt {
      MaxTrial(v, yv, zs, yt, vl, yl, r, B);
    } else {
      QuotientDigit(zt, zs, yt);
      QuotientTrial(v, yv, t, yt, vl, yl, r, q, t % yt, B);
    }
  }

  lemma MaxTrial(v: int, yv: int, zs: nat, yt: nat, vl: nat, yl: nat, r: nat, b: nat)
    requires v == (yt * b + zs) * r + vl && yv == yt * r + yl && yl < r && v < yv * b && 0 < b
    ensures 0 - b * r < v - (b - 1) * yv < yv
  {
    assert (b - 1) * yv == yv * b - yv;
    assert yv * b == yt * r * b + yl * b by { Distrib(yt * r, yl, b); }
    assert (yt * b + zs) * r == yt * b * r + zs * r by { Distrib(yt * b, zs, r); }
    assert yt * b * r == yt * r * b;
    MulLe(0, zs, r);
    MulLe(0, yt, r);
    MulLe(yl, r - 1, b);
    assert (r - 1) * b == b * r - b;
  }

  lemma QuotientTrial(v: int, yv: int, t: nat, yt: nat, vl: nat, yl: nat, r: nat, q: nat, rem: nat, b: nat)
    requires v == t * r + vl && vl < r && yv == yt * r + yl && yl < r
    requires t == yt * q + rem && rem < yt && q < b
    ensures 0 - b * r < v - q * yv < yv
  {
    TrialIdentity(t, r, vl, yt, yl, q, rem);
    MulLe(0, rem, r);
    MulLe(rem + 1, yt, r);
    Distrib(rem, 1, r);
    MulLe(0, q, yl);
    MulLe(q, b, yl);
    MulLe(yl + 1, r, b);
    Distrib(yl, 1, b);
    Commute(b, yl);
    Commute(b, r);
  }

  /** What is left after subtracting the multiple of the divisor */
  lemma TrialIdentity(t: int, r: int, vl: int, yt: int, yl: int, q: int, rem: int)
    requires t == yt * q + rem
    ensures t * r + vl - q * (yt * r + yl) == rem * r + vl - q * yl
  {
    Distrib(yt * q, rem, r);
    assert q * (yt * r + yl) == q * (yt * r) + q * yl;
    assert yt * q * r == q * (yt * r);
  }

  /** The trial digit is never too small and at most 2 too large. */
  lemma TrialError(v: nat, yv: nat, zt: Digit, zs: Digit, yt: Digit, vl: nat, yl: nat, r: nat)
    requires Window(v, yv, zt, zs, yt, vl, yl, r) && 0 < yv
    ensures v / yv <= Trial(zt, zs, yt) <= v / yv + 2
  {
    hide Trial;
    TrialDigit(v, yv, zt, zs, yt, vl, yl, r);
    HalfBound(yt, r, yl, B);
    FloorBound(v, yv, Trial(zt, zs, yt));
  }

  lemma HalfBound(yt: nat, r: nat, yl: nat, b: nat)
    requires b <= 2 * yt
    ensures b * r <= 2 * (yt * r + yl)
  {
    MulLe(b, 2 * yt, r);
    assert 2 * yt * r == 2 * (yt * r);
  }

  lemma FloorBound(v: nat, yv: nat, q: int)
    requires 0 < yv && 0 - 2 * yv < v - q * yv < yv
    ensures v / yv <= q <= v / yv + 2
  {
    var f := v / yv;
    DivModIs(v, yv);
    if f > q {
      MulLe(q + 1, f, yv);
      Distrib(q, 1, yv);
    }
    if q > f + 2 {
      MulLe(f + 3, q, yv);
      Distrib(f, 3, yv);
    }
  }

  /** The digits of a window as Window sees them. */
  lemma WindowOf(c: seq<Digit>, t: nat, y: nat, yn: nat)
    requires 2 <= yn && t + yn + 1 <= |c| && y + yn <= |c|
    requires W(c, t, yn + 1) < W(c, y, yn) * B && Normalised(c[y + yn - 1])
    ensures Window(W(c, t, yn + 1), W(c, y, yn), c[t + yn], c[t + yn - 1], c[y + yn - 1],
                   W(c, t, yn - 1), W(c, y, yn - 1), P(yn - 1))
  {
    WNext(c, t, yn);
    WNext(c, t, yn - 1);
    WNext(c, y, yn - 1);
    var r := P(yn - 1);
    assert P(yn) == B * r;
    TopTwo(c[t + yn], c[t + yn - 1], B, r);
  }

  lemma TopTwo(a: int, d: int, b: int, r: int)
    ensures a * (b * r) + d * r == (a * b + d) * r
  {
    Distrib(a * b, d, r);
    assert a * b * r == a * (b * r);
  }

  /** One turn of the loop of bigdivrem1 on the yn+1 digits at t: the top digit is replaced
      by the quotient digit and the others by the remainder. */
  method DivideStep(mem: Memory, t: nat, y: nat, yn: nat)
    requires 2 <= yn && t + yn + 1 <= |mem.cells| && y + yn <= |mem.cells|
    requires Apart(t, yn + 1, y, yn)
    requires Normalised(mem.cells[y + yn - 1])
    requires W(mem.cells, t, yn + 1) < W(mem.cells, y, yn) * B
    modifies mem
    ensures |mem.cells| == |old(mem.cells)| && Keeps(old(mem.cells), mem.cells, t, yn + 1)
    ensures old(W(mem.cells, t, yn + 1)) == mem.cells[t + yn] * W(mem.cells, y, yn) + W(mem.cells, t, yn)
    ensures W(mem.cells, t, yn) < W(mem.cells, y, yn)
  {
    hide W, P, Sh, Up, Trial, Window;
    ghost var c0 := mem.cells;
    ghost var v, yv := W(c0, t, yn + 1), W(c0, y, yn);
    WindowOf(c0, t, y, yn);
    var zt, zs, yt := mem.cells[t + yn], mem.cells[t + yn - 1], mem.cells[y + yn - 1];
    TrialDigit(v, yv, zt, zs, yt, W(c0, t, yn - 1), W(c0, y, yn - 1), P(yn - 1));
    PNext(yn - 1);
    var q: nat := Trial(zt, zs, yt);
    ShUnit(yn);
    if q != 0 {
      var num := MulSub(mem, t, q, y, yn);
      TopWord(W(mem.cells, t, yn), num, v - q * yv, yn);
      while num != 0
        invariant |mem.cells| == |c0| && Keeps(c0, mem.cells, t, yn)
        invariant -1 <= num <= 0
        invariant W(mem.cells, t, yn) + Sh(num, yn) == v - q * yv < yv
        decreases q
      {
        AddBack(q, yv, v);
        q := q - 1;
        ShUnit(yn);
        var carry: int := Add(mem, t, yn, t, yn, y, yn);
        num := carry - 1;
        KeepsIntro(c0, mem.cells, t, yn);
      }
    } else {
      assert q * yv == 0;
      WNext(c0, t, yn);
      TopWord(W(c0, t, yn), zt, v, yn);
    }
    ShUnit(yn);
    ghost var c1 := mem.cells;
    mem.cells := mem.cells[t + yn := q];
    KeepsIntro(c1, mem.cells, t + yn, 1);
    KeepsIntro(c0, mem.cells, t, yn + 1);
  }

  lemma TopWord(low: nat, num: int, total: int, n: nat)
    requires low < P(n) && low + Sh(num, n) == total && 0 - P(n) < total < P(n)
    ensures -1 <= num <= 0
  {
    if num <= -2 { MulLe(num, -2, P(n)); }
    if num >= 1 { MulLe(1, num, P(n)); }
  }

  lemma AddBack(q: nat, yv: nat, v: nat)
    requires v - q * yv < 0
    ensures 0 < q && v - (q - 1) * yv == v - q * yv + yv
  {
    Distrib(q, 1, yv);
  }

  /** The state of the division between two turns: of the zn0 digits of the dividend the top
      zn0-zn are quotient digits, the low zn are what remains to be divided. */
  ghost predicate Partial(c: seq<Digit>, z: nat, zn: nat, zn0: nat, yn: nat, yv: nat, total: nat)
    requires z + zn0 <= |c|
  {
    && yn <= zn <= zn0
    && total == W(c, z, zn) + Sh(W(c, z + zn, zn0 - zn) * yv, zn - yn)
    && W(c, z, zn) < Sh(yv, zn - yn)
  }

  lemma PartialWindow(c: seq<Digit>, z: nat, zn: nat, zn0: nat, yn: nat, yv: nat, total: nat)
    requires z + zn0 <= |c| && Partial(c, z, zn, zn0, yn, yv, total) && yn < zn
    ensures W(c, z + (zn - yn - 1), yn + 1) < yv * B
  {
    var k := zn - yn - 1;
    WSplit(c, z, k, yn + 1);
    WindowSmall(W(c, z, k), W(c, z + k, yn + 1), P(k), yv, B);
  }

  lemma WindowSmall(low: nat, v: nat, r: nat, yv: nat, b: nat)
    requires 0 < r && low + v * r < yv * (b * r)
    ensures v < yv * b
  {
    assert yv * (b * r) == yv * b * r;
    if v >= yv * b { MulLe(yv * b, v, r); }
  }

  lemma PartialStep(c: seq<Digit>, c': seq<Digit>, z: nat, zn: nat, zn0: nat, yn: nat, yv: nat, total: nat)
    requires z + zn0 <= |c| == |c'| && Partial(c, z, zn, zn0, yn, yv, total) && yn < zn
    requires Keeps(c, c', z + (zn - yn - 1), yn + 1)
    requires W(c, z + (zn - yn - 1), yn + 1) == c'[z + zn - 1] * yv + W(c', z + (zn - yn - 1), yn)
    requires W(c', z + (zn - yn - 1), yn) < yv
    ensures Partial(c', z, zn - 1, zn0, yn, yv, total)
  {
    hide W, Up;
    var k := zn - yn - 1;
    WSplit(c, z, k, yn + 1);
    WSplit(c', z, k, yn);
    WHead(c', z + zn - 1, zn0 - zn);
    PartialAlgebra(W(c, z, k), W(c, z + k, yn + 1), W(c', z + k, yn), c'[z + zn - 1],
                   W(c, z + zn, zn0 - zn), P(k), B, yv);
  }

  lemma FourFactors(q: int, y: int, b: int, r: int)
    ensures q * y * (b * r) == b * q * y * r
  {
    assert q * y * (b * r) == q * y * b * r;
    assert q * y * b == b * q * y by {
      Commute(q * y, b);
      assert b * (q * y) == b * q * y;
    }
  }

  lemma PartialAlgebra(low: nat, v: int, rem: nat, q: int, quot: int, r: nat, b: int, yv: nat)
    requires v == q * yv + rem && rem < yv && low < r
    ensures low + v * r + quot * yv * (b * r) == (low + rem * r) + (q + b * quot) * yv * r
    ensures low + rem * r < yv * r
  {
    Distrib(q * yv, rem, r);
    FourFactors(quot, yv, b, r);
    Distrib(q, b * quot, yv);
    Distrib(q * yv, b * quot * yv, r);
    MulLe(rem + 1, yv, r);
    Distrib(rem, 1, r);
  }

  /** bigdivrem1.  The stop flag is seen set at the loop head after `turns` turns, or never
      when `turns` is negative; the saved zn is then returned. */
  method Divrem1(mem: Memory, z: nat, zn1: nat, ghost zn0: nat, y: nat, yn: nat, turns: int, ghost total: nat)
    returns (zn: nat, stopped: bool)
    requires 2 <= yn < zn1 && z + zn0 <= |mem.cells| && y + yn <= |mem.cells|
    requires Apart(z, zn0, y, yn) && Normalised(mem.cells[y + yn - 1])
    requires Partial(mem.cells, z, zn1, zn0, yn, W(mem.cells, y, yn), total)
    modifies mem
    ensures |mem.cells| == |old(mem.cells)| && Keeps(old(mem.cells), mem.cells, z, zn1)
    ensures Partial(mem.cells, z, zn, zn0, yn, W(mem.cells, y, yn), total)
    ensures if stopped then yn < zn <= zn1 && 0 <= turns else zn == yn
  {
    hide W, P, Sh, Up, Partial;
    ghost var c0 := mem.cells;
    ghost var yv := W(c0, y, yn);
    PartialRange(c0, z, zn1, zn0, yn, yv, total);
    KeepsIntro(c0, c0, z, zn1);
    zn := zn1;
    var turn := 0;
    while zn > yn
      invariant yn <= zn <= zn1 <= zn0 && 0 <= turn
      invariant |mem.cells| == |c0| && Keeps(c0, mem.cells, z, zn1)
      invariant Partial(mem.cells, z, zn, zn0, yn, yv, total)
    {
      if turn == turns {
        return zn, true;
      }
      ghost var c1 := mem.cells;
      PartialWindow(c1, z, zn, zn0, yn, yv, total);
      DivideStep(mem, z + (zn - yn - 1), y, yn);
      PartialStep(c1, mem.cells, z, zn, zn0, yn, yv, total);
      KeepsIntro(c0, mem.cells, z, zn1);
      zn := zn - 1;
      turn := turn + 1;
    }
    stopped := false;
  }

  lemma PartialRange(c: seq<Digit>, z: nat, zn: nat, zn0: nat, yn: nat, yv: nat, total: nat)
    requires z + zn0 <= |c| && Partial(c, z, zn, zn0, yn, yv, total)
    ensures yn <= zn <= zn0
  {
  }

  /** Quotient digits at z+yn and remainder digits at z, from the dividend that was at z. */
  ghost predicate Divided(c: seq<Digit>, c': seq<Digit>, z: nat, zn: nat, y: nat, yn: nat)
    requires |c'| == |c| && yn <= zn && z + zn <= |c| && y + yn <= |c|
  {
    && W(c, z, zn) == W(c', z + yn, zn - yn) * W(c, y, yn) + W(c', z, yn)
    && W(c', z, yn) < W(c, y, yn)
  }

  /** The runs of bigdivrem1 with their retries; only large operands can be stopped. */
  method RunToEnd(mem: Memory, z: nat, zn: nat, y: nat, yn: nat, stops: seq<nat>, ghost total: nat)
    requires 2 <= yn < zn && z + zn <= |mem.cells| && y + yn <= |mem.cells|
    requires Apart(z, zn, y, yn) && Normalised(mem.cells[y + yn - 1])
    requires Partial(mem.cells, z, zn, zn, yn, W(mem.cells, y, yn), total)
    modifies mem
    ensures |mem.cells| == |old(mem.cells)| && Keeps(old(mem.cells), mem.cells, z, zn)
    ensures Partial(mem.cells, z, yn, zn, yn, W(mem.cells, y, yn), total)
  {
    hide W, P, Sh, Up, Partial;
    ghost var c0 := mem.cells;
    KeepsIntro(c0, c0, z, zn);
    var cur, more, run := zn, true, 0;
    if !(zn > 10000 || yn > 10000) {
      cur, more := Divrem1(mem, z, cur, zn, y, yn, -1, total);
    }
    while more
      invariant if more then yn < cur <= zn else cur == yn
      invariant |mem.cells| == |c0| && Keeps(c0, mem.cells, z, zn)
      invariant Partial(mem.cells, z, cur, zn, yn, W(c0, y, yn), total)
      decreases more, |stops| - run
    {
      cur, more := Divrem1(mem, z, cur, zn, y, yn, if run < |stops| then stops[run] else -1, total);
      KeepsIntro(c0, mem.cells, z, zn);
      run := run + 1;
    }
  }

  /** A divisor with only its top digit k left */
  method SingleTop(mem: Memory, z: nat, zn: nat, y: nat, k: nat)
    requires k + 1 < zn && z + zn <= |mem.cells| && y + k < |mem.cells| && Apart(z, zn, y, k + 1)
    requires mem.cells[z + zn - 1] < mem.cells[y + k]
    modifies mem
    ensures |mem.cells| == |old(mem.cells)| && Keeps(old(mem.cells), mem.cells, z + k, zn - k)
    ensures old(W(mem.cells, z + k, zn - k))
         == W(mem.cells, z + k + 1, zn - k - 1) * old(W(mem.cells, y + k, 1)) + W(mem.cells, z + k, 1)
    ensures W(mem.cells, z + k, 1) < old(W(mem.cells, y + k, 1))
  {
    hide W, P, Sh, Up, Above;
    ghost var c0 := mem.cells;
    var h := mem.cells[z + zn - 1];
    var r := DivremSingle1(mem, z + k + 1, z + k, zn - k - 1, h, mem.cells[y + k]);
    ghost var c1 := mem.cells;
    mem.cells := mem.cells[z + k := r];
    KeepsIntro(c1, mem.cells, z + k, 1);
    KeepsIntro(c0, mem.cells, z + k, zn - k);
    AboveTop(c0, z + k, zn - k - 1);
    WOne(mem.cells, z + k);
    WOne(c0, y + k);
    Commute(c0[y + k], W(mem.cells, z + k + 1, zn - k - 1));
  }

  /** bigdivrem_restoring.  `stops` lists the stop requests that are seen at a loop head: the
      i-th run of bigdivrem1 sees one after stops[i] turns and is resumed from the saved zn. */
  method Restoring(mem: Memory, z: nat, zn: nat, y: nat, yn: nat, stops: seq<nat>)
    requires 0 < yn < zn && z + zn <= |mem.cells| && y + yn <= |mem.cells| && Apart(z, zn, y, yn)
    requires Normalised(mem.cells[y + yn - 1]) && mem.cells[z + zn - 1] < mem.cells[y + yn - 1]
    modifies mem
    ensures |mem.cells| == |old(mem.cells)| && Keeps(old(mem.cells), mem.cells, z, zn)
    ensures Divided(old(mem.cells), mem.cells, z, zn, y, yn)
  {
    hide W, P, Sh, Up, Partial, Above, Divided;
    ghost var c0 := mem.cells;
    var k := 0;
    while mem.cells[y + k] == 0
      invariant 0 <= k < yn
      invariant forall i :: y <= i < y + k ==> c0[i] == 0
      decreases yn - k
    {
      k := k + 1;
    }
    ghost var total := W(c0, z + k, zn - k);
    if k + 1 == yn {
      SingleTop(mem, z, zn, y, k);
      InsideKept(c0, mem.cells, z + k, zn - k, z, zn);
      LowZeros(c0, mem.cells, z, zn, y, yn, k);
    } else {
      FirstPartial(c0, z + k, zn - k, y + k, yn - k);
      RunToEnd(mem, z + k, zn - k, y + k, yn - k, stops, total);
      LastPartial(mem.cells, z + k, zn - k, yn - k, W(c0, y + k, yn - k), total);
      KeepsIntro(c0, mem.cells, z, zn);
      LowZeros(c0, mem.cells, z, zn, y, yn, k);
    }
  }

  lemma AboveTop(c: seq<Digit>, p: nat, n: nat)
    requires p + n < |c|
    ensures Above(c[p + n], c, p, n) == W(c, p, n + 1)
  {
    WNext(c, p, n);
  }

  lemma FirstPartial(c: seq<Digit>, z: nat, zn: nat, y: nat, yn: nat)
    requires 0 < yn < zn && z + zn <= |c| && y + yn <= |c|
    requires c[z + zn - 1] < c[y + yn - 1]
    ensures Partial(c, z, zn, zn, yn, W(c, y, yn), W(c, z, zn))
  {
    hide W, P;
    WNext(c, z, zn - 1);
    WNext(c, y, yn - 1);
    WEmpty(c, z + zn);
    PAdd(zn - yn, yn - 1);
    TopBelow(W(c, z, zn - 1), c[z + zn - 1], W(c, y, yn - 1), c[y + yn - 1], P(zn - yn), P(yn - 1));
  }

  lemma TopBelow(low: nat, a: nat, low': nat, b: nat, r: nat, s: nat)
    requires low < r * s && a < b
    ensures low + a * (r * s) < (low' + b * s) * r
  {
    MulLe(a + 1, b, r * s);
    Distrib(a, 1, r * s);
    Distrib(low', b * s, r);
    assert b * s * r == b * (r * s);
    MulLe(0, low', r);
  }

  lemma LastPartial(c: seq<Digit>, z: nat, zn0: nat, yn: nat, yv: nat, total: nat)
    requires z + zn0 <= |c| && Partial(c, z, yn, zn0, yn, yv, total)
    ensures total == W(c, z + yn, zn0 - yn) * yv + W(c, z, yn) && W(c, z, yn) < yv
  {
    ShUnit(0);
  }

  /** Dividing above the k low zero digits of the divisor divides the whole. */
  lemma LowZeros(c: seq<Digit>, c': seq<Digit>, z: nat, zn: nat, y: nat, yn: nat, k: nat)
    requires |c'| == |c| && k < yn <= zn && z + zn <= |c| && y + yn <= |c|
    requires forall i :: y <= i < y + k ==> c[i] == 0
    requires Keeps(c, c', z + k, zn - k)
    requires W(c, z + k, zn - k) == W(c', z + yn, zn - yn) * W(c, y + k, yn - k) + W(c', z + k, yn - k)
    requires W(c', z + k, yn - k) < W(c, y + k, yn - k)
    ensures Divided(c, c', z, zn, y, yn)
  {
    hide W, P, Up;
    WZero(c, y, k);
    WSplit(c, y, k, yn - k);
    WSplit(c, z, k, zn - k);
    WSplit(c', z, k, yn - k);
    LowAlgebra(W(c, z, k), P(k), W(c', z + yn, zn - yn), W(c, y + k, yn - k), W(c', z + k, yn - k));
  }

  lemma LowAlgebra(low: nat, r: nat, q: int, y1: nat, rem: nat)
    requires low < r && rem < y1
    ensures low + (q * y1 + rem) * r == q * (y1 * r) + (low + rem * r)
    ensures low + rem * r < y1 * r
  {
    Distrib(q * y1, rem, r);
    assert q * y1 * r == q * (y1 * r);
    MulLe(rem + 1, y1, r);
    Distrib(rem, 1, r);
  }

  /** nlz of the top digit of the divisor, as the power of two 1 << nlz. */
  method Nlz(d: Digit) returns (m: nat)
    requires 0 < d
    ensures 0 < m < B && IsPow2(m) && Mul(m, d) < B && Normalised(Mul(m, d))
    ensures m == 1 <==> Normalised(d)
  {
    m := 1;
    while !Normalised(m * d)
      invariant IsPow2(m) && 0 < m && m * d < B
      invariant m > 1 ==> !Normalised(d)
      decreases B - m * d
    {
      assert IsPow2(2 * m);
      assert 2 * m * d == 2 * (m * d);
      MulLe(1, m, d);
      m := 2 * m;
    }
    assert m * d == d * m;
    MulLe(1, d, m);
  }

  /** Shifting the divisor left by the leading zeros of its top digit loses nothing. */
  lemma TopAtLeast(c: seq<Digit>, p: nat, n: nat, out: nat, v: int, d: int)
    requires 0 < n && p + n <= |c| && W(c, p, n) + Sh(out, n) == v < P(n) && Sh(d, n - 1) <= v
    ensures out == 0 && W(c, p, n) == v && d <= c[p + n - 1]
  {
    hide W, P, Sh, Up;
    WNext(c, p, n - 1);
    PNext(n - 1);
    ShIs(out, n);
    ShIs(d, n - 1);
    ShIs(c[p + n - 1], n - 1);
    NothingLost(W(c, p, n - 1), c[p + n - 1], out, v, d, P(n - 1), B);
  }

  lemma ShiftTop(c: seq<Digit>, y: nat, yn: nat, m: nat)
    requires 0 < yn && y + yn <= |c| && c[y + yn - 1] != 0
    requires 0 < m && IsPow2(m) && Mul(m, c[y + yn - 1]) < B
    ensures 0 <= Sh(Mul(m, c[y + yn - 1]), yn - 1) <= Mul(m, W(c, y, yn)) < P(yn)
  {
    hide W, P, Sh, Up, IsPow2;
    SubRadix(m, c[y + yn - 1]);
    var k := Pow2Divides(m, B);
    WNext(c, y, yn - 1);
    ShIs(c[y + yn - 1], yn - 1);
    ShIs(m * c[y + yn - 1], yn - 1);
    PNext(yn - 1);
    ShiftFits(m, k, c[y + yn - 1], W(c, y, yn - 1), P(yn - 1), B);
  }

  lemma SubRadix(m: nat, d: nat)
    requires m * d < B && 0 < d
    ensures m <= B
  {
    assert m * d == d * m;
    MulLe(1, d, m);
  }

  lemma NothingLost(low: nat, top: nat, out: nat, v: int, d: int, r: nat, b: nat)
    requires low + top * r + out * (b * r) == v < b * r && d * r <= v && low < r
    ensures out == 0 && d <= top
  {
    if out > 0 { MulLe(1, out, b * r); MulLe(0, top, r); }
    if top < d {
      MulLe(top + 1, d, r);
      Distrib(top, 1, r);
    }
  }

  lemma ShiftFits(m: nat, k: nat, d: nat, low: nat, r: nat, b: nat)
    requires b == m * k && m * d < b && low < r && 0 < m
    ensures m * (low + d * r) < b * r && m * d * r <= m * (low + d * r)
  {
    if d >= k { MulLe(k, d, m); Commute(k, m); Commute(d, m); }
    var v := low + d * r;
    MulLe(d + 1, k, r);
    Distrib(d, 1, r);
    MulLe(v + 1, k * r, m);
    Distrib(v, 1, m);
    MulLe(d * r, v, m);
    Commute(m, v);
    ThreeFactors(k, r, m);
    ThreeFactors(d, r, m);
  }

  lemma ThreeFactors(k: int, r: int, m: int)
    ensures k * r * m == m * k * r
  {
    Commute(k * r, m);
    assert m * (k * r) == m * k * r;
  }

  /** The operands of bigdivrem_restoring, made from x and y: both multiplied by m. */
  ghost predicate Prepared(c: seq<Digit>, c': seq<Digit>, x: nat, xn: nat, y: nat, yn: nat, zz: nat, yy: nat, m: nat)
    requires x + xn <= |c| && y + yn <= |c| && 0 < yn
  {
    && zz + xn + 1 <= |c'| && yy + yn <= |c'| && Apart(zz, xn + 1, yy, yn)
    && W(c', zz, xn + 1) == Mul(m, W(c, x, xn)) && W(c', yy, yn) == Mul(m, W(c, y, yn))
    && Normalised(c'[yy + yn - 1]) && c'[zz + xn] < c'[yy + yn - 1]
  }

  /** A result buffer that the caller may leave out (a null pointer). */
  datatype Buffer = NoBuffer | At(start: nat, size: nat) {
    function Start(): nat { if NoBuffer? then 0 else start }
    function Size(): nat { if NoBuffer? then 0 else size }
    predicate In(total: nat) { Start() + Size() <= total }
    predicate ApartFrom(x: nat, xn: nat) { Apart(Start(), Size(), x, xn) }
  }

  /** A scratch window of n digits: fresh, or the buffer of the caller. */
  predicate Scratch(size: nat, w: nat, b: Buffer, n: nat) {
    size <= w || (b.At? && w == b.start && n <= b.size)
  }

  /** The scratch windows of bary_divmod_normal when a shift is needed */
  method ScratchWindows(mem: Memory, q: Buffer, r: Buffer, zn: nat, yn: nat) returns (zz: nat, yy: nat)
    requires q.In(|mem.cells|) && r.In(|mem.cells|) && r.ApartFrom(q.Start(), q.Size()) && (r.At? ==> yn <= r.size)
    modifies mem
    ensures Keeps(old(mem.cells), mem.cells, 0, 0)
    ensures zz + zn <= |mem.cells| && yy + yn <= |mem.cells| && Apart(zz, zn, yy, yn)
    ensures Scratch(|old(mem.cells)|, zz, q, zn) && Scratch(|old(mem.cells)|, yy, r, yn)
  {
    hide W, P, Sh, Up;
    var allocY, allocZ := r.NoBuffer?, q.NoBuffer? || q.size < zn;
    if allocY && allocZ {
      yy := mem.Alloc(yn + zn);
      zz := yy + yn;
    } else {
      if allocY { yy := mem.Alloc(yn); } else { yy := r.start; }
      if allocZ { zz := mem.Alloc(zn); } else { zz := q.start; }
    }
    KeepsIntro(old(mem.cells), mem.cells, 0, 0);
  }

  /** The operands shifted left so that the divisor is normalised */
  method ShiftOperands(mem: Memory, q: Buffer, r: Buffer, x: nat, xn: nat, y: nat, yn: nat, m: nat)
    returns (zz: nat, yy: nat)
    requires 0 < yn && x + xn <= |mem.cells| && y + yn <= |mem.cells| && mem.cells[y + yn - 1] != 0
    requires 1 < m < B && IsPow2(m) && Mul(m, mem.cells[y + yn - 1]) < B && Normalised(Mul(m, mem.cells[y + yn - 1]))
    requires q.In(|mem.cells|) && q.ApartFrom(x, xn) && q.ApartFrom(y, yn)
    requires r.In(|mem.cells|) && r.ApartFrom(x, xn) && r.ApartFrom(y, yn) && (r.At? ==> yn <= r.size)
    requires r.ApartFrom(q.Start(), q.Size())
    modifies mem
    ensures Keeps2(old(mem.cells), mem.cells, q.Start(), q.Size(), r.Start(), r.Size())
    ensures Prepared(old(mem.cells), mem.cells, x, xn, y, yn, zz, yy, m)
    ensures Scratch(|old(mem.cells)|, zz, q, xn + 1)
  {
    hide W, P, Sh, Up, Mul, IsPow2;
    ghost var c0 := mem.cells;
    ShiftTop(c0, y, yn, m);
    ghost var v, d := Mul(m, W(c0, y, yn)), Mul(m, c0[y + yn - 1]);
    zz, yy := ScratchWindows(mem, q, r, xn + 1, yn);
    assert Apart(zz, xn + 1, x, xn) && Apart(zz, xn + 1, y, yn) && Apart(yy, yn, y, yn);
    assert W(mem.cells, x, xn) == W(c0, x, xn);
    var out := ShiftInto(mem, zz, x, xn, m);
    assert W(mem.cells, y, yn) == W(c0, y, yn);
    ghost var c2 := mem.cells;
    var lost := SmallLshift(mem, yy, y, yn, m);
    assert W(mem.cells, zz, xn + 1) == W(c2, zz, xn + 1);
    assert mem.cells[zz + xn] == c2[zz + xn] == out;
    TopAtLeast(mem.cells, yy, yn, lost, v, d);
    HalfRadix(m);
    assert Prepared(c0, mem.cells, x, xn, y, yn, zz, yy, m);
    Keeps2Intro(c0, mem.cells, q.Start(), q.Size(), r.Start(), r.Size());
  }

  /** x shifted into one digit more than it has */
  method ShiftInto(mem: Memory, zz: nat, x: nat, xn: nat, m: nat) returns (out: Digit)
    requires zz + xn + 1 <= |mem.cells| && x + xn <= |mem.cells| && ReadsAhead(zz, x, xn)
    requires IsPow2(m) && m < B
    modifies mem
    ensures |mem.cells| == |old(mem.cells)| && Keeps(old(mem.cells), mem.cells, zz, xn + 1)
    ensures W(mem.cells, zz, xn + 1) == Mul(m, old(W(mem.cells, x, xn)))
    ensures mem.cells[zz + xn] == out < m
  {
    hide W, P, Sh, Up, Mul, IsPow2;
    ghost var c0 := mem.cells;
    out := SmallLshift(mem, zz, x, xn, m);
    WWrite(mem.cells, zz, xn, out);
    mem.cells := mem.cells[zz + xn := out];
    KeepsIntro(c0, mem.cells, zz, xn + 1);
  }

  lemma HalfRadix(m: nat)
    requires IsPow2(m) && m < B
    ensures 2 * m <= B
  {
    var k := Pow2Divides(m, B);
    if k >= 2 { MulLe(2, k, m); }
  }

  /** The operands of bigdivrem_restoring, in scratch space that is fresh or lies in the
      result buffers */
  method PrepareOperands(mem: Memory, q: Buffer, r: Buffer, x: nat, xn: nat, y: nat, yn: nat)
    returns (zz: nat, yy: nat, m: nat)
    requires 0 < yn && x + xn <= |mem.cells| && y + yn <= |mem.cells| && mem.cells[y + yn - 1] != 0
    requires q.In(|mem.cells|) && q.ApartFrom(x, xn) && q.ApartFrom(y, yn)
    requires r.In(|mem.cells|) && r.ApartFrom(x, xn) && r.ApartFrom(y, yn) && (r.At? ==> yn <= r.size)
    requires r.ApartFrom(q.Start(), q.Size())
    modifies mem
    ensures Keeps2(old(mem.cells), mem.cells, q.Start(), q.Size(), r.Start(), r.Size())
    ensures Prepared(old(mem.cells), mem.cells, x, xn, y, yn, zz, yy, m)
    ensures Scratch(|old(mem.cells)|, zz, q, xn + 1) && 0 < m < B && IsPow2(m)
  {
    hide W, P, Sh, Up, Mul, IsPow2;
    ghost var c0 := mem.cells;
    m := Nlz(mem.cells[y + yn - 1]);
    if m != 1 {
      zz, yy := ShiftOperands(mem, q, r, x, xn, y, yn, m);
    } else {
      zz := CopyOperand(mem, q, x, xn, y, yn);
      yy := y;
      Keeps2Intro(c0, mem.cells, q.Start(), q.Size(), r.Start(), r.Size());
    }
  }

  /** No shift is needed: x with a zero digit above it, and y as it is. */
  method CopyOperand(mem: Memory, q: Buffer, x: nat, xn: nat, y: nat, yn: nat) returns (zz: nat)
    requires 0 < yn && x + xn <= |mem.cells| && y + yn <= |mem.cells| && Normalised(mem.cells[y + yn - 1])
    requires q.In(|mem.cells|) && q.ApartFrom(x, xn) && q.ApartFrom(y, yn)
    modifies mem
    ensures Keeps(old(mem.cells), mem.cells, q.Start(), q.Size())
    ensures Prepared(old(mem.cells), mem.cells, x, xn, y, yn, zz, y, 1)
    ensures Scratch(|old(mem.cells)|, zz, q, xn + 1)
  {
    hide W, P, Sh, Up, Mul;
    ghost var c0 := mem.cells;
    var zn := xn + 1;
    if q.At? && zn <= q.size { zz := q.start; } else { zz := mem.Alloc(zn); }
    ghost var c1 := mem.cells;
    assert Apart(zz, zn, x, xn) && Apart(zz, zn, y, yn);
    MulIs(1, W(c0, x, xn));
    MulIs(1, W(c0, y, yn));
    Copy(mem, zz, x, xn);
    WWrite(mem.cells, zz, xn, 0);
    ShUnit(xn);
    mem.cells := mem.cells[zz + xn := 0];
    KeepsIntro(c1, mem.cells, zz, zn);
    KeepsIntro(c0, mem.cells, q.Start(), q.Size());
  }

  /** bary_divmod_normal.  The result buffers also serve as scratch space where they are
      large enough. */
  method DivmodNormal(mem: Memory, q: Buffer, r: Buffer, x: nat, xn: nat, y: nat, yn: nat, stops: seq<nat>)
    requires 0 < yn && x + xn <= |mem.cells| && y + yn <= |mem.cells| && mem.cells[y + yn - 1] != 0
    requires yn < xn || (xn == yn && mem.cells[y + yn - 1] <= mem.cells[x + xn - 1])
    requires q.In(|mem.cells|) && q.ApartFrom(x, xn) && q.ApartFrom(y, yn) && (q.At? ==> xn - yn + 1 <= q.size)
    requires r.In(|mem.cells|) && r.ApartFrom(x, xn) && r.ApartFrom(y, yn) && (r.At? ==> yn <= r.size)
    requires r.ApartFrom(q.Start(), q.Size())
    modifies mem
    ensures Keeps2(old(mem.cells), mem.cells, q.Start(), q.Size(), r.Start(), r.Size())
    ensures 0 < old(W(mem.cells, y, yn))
    ensures q.At? ==> W(mem.cells, q.start, q.size) == old(W(mem.cells, x, xn) / W(mem.cells, y, yn))
    ensures r.At? ==> W(mem.cells, r.start, r.size) == old(W(mem.cells, x, xn) % W(mem.cells, y, yn))
  {
    hide W, P, Sh, Up, Mul, IsPow2, Divided, Normalised, Above;
    ghost var c0 := mem.cells;
    ghost var xv, yv := W(c0, x, xn), W(c0, y, yn);
    TopPositive(c0, y, yn);
    var zz, yy, m := PrepareOperands(mem, q, r, x, xn, y, yn);
    ghost var c1 := mem.cells;
    Restoring(mem, zz, xn + 1, yy, yn, stops);
    Unshift(c1, mem.cells, zz, xn + 1, yy, yn, m, xv, yv);
    Keeps2Intro(c0, mem.cells, q.Start(), q.Size(), r.Start(), r.Size());
    StoreResults(mem, q, r, zz, xn, yn, m, xv % yv);
    Keeps2Intro(c0, mem.cells, q.Start(), q.Size(), r.Start(), r.Size());
  }

  method StoreResults(mem: Memory, q: Buffer, r: Buffer, zz: nat, xn: nat, yn: nat, m: nat, ghost rem: nat)
    requires 0 < yn <= xn + 1 && zz + xn + 1 <= |mem.cells| && 0 < m < B && IsPow2(m)
    requires W(mem.cells, zz, yn) == Mul(m, rem)
    requires q.In(|mem.cells|) && (q.At? ==> xn - yn + 1 <= q.size)
    requires r.In(|mem.cells|) && (r.At? ==> yn <= r.size) && r.ApartFrom(q.Start(), q.Size())
    requires r.ApartFrom(zz, xn + 1)
    modifies mem
    ensures |mem.cells| == |old(mem.cells)|
    ensures Keeps2(old(mem.cells), mem.cells, q.Start(), q.Size(), r.Start(), r.Size())
    ensures q.At? ==> W(mem.cells, q.start, q.size) == old(W(mem.cells, zz + yn, xn + 1 - yn))
    ensures r.At? ==> W(mem.cells, r.start, r.size) == rem
  {
    hide W, P, Sh, Up, Mul, IsPow2;
    ghost var c0 := mem.cells;
    if r.At? {
      StoreRemainder(mem, r.start, r.size, zz, yn, m, rem);
    }
    if q.At? {
      CopyPadded(mem, q.start, q.size, zz + yn, xn + 1 - yn);
    }
    Keeps2Intro(c0, mem.cells, q.Start(), q.Size(), r.Start(), r.Size());
  }

  /** Dividing m*x by m*y gives the quotient of x by y and m times its remainder. */
  lemma Unshift(c: seq<Digit>, c': seq<Digit>, z: nat, zn: nat, y: nat, yn: nat, m: nat, xv: nat, yv: nat)
    requires |c'| == |c| && yn <= zn && z + zn <= |c| && y + yn <= |c| && Divided(c, c', z, zn, y, yn)
    requires 0 < m && 0 < yv && W(c, z, zn) == Mul(m, xv) && W(c, y, yn) == Mul(m, yv)
    ensures W(c', z + yn, zn - yn) == xv / yv
    ensures W(c', z, yn) == Mul(m, xv % yv)
  {
    hide W;
    UnshiftValue(xv, yv, m, W(c', z + yn, zn - yn), W(c', z, yn));
  }

  lemma UnshiftValue(xv: nat, yv: nat, m: nat, q: nat, r: nat)
    requires 0 < m && 0 < yv && m * xv == q * (m * yv) + r && r < m * yv
    ensures q == xv / yv && r == m * (xv % yv)
  {
    assert q * (m * yv) == m * (q * yv);
    assert m * xv - m * (q * yv) == m * (xv - q * yv);
    var d := xv - q * yv;
    assert d * m == m * d && yv * m == m * yv;
    if d < 0 { MulLe(d, -1, m); }
    if d >= yv { MulLe(yv, d, m); }
    DivUnique(xv, yv, q, d);
  }

  method StoreRemainder(mem: Memory, r: nat, rn: nat, zz: nat, yn: nat, m: nat, ghost rv: nat)
    requires 0 < yn <= rn && r + rn <= |mem.cells| && zz + yn <= |mem.cells| && Apart(r, rn, zz, yn)
    requires 0 < m < B && IsPow2(m) && W(mem.cells, zz, yn) == Mul(m, rv)
    modifies mem
    ensures |mem.cells| == |old(mem.cells)| && Keeps(old(mem.cells), mem.cells, r, rn)
    ensures W(mem.cells, r, rn) == rv
  {
    hide W, P, Sh, Up, Mul, IsPow2, Above;
    ghost var c0 := mem.cells;
    if m != 1 {
      SmallRshift(mem, r, zz, yn, m, 0);
      ExactShift(c0, mem.cells, r, zz, yn, m, rv);
    } else {
      MulIs(1, rv);
      Copy(mem, r, zz, yn);
    }
    ghost var c1 := mem.cells;
    Zero(mem, r + yn, rn - yn);
    WSplit(mem.cells, r, yn, rn - yn);
    ShUnit(yn);
    KeepsIntro(c0, mem.cells, r, rn);
  }

  lemma ExactShift(c: seq<Digit>, c': seq<Digit>, r: nat, z: nat, n: nat, m: nat, rv: nat)
    requires 0 < m && 0 < n && r + n <= |c'| && z + n <= |c| && W(c, z, n) == Mul(m, rv)
    requires Above(0, c, z, n) == Mul(m, Above(0 / m, c', r, n)) + c[z] % m
    ensures W(c', r, n) == rv
  {
    hide W, P, Sh, Above;
    AboveZero(c, z, n);
    AboveZero(c', r, n);
    SmallQuotient(0, m);
    ExactQuotient(m, rv, W(c', r, n), c[z] % m);
  }

  lemma ExactQuotient(m: nat, a: nat, b: nat, r: nat)
    requires 0 < m && m * a == m * b + r && 0 <= r < m
    ensures a == b
  {
    assert m * a == a * m && m * b == b * m;
    if b < a { MulLe(b + 1, a, m); Distrib(b, 1, m); }
    if b > a { MulLe(a + 1, b, m); Distrib(a, 1, m); }
  }
}
