/** bigdivrem and bigdivmod: division of signed bignums. */
module FloorDivide {
  import opened Arith
  import opened BDigits
  import opened Bary
  import opened Shift
  import opened BigDivide
  import opened BitOps

  /** Quotient and remainder of x by y */
  predicate Divides(x: int, y: int, q: int, r: int) {
    x == Mul(q, y) + r && 0 <= r < y
  }

  /** bigdivrem on magnitudes without leading zeros: quotient and remainder in new windows, or the
      dividend itself as the remainder */
  method DivideMagnitudes(mem: Memory, x: nat, xn: nat, y: nat, yn: nat, stops: seq<nat>)
    returns (q: nat, qn: nat, r: nat, rn: nat)
    requires x + xn <= |mem.cells| && y + yn <= |mem.cells| && yn > 0 && mem.cells[y + yn - 1] != 0
    requires xn > 0 ==> mem.cells[x + xn - 1] != 0
    modifies mem
    ensures q + qn <= |mem.cells| && r + rn <= |mem.cells| && Keeps(old(mem.cells), mem.cells, |old(mem.cells)|, 0)
    ensures Divides(old(W(mem.cells, x, xn)), old(W(mem.cells, y, yn)), W(mem.cells, q, qn), W(mem.cells, r, rn))
  {
    hide W, P, Sh, Mul, Keeps, Divides;
    ghost var c0 := mem.cells;
    if xn < yn || (xn == yn && mem.cells[x + xn - 1] < mem.cells[y + yn - 1]) {
      SmallerDividend(c0, x, xn, y, yn);
      SameKept(c0, |c0|, 0);
      return |mem.cells|, 0, x, xn;
    }
    if yn == 1 {
      q, r := DivideByDigit(mem, x, xn, y);
      return q, xn, r, 1;
    }
    if xn == 2 && yn == 2 {
      q, r := DivideTwoDigits(mem, x, y);
      return q, 2, r, 2;
    }
    q, r := DivideLong(mem, x, xn, y, yn, stops);
    return q, xn + 1, r, yn;
  }

  /** The general case */
  method DivideLong(mem: Memory, x: nat, xn: nat, y: nat, yn: nat, stops: seq<nat>) returns (q: nat, r: nat)
    requires x + xn <= |mem.cells| && y + yn <= |mem.cells| && 0 < yn && mem.cells[y + yn - 1] != 0
    requires yn < xn || (xn == yn && mem.cells[y + yn - 1] <= mem.cells[x + xn - 1])
    modifies mem
    ensures q + xn + 1 <= |mem.cells| && r + yn <= |mem.cells|
    ensures Keeps(old(mem.cells), mem.cells, |old(mem.cells)|, 0)
    ensures Divides(old(W(mem.cells, x, xn)), old(W(mem.cells, y, yn)), W(mem.cells, q, xn + 1), W(mem.cells, r, yn))
  {
    hide W, P, Sh, Mul;
    ghost var c0 := mem.cells;
    q := mem.Alloc(xn + 1);
    r := mem.Alloc(yn);
    DivmodNormal(mem, At(q, xn + 1), At(r, yn), x, xn, y, yn, stops);
    DivisionIs(W(c0, x, xn), W(c0, y, yn));
    KeepsIntro(c0, mem.cells, |c0|, 0);
  }

  lemma DivisionIs(x: nat, y: nat)
    requires y > 0
    ensures Divides(x, y, x / y, x % y)
  {
  }

  lemma SmallerDividend(c: seq<Digit>, x: nat, xn: nat, y: nat, yn: nat)
    requires x + xn <= |c| && y + yn <= |c| && yn > 0 && c[y + yn - 1] != 0
    requires xn < yn || (xn == yn && c[x + xn - 1] < c[y + yn - 1])
    ensures Divides(W(c, x, xn), W(c, y, yn), W(c, |c|, 0), W(c, x, xn))
  {
    var t: nat := c[y + yn - 1];
    WNext(c, y, yn - 1);
    MulLe(1, t, P(yn - 1));
    if xn < yn {
      PMono(xn, yn - 1);
    } else {
      var s: nat := c[x + xn - 1];
      WNext(c, x, xn - 1);
      MulLe(s + 1, t, P(yn - 1));
      Distrib(s, 1, P(yn - 1));
    }
  }

  /** The case of a divisor of one digit */
  method DivideByDigit(mem: Memory, x: nat, xn: nat, y: nat) returns (q: nat, r: nat)
    requires x + xn <= |mem.cells| && y < |mem.cells| && mem.cells[y] != 0 && xn > 0
    modifies mem
    ensures q + xn <= |mem.cells| && r + 1 <= |mem.cells| && Keeps(old(mem.cells), mem.cells, |old(mem.cells)|, 0)
    ensures Divides(old(W(mem.cells, x, xn)), old(W(mem.cells, y, 1)), W(mem.cells, q, xn), W(mem.cells, r, 1))
  {
    hide W, P, Sh;
    ghost var c0 := mem.cells;
    WOne(c0, y);
    q := mem.Alloc(xn);
    r := mem.Alloc(1);
    ghost var c1 := mem.cells;
    var dd := DivremSingle1(mem, q, x, xn, 0, mem.cells[y]);
    ghost var c2 := mem.cells;
    AboveZero(c1, x, xn);
    mem.cells := mem.cells[r := dd];
    WOne(mem.cells, r);
    WCopy(mem.cells, q, c2, q, xn);
    WCopy(c1, x, c0, x, xn);
    Commute(c0[y], W(mem.cells, q, xn));
    KeepsIntro(c0, mem.cells, |c0|, 0);
  }

  /** The case of two digits each: machine division */
  method DivideTwoDigits(mem: Memory, x: nat, y: nat) returns (q: nat, r: nat)
    requires x + 2 <= |mem.cells| && y + 2 <= |mem.cells| && mem.cells[y + 1] != 0
    modifies mem
    ensures q + 2 <= |mem.cells| && r + 2 <= |mem.cells| && Keeps(old(mem.cells), mem.cells, |old(mem.cells)|, 0)
    ensures Divides(old(W(mem.cells, x, 2)), old(W(mem.cells, y, 2)), W(mem.cells, q, 2), W(mem.cells, r, 2))
  {
    hide W, P, Sh;
    ghost var c0 := mem.cells;
    TwoDigitValue(c0, x);
    TwoDigitValue(c0, y);
    var x0: nat, y0: nat := mem.cells[x] + Up(mem.cells[x + 1]), mem.cells[y] + Up(mem.cells[y + 1]);
    TwoPositive(mem.cells[y], mem.cells[y + 1]);
    DivisionIs(x0, y0);
    QuotientSmall(x0, y0);
    q := StoreTwo(mem, x0 / y0);
    ghost var c1 := mem.cells;
    r := StoreTwo(mem, x0 % y0);
    WCopy(mem.cells, q, c1, q, 2);
    KeepsIntro(c0, mem.cells, |c0|, 0);
  }

  lemma TwoPositive(lo: Digit, hi: Digit)
    requires hi != 0
    ensures lo + Up(hi) > 0
  {
    MulLe(1, hi, B);
  }

  lemma QuotientSmall(x: nat, y: nat)
    requires y > 0 && x < Up(B) && y < Up(B)
    ensures 0 <= x / y < Up(B) && 0 <= x % y < Up(B)
  {
    DivNat(x, y);
    if x / y > x { MulLe(x + 1, x / y, y); Distrib(x, 1, y); MulLe(1, y, x); Commute(x, y); }
  }

  datatype Division = ZeroDivision | Quotient(q: Big, r: Big)

  predicate Within(c: seq<Digit>, x: Big) {
    x.p + x.n <= |c|
  }

  /** bigdivrem: quotient towards zero; the remainder has the sign of the dividend.  The quotient by a
      longer divisor is a positive 0. */
  method BigDivrem(mem: Memory, x: Big, y: Big, stops: seq<nat>) returns (d: Division)
    requires x.p + x.n <= |mem.cells| && y.p + y.n <= |mem.cells|
    modifies mem
    ensures Keeps(old(mem.cells), mem.cells, |old(mem.cells)|, 0)
    ensures d.ZeroDivision? <==> old(W(mem.cells, y.p, y.n)) == 0
    ensures d.Quotient? ==>
              && Within(mem.cells, d.q) && Within(mem.cells, d.r)
              && Divides(old(W(mem.cells, x.p, x.n)), old(W(mem.cells, y.p, y.n)),
                         W(mem.cells, d.q.p, d.q.n), W(mem.cells, d.r.p, d.r.n))
              && (W(mem.cells, d.q.p, d.q.n) > 0 ==> d.q.positive == (x.positive == y.positive))
              && d.r.positive == x.positive
  {
    hide W, P, Sh, Divides;
    ghost var c0 := mem.cells;
    KeepsIntro(c0, mem.cells, |c0|, 0);
    var yn := Trunc(mem, y.p, y.n);
    if yn == 0 {
      WEmpty(c0, y.p);
      return ZeroDivision;
    }
    TopPositive(c0, y.p, yn);
    var xn := Trunc(mem, x.p, x.n);
    var q, qn, r, rn := DivideMagnitudes(mem, x.p, xn, y.p, yn, stops);
    d := Quotient(Big(qn == 0 || x.positive == y.positive, q, qn), Big(x.positive, r, rn));
    WEmpty(mem.cells, q);
  }

  /** bigadd of a number that is not positive and -1: its magnitude grows by one. */
  method MinusOne(mem: Memory, x: Big) returns (z: Big)
    requires x.p + x.n <= |mem.cells|
    modifies mem
    ensures z.p + z.n <= |mem.cells| && Keeps(old(mem.cells), mem.cells, |old(mem.cells)|, 0)
    ensures Value(mem.cells, z) == 0 - old(W(mem.cells, x.p, x.n)) - 1
  {
    hide W, P, Sh;
    ghost var c0 := mem.cells;
    var p := mem.Alloc(x.n + 1);
    CopyPadded(mem, p, x.n + 1, x.p, x.n);
    var c := AddOne(mem, p, x.n + 1);
    NoCarry(W(c0, x.p, x.n), W(mem.cells, p, x.n + 1), c, x.n);
    KeepsIntro(c0, mem.cells, |c0|, 0);
    z := Big(false, p, x.n + 1);
  }

  lemma NoCarry(w: nat, v: nat, c: nat, n: nat)
    requires w < P(n) && v + Sh(c, n + 1) == w + 1 && c <= 1
    ensures c == 0 && v == w + 1
  {
    PPositive(n);
  }

  /** bigadd of y and a number of the other sign and smaller magnitude */
  method AddOpposite(mem: Memory, y: Big, m: Big) returns (z: Big)
    requires y.p + y.n <= |mem.cells| && m.p + m.n <= |mem.cells| && W(mem.cells, m.p, m.n) < W(mem.cells, y.p, y.n)
    modifies mem
    ensures z.p + z.n <= |mem.cells| && Keeps(old(mem.cells), mem.cells, |old(mem.cells)|, 0)
    ensures z.positive == y.positive
    ensures W(mem.cells, z.p, z.n) == old(W(mem.cells, y.p, y.n)) - old(W(mem.cells, m.p, m.n))
  {
    hide W, P, Sh;
    ghost var c0 := mem.cells;
    var n := if y.n >= m.n then y.n else m.n;
    var p := mem.Alloc(n);
    var c := Sub(mem, p, n, y.p, y.n, m.p, m.n);
    NoBorrow(W(c0, y.p, y.n), W(c0, m.p, m.n), W(mem.cells, p, n), c, n);
    KeepsIntro(c0, mem.cells, |c0|, 0);
    z := Big(y.positive, p, n);
  }

  lemma NoBorrow(y: nat, m: nat, v: nat, c: nat, n: nat)
    requires m < y && v - Sh(c, n) == y - m && c <= 1 && v < P(n)
    ensures c == 0 && v == y - m
  {
  }

  /** Floor division: the modulus has the sign of the divisor. */
  predicate FloorDivision(x: int, y: int, q: int, m: int) {
    x == Mul(q, y) + m && (if y > 0 then 0 <= m < y else y < m <= 0)
  }

  lemma FloorExact(xv: int, yv: int, qv: nat, rv: nat, sx: bool, sy: bool)
    requires Divides(xv, yv, qv, rv) && (sx == sy || rv == 0)
    ensures FloorDivision(if sx then xv else 0 - xv, if sy then yv else 0 - yv,
                          if sx == sy then qv else 0 - (qv as int), if sx then rv else 0 - (rv as int))
  {
    assert (0 - qv as int) * yv == 0 - qv * yv;
    assert (0 - qv as int) * (0 - yv) == qv * yv;
    assert qv * (0 - yv) == 0 - qv * yv;
  }

  lemma FloorAdjusted(xv: int, yv: int, qv: nat, rv: nat, sx: bool, sy: bool)
    requires Divides(xv, yv, qv, rv) && sx != sy && rv > 0
    ensures FloorDivision(if sx then xv else 0 - xv, if sy then yv else 0 - yv,
                          0 - (qv as int) - 1, if sy then yv - rv else 0 - (yv - rv))
  {
    assert (0 - (qv as int) - 1) * yv == 0 - qv * yv - yv;
    assert (0 - (qv as int) - 1) * (0 - yv) == qv * yv + yv;
  }

  /** bigdivmod: floor division for all signs */
  method BigDivmod(mem: Memory, x: Big, y: Big, stops: seq<nat>) returns (d: Division)
    requires x.p + x.n <= |mem.cells| && y.p + y.n <= |mem.cells|
    modifies mem
    ensures Keeps(old(mem.cells), mem.cells, |old(mem.cells)|, 0)
    ensures d.ZeroDivision? <==> old(Value(mem.cells, y)) == 0
    ensures d.Quotient? ==>
              && Within(mem.cells, d.q) && Within(mem.cells, d.r)
              && FloorDivision(old(Value(mem.cells, x)), old(Value(mem.cells, y)),
                               Value(mem.cells, d.q), Value(mem.cells, d.r))
  {
    hide W, P, Sh, FloorDivision;
    ghost var c0 := mem.cells;
    d := BigDivrem(mem, x, y, stops);
    if d.ZeroDivision? { return; }
    ghost var c1 := mem.cells;
    ghost var xv, yv, qv, rv := W(c0, x.p, x.n), W(c0, y.p, y.n), W(c1, d.q.p, d.q.n), W(c1, d.r.p, d.r.n);
    var zero := ZeroP(mem, d.r.p, d.r.n);
    if x.positive != y.positive && !zero {
      FloorAdjusted(xv, yv, qv, rv, x.positive, y.positive);
      var q := MinusOne(mem, d.q);
      ghost var c2 := mem.cells;
      SameValue(c1, c2, d.r);
      SameValue(c0, c1, y);
      SameValue(c1, c2, y);
      var m := AddOpposite(mem, y, d.r);
      SameValue(c2, mem.cells, q);
      KeepsIntro(c0, mem.cells, |c0|, 0);
      d := Quotient(q, m);
    } else {
      FloorExact(xv, yv, qv, rv, x.positive, y.positive);
    }
  }

  /** Floor division has one answer. */
  lemma FloorUnique(x: int, y: int, q: int, m: int, q': int, m': int)
    requires FloorDivision(x, y, q, m) && FloorDivision(x, y, q', m')
    ensures q == q' && m == m'
  {
    Distrib(q, q', y);
    if y > 0 {
      if q < q' { MulLe(q + 1, q', y); Distrib(q, 1, y); } else if q' < q { MulLe(q' + 1, q, y); Distrib(q', 1, y); }
    } else {
      var z := 0 - y;
      assert q * y == 0 - q * z && q' * y == 0 - q' * z;
      if q < q' { MulLe(q + 1, q', z); Distrib(q, 1, z); } else if q' < q { MulLe(q' + 1, q, z); Distrib(q', 1, z); }
    }
  }
}
