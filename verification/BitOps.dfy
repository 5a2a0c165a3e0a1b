/** Bit operations on bignums: signs and magnitudes outside, infinite two's complement inside. */
module BitOps {
  import opened Arith
  import opened BDigits
  import opened Bary
  import opened Shift
  import opened Bits

  /** A bignum: its sign and the n digits of its magnitude at address p */
  datatype Big = Big(positive: bool, p: nat, n: nat)

  function Value(c: seq<Digit>, x: Big): int
    requires x.p + x.n <= |c|
  {
    if x.positive then W(c, x.p, x.n) else 0 - W(c, x.p, x.n)
  }

  /** The value of n digits in two's complement: hi says whether only ones or only zeros follow. */
  function Signed(c: seq<Digit>, p: nat, n: nat, hi: bool): int
    requires p + n <= |c|
  {
    W(c, p, n) - (if hi then P(n) else 0)
  }

  function HiDigit(hi: bool): Digit {
    if hi then B - 1 else 0
  }

  /** Digit i of a number in two's complement */
  function DigitAt(c: seq<Digit>, p: nat, n: nat, hi: bool, i: nat): Digit
    requires p + n <= |c|
  {
    if i < n then c[p + i] else HiDigit(hi)
  }

  lemma DigitInside(c: seq<Digit>, p: nat, n: nat, hi: bool, i: nat)
    requires p + n <= |c| && i < n
    ensures DigitOf(Signed(c, p, n, hi), i) == c[p + i]
  {
    var v, low, d := Signed(c, p, n, hi), W(c, p, i), c[p + i];
    var m := n - i - 1;
    WSplit(c, p, i, n - i);
    WHead(c, p + i, m);
    PAdd(i, n - i);
    assert P(n - i) == B * P(m);
    var top := W(c, p + i + 1, m) - (if hi then P(m) else 0);
    SplitAt(v, low, d, W(c, p + i + 1, m), P(i), P(m), B, if hi then 1 else 0);
    DivUnique(v, P(i), top * B + d, low);
    DivUnique(top * B + d, B, top, d);
  }

  lemma SplitAt(v: int, low: int, d: int, w: int, r: int, s: int, b: int, h: int)
    requires v == low + (d + b * w) * r - h * (r * (b * s))
    ensures v == ((w - h * s) * b + d) * r + low
  {
    Distrib(d, b * w, r);
    Distrib((w - h * s) * b, d, r);
    Distrib(w, h * s, b);
    Distrib(w * b, h * s * b, r);
    assert b * w * r == w * b * r;
    assert h * s * b * r == h * (r * (b * s));
  }

  lemma DigitOutside(c: seq<Digit>, p: nat, n: nat, hi: bool, i: nat)
    requires p + n <= |c| && n <= i
    ensures DigitOf(Signed(c, p, n, hi), i) == HiDigit(hi)
  {
    var v := Signed(c, p, n, hi);
    PMono(n, i);
    if hi {
      DivUnique(v, P(i), -1, v + P(i));
      DivUnique(-1, B, -1, B - 1);
    } else {
      DivUnique(v, P(i), 0, v);
      DivUnique(0, B, 0, 0);
    }
  }

  lemma DigitsAre(c: seq<Digit>, p: nat, n: nat, hi: bool, i: nat)
    requires p + n <= |c|
    ensures DigitOf(Signed(c, p, n, hi), i) == DigitAt(c, p, n, hi, i)
  {
    if i < n { DigitInside(c, p, n, hi, i); } else { DigitOutside(c, p, n, hi, i); }
  }

  /** abs2twocomp: the digits of x in two's complement; those of a negative number are copied. */
  method AbsToTwoComp(mem: Memory, x: Big) returns (p: nat, n: nat, hi: bool)
    requires x.p + x.n <= |mem.cells|
    modifies mem
    ensures p + n <= |mem.cells| && Keeps(old(mem.cells), mem.cells, |old(mem.cells)|, 0)
    ensures Signed(mem.cells, p, n, hi) == old(Value(mem.cells, x))
    ensures n <= x.n
  {
    hide W, P;
    ghost var c0 := mem.cells;
    n := Trunc(mem, x.p, x.n);
    p, hi := x.p, false;
    KeepsIntro(c0, mem.cells, |c0|, 0);
    if n != 0 && !x.positive {
      p := mem.Alloc(n);
      Copy(mem, p, x.p, n);
      var zero := TwoComp(mem, p, n);
      hi := true;
      TopPositive(c0, x.p, n);
      KeepsIntro(c0, mem.cells, |c0|, 0);
    } else {
      WEmpty(c0, x.p);
    }
  }

  /** twocomp2abs_bang: back to sign and magnitude.  The magnitude B^n takes one digit more
      (big_extend_carry). */
  method TwoCompToAbs(mem: Memory, p: nat, n: nat, hi: bool) returns (z: Big)
    requires p + n <= |mem.cells|
    modifies mem
    ensures z.p + z.n <= |mem.cells| && Keeps(old(mem.cells), mem.cells, p, n)
    ensures Value(mem.cells, z) == old(Signed(mem.cells, p, n, hi))
    ensures z.positive == !hi
  {
    hide W, P;
    ghost var c0 := mem.cells;
    z := Big(!hi, p, n);
    KeepsIntro(c0, mem.cells, p, n);
    if hi {
      var zero := TwoComp(mem, p, n);
      if zero {
        ghost var c1 := mem.cells;
        var q := mem.Alloc(n + 1);
        Copy(mem, q, p, n);
        ghost var c2 := mem.cells;
        mem.cells := mem.cells[q + n := 1];
        TopOne(c2, mem.cells, q, n);
        KeepsIntro(c0, mem.cells, p, n);
        z := Big(false, q, n + 1);
      }
    }
  }

  lemma TopOne(c: seq<Digit>, c': seq<Digit>, q: nat, n: nat)
    requires q + n < |c| && c' == c[q + n := 1] && W(c, q, n) == 0
    ensures W(c', q, n + 1) == P(n)
  {
    WCopy(c', q, c, q, n);
    WNext(c', q, n);
  }

  /** The loops over the digits: the shorter operand goes on with its high bits. */
  method CombineDigits(mem: Memory, g: Gate, z: nat, n: nat, p1: nat, n1: nat, hi1: bool, p2: nat)
    requires n1 <= n && p1 + n1 <= z && p2 + n <= z && z + n <= |mem.cells|
    modifies mem
    ensures |mem.cells| == |old(mem.cells)| && Keeps(old(mem.cells), mem.cells, z, n)
    ensures forall i :: z <= i < z + n ==>
              mem.cells[i] == DigitOp(g, old(DigitAt(mem.cells, p1, n1, hi1, i - z)), old(mem.cells[i - z + p2]))
  {
    hide DigitOp;
    ghost var c0 := mem.cells;
    var i := 0;
    while i < n1
      invariant 0 <= i <= n1 && Untouched(c0, mem.cells, z, i)
      invariant forall k :: z <= k < z + i ==>
                              mem.cells[k] == DigitOp(g, DigitAt(c0, p1, n1, hi1, k - z), c0[k - z + p2])
    {
      mem.cells := mem.cells[z + i := DigitOp(g, mem.cells[p1 + i], mem.cells[p2 + i])];
      i := i + 1;
    }
    while i < n
      invariant n1 <= i <= n && Untouched(c0, mem.cells, z, i)
      invariant forall k :: z <= k < z + i ==>
                              mem.cells[k] == DigitOp(g, DigitAt(c0, p1, n1, hi1, k - z), c0[k - z + p2])
    {
      mem.cells := mem.cells[z + i := DigitOp(g, HiDigit(hi1), mem.cells[p2 + i])];
      i := i + 1;
    }
    KeepsIntro(c0, mem.cells, z, n);
  }

  /** z has in every place the gate of the bits of x and y. */
  ghost predicate Combined(g: Gate, x: int, y: int, z: int) {
    forall k: nat {:trigger Bit(z, k)} :: Bit(z, k) == Apply(g, Bit(x, k), Bit(y, k))
  }

  lemma DigitsCombine(g: Gate, x: int, y: int, z: int)
    requires forall i: nat {:trigger DigitOf(z, i)} :: DigitOf(z, i) == DigitOp(g, DigitOf(x, i), DigitOf(y, i))
    ensures Combined(g, x, y, z)
  {
    BitsPerDigit();
    forall k: nat
      ensures Bit(z, k) == Apply(g, Bit(x, k), Bit(y, k))
    {
      var i, j := k / BITS, k % BITS;
      assert k == BITS * i + j;
      BitOfDigit(x, i, j);
      BitOfDigit(y, i, j);
      BitOfDigit(z, i, j);
      WordOpBits(g, DigitOf(x, i), DigitOf(y, i), BITS, j);
    }
  }

  lemma {:induction false} WordOpHigh(g: Gate, a: bool, b: bool, n: nat)
    ensures WordOp(g, if a then Two(n) - 1 else 0, if b then Two(n) - 1 else 0, n)
         == if Apply(g, a, b) then Two(n) - 1 else 0
    decreases n
  {
    hide Two, WordOp;
    if n == 0 {
      NoBitsOp(g, 0, 0);
    } else {
      WordOpHigh(g, a, b, n - 1);
      HalfOfOnes(n - 1);
      WordOpStep(g, if a then Two(n) - 1 else 0, if b then Two(n) - 1 else 0, n - 1);
    }
  }

  lemma NoBitsOp(g: Gate, a: nat, b: nat)
    ensures WordOp(g, a, b, 0) == 0 && Two(0) == 1
  {
  }

  lemma HalfOfOnes(n: nat)
    ensures Two(n + 1) == 2 * Two(n) && (Two(n + 1) - 1) / 2 == Two(n) - 1 && (Two(n + 1) - 1) % 2 == 1
  {
  }

  lemma WordOpStep(g: Gate, a: nat, b: nat, n: nat)
    ensures WordOp(g, a, b, n + 1)
         == (if Apply(g, a % 2 == 1, b % 2 == 1) then 1 else 0) + 2 * WordOp(g, a / 2, b / 2, n)
  {
  }

  lemma {:induction false} WordOpFixed(b: nat, n: nat)
    ensures WordOp(AndGate, 0, b, n) == 0 && WordOp(OrGate, Two(n) - 1, b, n) == Two(n) - 1
    decreases n
  {
    if n > 0 { WordOpFixed(b / 2, n - 1); }
  }

  /** Beyond n digits the result has only its high digit. */
  lemma HighDigits(g: Gate, hi1: bool, hi2: bool, d: Digit)
    ensures DigitOp(g, HiDigit(hi1), HiDigit(hi2)) == HiDigit(Apply(g, hi1, hi2))
    ensures (g.AndGate? && !hi1) || (g.OrGate? && hi1) ==> DigitOp(g, HiDigit(hi1), d) == HiDigit(Apply(g, hi1, hi2))
  {
    BitsPerDigit();
    WordOpHigh(g, hi1, hi2, BITS);
    WordOpFixed(d, BITS);
  }

  /** The common part of rb_big_and, rb_big_or and rb_big_xor: the operands in two's complement, the
      first not longer than the second, and the number n of digits to compute */
  method Operate(mem: Memory, g: Gate, p1: nat, n1: nat, hi1: bool, p2: nat, n2: nat, hi2: bool, n: nat)
    returns (z: Big)
    requires n1 <= n2 && p1 + n1 <= |mem.cells| && p2 + n2 <= |mem.cells|
    requires n == n2 || (n == n1 && ((g.AndGate? && !hi1) || (g.OrGate? && hi1)))
    modifies mem
    ensures z.p + z.n <= |mem.cells| && Keeps(old(mem.cells), mem.cells, |old(mem.cells)|, 0)
    ensures Combined(g, old(Signed(mem.cells, p1, n1, hi1)), old(Signed(mem.cells, p2, n2, hi2)), Value(mem.cells, z))
  {
    hide DigitOp, Signed, DigitOf, W;
    ghost var c0 := mem.cells;
    var q := mem.Alloc(n);
    ghost var c1 := mem.cells;
    CombineDigits(mem, g, q, n, p1, n1, hi1, p2);
    ghost var c2 := mem.cells;
    ghost var x, y := Signed(c0, p1, n1, hi1), Signed(c0, p2, n2, hi2);
    forall i: nat
      ensures DigitOf(Signed(c2, q, n, Apply(g, hi1, hi2)), i) == DigitOp(g, DigitOf(x, i), DigitOf(y, i))
    {
      DigitsAre(c0, p1, n1, hi1, i);
      DigitsAre(c0, p2, n2, hi2, i);
      DigitsAre(c2, q, n, Apply(g, hi1, hi2), i);
      HighDigits(g, hi1, hi2, DigitOf(y, i));
      if i < n { assert c2[q + i] == DigitOp(g, DigitAt(c1, p1, n1, hi1, i), c1[p2 + i]); }
    }
    z := TwoCompToAbs(mem, q, n, Apply(g, hi1, hi2));
    DigitsCombine(g, x, y, Value(mem.cells, z));
    KeepsIntro(c0, mem.cells, |c0|, 0);
  }

  lemma CombinedSwap(g: Gate, x: int, y: int, z: int)
    requires Combined(g, y, x, z)
    ensures Combined(g, x, y, z)
  {
  }

  /** rb_big_and, rb_big_or and rb_big_xor of two bignums: the result agrees bit by bit with infinite
      two's complement. */
  method BigOp(mem: Memory, g: Gate, x: Big, y: Big) returns (z: Big)
    requires x.p + x.n <= |mem.cells| && y.p + y.n <= |mem.cells|
    modifies mem
    ensures z.p + z.n <= |mem.cells| && Keeps(old(mem.cells), mem.cells, |old(mem.cells)|, 0)
    ensures Combined(g, old(Value(mem.cells, x)), old(Value(mem.cells, y)), Value(mem.cells, z))
  {
    hide Signed, W, Combined;
    ghost var c0 := mem.cells;
    ghost var vx, vy := Value(c0, x), Value(c0, y);
    var p1, n1, hi1 := AbsToTwoComp(mem, x);
    ghost var c1 := mem.cells;
    SameValue(c0, c1, y);
    var p2, n2, hi2 := AbsToTwoComp(mem, y);
    ghost var c2 := mem.cells;
    SameSigned(c1, c2, p1, n1, hi1);
    ghost var swapped := n1 > n2;
    if n1 > n2 {
      p1, n1, hi1, p2, n2, hi2 := p2, n2, hi2, p1, n1, hi1;
    }
    var n := if (g.AndGate? && !hi1) || (g.OrGate? && hi1) then n1 else n2;
    z := Operate(mem, g, p1, n1, hi1, p2, n2, hi2, n);
    if swapped { CombinedSwap(g, vx, vy, Value(mem.cells, z)); }
    KeepsIntro(c0, mem.cells, |c0|, 0);
  }

  lemma SameValue(c: seq<Digit>, c': seq<Digit>, x: Big)
    requires x.p + x.n <= |c| && Keeps(c, c', |c|, 0)
    ensures Value(c', x) == Value(c, x)
  {
  }

  lemma SameSigned(c: seq<Digit>, c': seq<Digit>, p: nat, n: nat, hi: bool)
    requires p + n <= |c| && Keeps(c, c', |c|, 0)
    ensures Signed(c', p, n, hi) == Signed(c, p, n, hi)
  {
  }

  // rb_big_aref

  /** A negative number has the complement of a bit of its magnitude, unless only zeros are below. */
  lemma BitOfNegative(w: nat, k: nat)
    ensures Bit(0 - w, k) == (if w % Two(k) == 0 then Bit(w, k) else !Bit(w, k))
  {
    var t := Two(k);
    var q, r := w / t, w % t;
    assert w == q * t + r;
    if r == 0 {
      NegateProduct(q, t);
      DivUnique(0 - w, t, -q, 0);
    } else {
      NegateProduct(q + 1, t);
      Distrib(q, 1, t);
      DivUnique(0 - w, t, -(q + 1), t - r);
    }
  }

  lemma NegateProduct(q: int, t: int)
    ensures (-q) * t == 0 - q * t
  {
  }

  /** The digits below digit i and the bits below bit j of it are zero exactly when the number is a
      multiple of the power of two there. */
  lemma LowBits(c: seq<Digit>, p: nat, n: nat, i: nat, j: nat)
    requires p + n <= |c| && i < n && j < BITS
    ensures W(c, p, n) % Two(BITS * i + j) == W(c, p, i) + c[p + i] % Two(j) * P(i)
  {
    hide W, P, Two, Sh;
    var m := n - i - 1;
    WSplit(c, p, i, n - i);
    WHead(c, p + i, m);
    ShIs(W(c, p + i, n - i), i);
    PIsTwo(i);
    TwoAdd(BITS * i, j);
    BitsPerDigit();
    TwoAdd(j, BITS - j);
    LowBitsAlgebra(W(c, p, n), W(c, p, i), P(i), c[p + i], Two(j), Two(BITS - j), W(c, p + i + 1, m));
  }

  lemma LowBitsAlgebra(v: int, low: int, r: int, d: int, t: int, s: int, h: int)
    requires v == low + (d + t * s * h) * r && 0 <= low < r && 0 < t
    ensures r * t > 0 && v % (r * t) == low + d % t * r
  {
    var q, e := d / t, d % t;
    MulLe(1, t, r);
    MulLe(e + 1, t, r);
    Distrib(e, 1, r);
    MulLe(0, e, r);
    Commute(r, t);
    Distrib(q * t + e, t * s * h, r);
    Distrib(q * t, e, r);
    assert t * s * h * r == s * h * (r * t);
    assert q * t * r == q * (r * t);
    Distrib(q, s * h, r * t);
    DivUnique(v, r * t, q + s * h, low + e * r);
  }

  lemma BitOfW(c: seq<Digit>, p: nat, n: nat, i: nat, j: nat)
    requires p + n <= |c| && j < BITS
    ensures Bit(W(c, p, n), BITS * i + j) == (i < n && Bit(c[p + i], j))
  {
    assert Signed(c, p, n, false) == W(c, p, n);
    DigitsAre(c, p, n, false, i);
    BitOfDigit(W(c, p, n), i, j);
    if i >= n { BitOfZero(j); }
  }

  lemma BitOfZero(j: nat)
    ensures !Bit(0, j)
  {
  }

  /** rb_big_aref.  Only a negative zero, which no normalised bignum is, has wrong bits beyond its
      digits. */
  method Aref(mem: Memory, x: Big, index: int) returns (bit: bool)
    requires x.p + x.n <= |mem.cells|
    ensures bit == if index < 0 then false
                   else if !x.positive && W(mem.cells, x.p, x.n) == 0 && index / BITS >= x.n then true
                   else Bit(Value(mem.cells, x), index)
  {
    hide W, Bit, Two;
    if index < 0 { return false; }
    BitsPerDigit();
    var shift: nat := index;
    var s1, s2 := shift / BITS, shift % BITS;
    assert shift == BITS * s1 + s2;
    BitOfW(mem.cells, x.p, x.n, s1, s2);
    BitOfNegative(W(mem.cells, x.p, x.n), shift);
    if s1 >= x.n {
      BigPower(mem.cells, x.p, x.n, s1, s2);
      return !x.positive;
    }
    LowBits(mem.cells, x.p, x.n, s1, s2);
    var d := mem.cells[x.p + s1];
    if x.positive { return Bit(d, s2); }
    ghost var low := W(mem.cells, x.p, s1);
    LowPartsZero(low, d % Two(s2), P(s1));
    if d % Two(s2) != 0 { return !Bit(d, s2); }
    WZero(mem.cells, x.p, s1);
    var i := 0;
    while i < s1
      invariant 0 <= i <= s1 && forall k :: x.p <= k < x.p + i ==> mem.cells[k] == 0
    {
      if mem.cells[x.p + i] != 0 { return !Bit(d, s2); }
      i := i + 1;
    }
    return Bit(d, s2);
  }

  lemma LowPartsZero(low: nat, e: nat, r: nat)
    requires r > 0
    ensures (low + e * r == 0) == (low == 0 && e == 0)
  {
    if e > 0 { MulLe(1, e, r); }
  }

  /** A number of n digits is below every power of two beyond them. */
  lemma BigPower(c: seq<Digit>, p: nat, n: nat, i: nat, j: nat)
    requires p + n <= |c| && n <= i
    ensures W(c, p, n) % Two(BITS * i + j) == W(c, p, n)
  {
    PMono(n, i);
    PIsTwo(i);
    TwoMono(BITS * i, BITS * i + j);
    DivUnique(W(c, p, n), Two(BITS * i + j), 0, W(c, p, n));
  }

  // big_shift3

  /** Floor division of a number in two's complement by B^s */
  lemma SignedShift(c: seq<Digit>, p: nat, n: nat, hi: bool, s: nat)
    requires p + n <= |c| && s <= n
    ensures Signed(c, p, n, hi) / P(s) == Signed(c, p + s, n - s, hi)
  {
    var v, low := Signed(c, p, n, hi), W(c, p, s);
    WSplit(c, p, s, n - s);
    PAdd(s, n - s);
    var q := Signed(c, p + s, n - s, hi);
    if hi {
      Distrib(W(c, p + s, n - s), P(n - s), P(s));
      Commute(P(s), P(n - s));
    }
    DivUnique(v, P(s), q, low);
  }

  /** big_shift3 to the right, by s1 digits and then by 2^s2 == m: floor division by 2^(s1*BITSPERDIG+s2)
      for both signs.  A bignum without digits left, and a small one, are given as their value. */
  method RightShift(mem: Memory, x: Big, s1: nat, s2: nat) returns (z: Big)
    requires x.p + x.n <= |mem.cells| && s2 < BITS
    modifies mem
    ensures z.p + z.n <= |mem.cells| && Keeps(old(mem.cells), mem.cells, |old(mem.cells)|, 0)
    ensures Value(mem.cells, z) == old(Value(mem.cells, x)) / Two(BITS * s1 + s2)
  {
    ghost var c0 := mem.cells;
    ghost var v := Value(c0, x);
    if x.n <= s1 {
      var zero := ZeroP(mem, x.p, x.n);
      TooFar(c0, x, s1, s2);
      z := Constant(mem, x.positive || zero);
      KeepsIntro(c0, mem.cells, |c0|, 0);
      return;
    }
    var p, n, hi := AbsToTwoComp(mem, x);
    ghost var c1 := mem.cells;
    ShiftParts(v, s1, s2);
    if n <= s1 {
      FewDigits(c1, p, n, hi, s1, s2);
      z := Constant(mem, !hi);
      KeepsIntro(c0, mem.cells, |c0|, 0);
      return;
    }
    z := ShiftDigits(mem, p, n, hi, s1, s2);
    KeepsIntro(c0, mem.cells, |c0|, 0);
  }

  /** v shifted by both parts */
  lemma ShiftParts(v: int, s1: nat, s2: nat)
    ensures v / Two(BITS * s1 + s2) == v / P(s1) / Two(s2)
  {
    PIsTwo(s1);
    TwoAdd(BITS * s1, s2);
    DivDiv(v, P(s1), Two(s2));
  }

  /** INT2FIX(0) and INT2FIX(-1), as bignums */
  method Constant(mem: Memory, zero: bool) returns (z: Big)
    modifies mem
    ensures z.p + z.n <= |mem.cells| && Keeps(old(mem.cells), mem.cells, |old(mem.cells)|, 0)
    ensures Value(mem.cells, z) == if zero then 0 else -1
  {
    ghost var c0 := mem.cells;
    var p := mem.Alloc(1);
    mem.cells := mem.cells[p := if zero then 0 else 1];
    WOne(mem.cells, p);
    KeepsIntro(c0, mem.cells, |c0|, 0);
    z := Big(zero, p, 1);
  }

  /** A shift beyond all digits leaves 0 or -1. */
  lemma TooFar(c: seq<Digit>, x: Big, s1: nat, s2: nat)
    requires x.p + x.n <= |c| && x.n <= s1
    ensures Value(c, x) / Two(BITS * s1 + s2) == if x.positive || W(c, x.p, x.n) == 0 then 0 else -1
  {
    hide P, Two, W;
    var w: int := W(c, x.p, x.n);
    var t := Two(BITS * s1 + s2);
    PMono(x.n, s1);
    PIsTwo(s1);
    TwoMono(BITS * s1, BITS * s1 + s2);
    if x.positive || w == 0 { DivUnique(w, t, 0, w); } else { DivUnique(0 - w, t, -1, t - w); }
  }

  lemma FewDigits(c: seq<Digit>, p: nat, n: nat, hi: bool, s1: nat, s2: nat)
    requires p + n <= |c| && n <= s1
    ensures Signed(c, p, n, hi) / Two(BITS * s1 + s2) == if hi then -1 else 0
  {
    hide P, Two, W;
    var v, t := Signed(c, p, n, hi), Two(BITS * s1 + s2);
    PMono(n, s1);
    PIsTwo(s1);
    TwoMono(BITS * s1, BITS * s1 + s2);
    if hi { DivUnique(v, t, -1, v + t); } else { DivUnique(v, t, 0, v); }
  }

  /** The digits of the result, and the way back to sign and magnitude */
  method ShiftDigits(mem: Memory, p: nat, n: nat, hi: bool, s1: nat, s2: nat) returns (z: Big)
    requires p + n <= |mem.cells| && s1 < n && s2 < BITS
    modifies mem
    ensures z.p + z.n <= |mem.cells| && Keeps(old(mem.cells), mem.cells, |old(mem.cells)|, 0)
    ensures Value(mem.cells, z) == old(Signed(mem.cells, p, n, hi)) / P(s1) / Two(s2)
  {
    hide W, P, Two, Above, Mul;
    ghost var c0 := mem.cells;
    var zn := n - s1;
    var q := mem.Alloc(zn);
    ghost var c1 := mem.cells;
    BitsPerDigit();
    TwoAdd(s2, BITS - s2);
    TwoIsPow2(s2);
    SmallerPower(s2);
    var m := Two(s2);
    SmallRshift(mem, q, p + s1, zn, m, HiDigit(hi));
    ghost var c2 := mem.cells;
    SignedShift(c0, p, n, hi, s1);
    SameSigned(c0, c1, p + s1, zn, hi);
    ShiftedSigned(c1, p + s1, c2, q, zn, hi, m);
    z := TwoCompToAbs(mem, q, zn, hi);
    KeepsIntro(c0, mem.cells, |c0|, 0);
  }

  lemma SmallerPower(s: nat)
    requires s < BITS
    ensures Two(s) < B
  {
    BitsPerDigit();
    TwoAdd(s, BITS - s);
    TwoMono(1, BITS - s);
    MulLe(2, Two(BITS - s), Two(s));
    Commute(Two(s), Two(BITS - s));
  }

  /** What bary_small_rshift says of numbers in two's complement */
  lemma ShiftedSigned(c: seq<Digit>, x: nat, c': seq<Digit>, z: nat, n: nat, hi: bool, m: nat)
    requires x + n <= |c| && z + n <= |c'| && 0 < m < B && n > 0
    requires Above(HiDigit(hi), c, x, n) == Mul(m, Above(HiDigit(hi) / m, c', z, n)) + c[x] % m
    requires exists k: nat :: B == m * k
    ensures Signed(c', z, n, hi) == Signed(c, x, n, hi) / m
  {
    hide W, P, Sh, Mul;
    var k: nat :| B == m * k;
    var r: nat := c[x] % m;
    ShIs(HiDigit(hi), n);
    ShIs(HiDigit(hi) / m, n);
    MulIs(m, Above(HiDigit(hi) / m, c', z, n));
    if hi {
      TopQuotient(B, m, k);
      ShiftedNegative(W(c, x, n), W(c', z, n), P(n), m, k, B, r);
    } else {
      DivUnique(0, m, 0, 0);
    }
    Commute(m, Signed(c', z, n, hi));
    DivUnique(Signed(c, x, n, hi), m, Signed(c', z, n, hi), r);
  }

  lemma TopQuotient(b: nat, m: nat, k: nat)
    requires b == m * k && 0 < m && 0 < b
    ensures (b - 1) / m == k - 1
  {
    Commute(m, k);
    Distrib(k, 1, m);
    DivUnique(b - 1, m, k - 1, m - 1);
  }

  lemma ShiftedNegative(w: int, w': int, p: int, m: int, k: int, b: int, r: int)
    requires (b - 1) * p + w == m * ((k - 1) * p + w') + r && b == m * k
    ensures w - p == m * (w' - p) + r
  {
    Distrib(b, 1, p);
    Distrib(k, 1, p);
    assert m * (k * p - p + w') == m * (k * p) - m * p + m * w';
    assert m * (k * p) == m * k * p;
    assert m * (w' - p) == m * w' - m * p;
  }
}
