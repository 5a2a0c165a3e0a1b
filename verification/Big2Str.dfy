/** big2str_generic: the digits of a bignum in a base, by repeated halving with powers of the base. */
module Big2Str {
  import opened Arith
  import opened BDigits
  import opened Bary
  import opened Shift
  import opened Bits
  import opened BigDivide
  import opened RadixDigits
  import opened PowerCache

  function Zeros(n: nat): seq<nat> {
    seq(n, _ => 0)
  }

  lemma {:induction false} PaddedZero(b: Base, n: nat)
    ensures Padded(b, 0, n) == Zeros(n)
  {
    if n > 0 {
      PaddedZero(b, n - 1);
      assert 0 / b == 0 && 0 % b == 0;
      assert Zeros(n) == Zeros(n - 1) + [0];
    }
  }

  /** Digits beyond those of x are zeros. */
  lemma PaddedMore(b: Base, x: nat, m: nat, n: nat)
    requires x < Pow(b, n)
    ensures Padded(b, x, m + n) == Zeros(m) + Padded(b, x, n)
  {
    PaddedCut(b, x, m, n);
    DivUnique(x, Pow(b, n), 0, x);
    PaddedZero(b, m);
  }

  /** The loop of big2str_2bdigits before output has begun: as many digits as there are.  They fit the
      local buffer, which has a place for each bit of two digits. */
  method AllDigits(b: Base, x: nat) returns (buf: seq<nat>)
    ensures buf == Digits(b, x) && (x < P(2) ==> |buf| <= 2 * BITS)
  {
    ShortDigits(b, x);
    hide P;
    var num: nat := x;
    buf := [];
    while num != 0
      invariant Digits(b, num) + buf == Digits(b, x)
      decreases num
    {
      Smaller(b, num);
      assert Digits(b, num) + buf == Digits(b, num / b) + ([num % b] + buf);
      buf, num := [num % b] + buf, num / b;
    }
  }

  /** The loop once output has begun: a fixed number of digits */
  method LowDigits(b: Base, x: nat, n: nat) returns (buf: seq<nat>)
    ensures buf == Padded(b, x, n)
  {
    var num: nat, j := x, n;
    buf := [];
    while j > 0
      invariant 0 <= j <= n && Padded(b, num, j) + buf == Padded(b, x, n)
    {
      DivNat(num, b);
      assert Padded(b, num, j) + buf == Padded(b, num / b, j - 1) + ([num % b] + buf);
      buf, num, j := [num % b] + buf, num / b, j - 1;
    }
  }

  // Division in place

  /** The operands of the division: x grows by one digit, and the divisor is used as it is or shifted
      into the work space behind x. */
  method PrepareInPlace(mem: Memory, x: nat, xn: nat, b: nat, bn: nat) returns (t: nat, m: nat)
    requires 0 < bn && x + xn + 1 + bn <= |mem.cells| && b + bn <= |mem.cells| && Apart(x, xn + 1 + bn, b, bn)
    requires mem.cells[b + bn - 1] != 0
    modifies mem
    ensures |mem.cells| == |old(mem.cells)| && Keeps(old(mem.cells), mem.cells, x, xn + 1 + bn)
    ensures Prepared(old(mem.cells), mem.cells, x, xn, b, bn, x, t, m) && 0 < m < B && IsPow2(m)
  {
    hide W, P, Sh, Up, Mul, IsPow2;
    ghost var c0 := mem.cells;
    m := Nlz(mem.cells[b + bn - 1]);
    if m == 1 {
      t := b;
      MulIs(1, W(c0, x, xn));
      MulIs(1, W(c0, b, bn));
      WWrite(c0, x, xn, 0);
      ShUnit(xn);
      mem.cells := mem.cells[x + xn := 0];
    } else {
      t := x + xn + 1;
      ShiftTop(c0, b, bn, m);
      var lost := SmallLshift(mem, t, b, bn, m);
      TopAtLeast(mem.cells, t, bn, lost, Mul(m, W(c0, b, bn)), Mul(m, c0[b + bn - 1]));
      ghost var c1 := mem.cells;
      HalfRadix(m);
      var out := ShiftInto(mem, x, x, xn, m);
      assert W(mem.cells, t, bn) == W(c1, t, bn);
    }
    KeepsIntro(c0, mem.cells, x, xn + 1 + bn);
  }

  /** The division of big2str_karatsuba: the remainder takes the low digits of x and the quotient the
      others. */
  method DivideInPlace(mem: Memory, x: nat, xn: nat, b: nat, bn: nat)
    requires 0 < bn <= xn && x + xn + 1 + bn <= |mem.cells| && b + bn <= |mem.cells| && Apart(x, xn + 1 + bn, b, bn)
    requires mem.cells[b + bn - 1] != 0
    modifies mem
    ensures |mem.cells| == |old(mem.cells)| && Keeps(old(mem.cells), mem.cells, x, xn + 1 + bn)
    ensures 0 < old(W(mem.cells, b, bn))
    ensures W(mem.cells, x, bn) == old(W(mem.cells, x, xn) % W(mem.cells, b, bn))
    ensures W(mem.cells, x + bn, xn + 1 - bn) == old(W(mem.cells, x, xn) / W(mem.cells, b, bn))
  {
    hide W, P, Sh, Up, Mul, IsPow2, Divided, Normalised, Above;
    ghost var c0 := mem.cells;
    ghost var xv, bv := W(c0, x, xn), W(c0, b, bn);
    TopPositive(c0, b, bn);
    var t, m := PrepareInPlace(mem, x, xn, b, bn);
    ghost var c1 := mem.cells;
    var stops: seq<nat> := *;
    Restoring(mem, x, xn + 1, t, bn, stops);
    Unshift(c1, mem.cells, x, xn + 1, t, bn, m, xv, bv);
    ghost var c2 := mem.cells;
    if m != 1 {
      SmallRshift(mem, x, x, bn, m, 0);
      ExactShift(c2, mem.cells, x, x, bn, m, xv % bv);
      assert W(mem.cells, x + bn, xn + 1 - bn) == W(c2, x + bn, xn + 1 - bn);
    } else {
      MulIs(1, xv % bv);
    }
    KeepsIntro(c0, mem.cells, x, xn + 1 + bn);
  }

  /** bary2bdigitdbl */
  method ReadTwo(mem: Memory, x: nat, xn: nat) returns (num: nat)
    requires xn <= 2 && x + xn <= |mem.cells|
    ensures num == W(mem.cells, x, xn)
  {
    hide W;
    WEmpty(mem.cells, x);
    if xn == 0 { return 0; }
    WOne(mem.cells, x);
    if xn == 1 { return mem.cells[x]; }
    TwoDigitValue(mem.cells, x);
    return mem.cells[x] + Up(mem.cells[x + 1]);
  }

  /** A number has no more digits than bits. */
  lemma {:induction false} DigitsFit(b: Base, x: nat, n: nat)
    requires x < Two(n)
    ensures |Digits(b, x)| <= n
    decreases n
  {
    if x > 0 {
      Smaller(b, x);
      assert n > 0;
      QuotientHalf(x, b);
      DigitsFit(b, x / b, n - 1);
    }
  }

  lemma ShortDigits(b: Base, x: nat)
    ensures x < P(2) ==> |Digits(b, x)| <= 2 * BITS
  {
    hide P, Digits;
    PIsTwo(2);
    if x < P(2) { DigitsFit(b, x, 2 * BITS); }
  }

  lemma QuotientHalf(x: nat, b: Base)
    ensures 0 <= x / b && 2 * (x / b) <= x
  {
    DivNat(x, b);
    MulLe(2, b, x / b);
    Commute(b, x / b);
  }

  /** The output: whether it has begun (ptr), the digits written, and how many there is room for */
  datatype Output = Output(started: bool, digits: seq<nat>, room: nat)

  /** What a call does that has x to write, in n places once output has begun, and leaves room for
      taillen digits behind it */
  ghost predicate Wrote(b: Base, o: Output, o': Output, x: nat, n: nat, taillen: nat) {
    if o.started then o' == o.(digits := o.digits + Padded(b, x, n))
    else if x == 0 then o' == o
    else o' == Output(true, Digits(b, x), |Digits(b, x)| + taillen)
  }

  function WithZeros(o: Output, n: nat): Output {
    if o.started then o.(digits := o.digits + Zeros(n)) else o
  }

  /** Zeros and then x in n places are x in more places. */
  lemma WroteMore(b: Base, o: Output, o': Output, x: nat, m: nat, n: nat, taillen: nat)
    requires Wrote(b, WithZeros(o, m), o', x, n, taillen) && 0 < x < Pow(b, n)
    ensures Wrote(b, o, o', x, m + n, taillen)
  {
    hide Pow, Padded, Digits;
    PaddedMore(b, x, m, n);
    Joined(o.digits, Zeros(m), Padded(b, x, n));
  }

  /** The quotient and then the remainder by a power of the base are the number. */
  lemma WroteHalves(b: Base, o: Output, o1: Output, o2: Output, x: nat, n: nat, taillen: nat, q: nat, r: nat)
    requires Pow(b, n) <= x && q == x / Pow(b, n) && r == x % Pow(b, n)
    requires Wrote(b, o, o1, q, n, n + taillen) && Wrote(b, o1, o2, r, n, taillen)
    ensures Wrote(b, o, o2, x, n + n, taillen)
  {
    hide Pow, Padded, Digits;
    var p := Pow(b, n);
    AtLeastOne(x, p);
    DigitsCut(b, x, n);
    PaddedCut(b, x, n, n);
    Joined(o.digits, Padded(b, q, n), Padded(b, r, n));
  }

  lemma AtLeastOne(x: nat, p: nat)
    requires 0 < p <= x
    ensures x / p > 0
  {
    if x / p == 0 { DivUnique(x, p, 0, x); }
  }

  class Writer {
    const mem: Memory
    const base: Base
    /** hbase2_numdigits: how many digits of the base two bignum digits hold */
    const k: nat
    /** The cached powers of the base */
    const table: seq<Entry>
    var output: Output

    constructor (m: Memory, b: Base, k0: nat, table0: seq<Entry>)
      ensures mem == m && base == b && k == k0 && table == table0 && output == Output(false, [], 0)
    {
      mem, base, k, table, output := m, b, k0, table0, Output(false, [], 0);
    }

    /** The work area is in memory and apart from the cached powers. */
    ghost predicate Ready(x: nat, size: nat)
      reads mem
    {
      && x + size <= |mem.cells| && Cached(mem.cells, base, k, table) && TwoDigitPower(base, k)
      && forall l :: 0 <= l < |table| ==> Apart(x, size, table[l].p, table[l].n)
    }

    /** The work space that a call at the given level needs behind its operand */
    function Space(level: nat): nat
      requires level <= |table|
    {
      if level == 0 then 0 else level + table[level - 1].n
    }

    /** The operand of a call: no leading zeros, and below the power of the level, which is cached
        unless the operand is not zero */
    ghost predicate Operand(x: nat, xn: nat, level: nat)
      reads mem
    {
      && x + xn <= |mem.cells| && level <= |table| && (xn > 0 ==> mem.cells[x + xn - 1] != 0)
      && W(mem.cells, x, xn) < Power(base, k, level) && (xn == 0 ==> level < |table|)
    }

    /** big2str_2bdigits */
    method TwoDigits(x: nat, xn: nat, taillen: nat)
      requires k >= 1 && xn <= 2 && x + xn <= |mem.cells|
      modifies this
      ensures Wrote(base, old(output), output, W(mem.cells, x, xn), k, taillen)
    {
      var num := ReadTwo(mem, x, xn);
      if !output.started {
        if num == 0 { return; }
        var buf := AllDigits(base, num);
        output := Output(true, buf, |buf| + taillen);
      } else {
        var buf := LowDigits(base, num, k);
        output := output.(digits := output.digits + buf);
      }
    }

    /** memset of '0' */
    method PutZeros(n: nat)
      modifies this
      ensures output == WithZeros(old(output), n)
    {
      if output.started { output := output.(digits := output.digits + Zeros(n)); }
    }

    /** Whether the number at x is below the cached power of the level */
    method Below(x: nat, xn: nat, level: nat) returns (below: bool)
      requires Ready(x, xn) && level < |table| && (xn > 0 ==> mem.cells[x + xn - 1] != 0)
      ensures below == (W(mem.cells, x, xn) < Power(base, k, level))
      ensures !below ==> table[level].n <= xn
    {
      hide W, P, Power, Span;
      var e := table[level];
      EntryParts(mem.cells, base, k, e, level);
      if xn < e.n { ShorterLess(mem.cells, x, xn, e.p, e.n); return true; }
      if xn > e.n { ShorterLess(mem.cells, e.p, e.n, x, xn); return false; }
      var r := Cmp(mem, x, xn, e.p, e.n);
      return r < 0;
    }

    /** The loop of big2str_karatsuba that looks for a power not above x */
    method FindLevel(x: nat, xn: nat, level: nat) returns (lower: nat, below: bool)
      requires Ready(x, xn) && Operand(x, xn, level) && 0 < level
      ensures lower < level && W(mem.cells, x, xn) < Power(base, k, lower + 1)
      ensures below == (W(mem.cells, x, xn) < Power(base, k, lower)) && (below ==> lower == 0)
      ensures !below ==> table[lower].n <= xn
    {
      hide W, P, Power, Span, Cached;
      lower := level - 1;
      below := Below(x, xn, lower);
      while 0 < lower && below
        invariant lower < level && below == (W(mem.cells, x, xn) < Power(base, k, lower))
        invariant W(mem.cells, x, xn) < Power(base, k, lower + 1) && (!below ==> table[lower].n <= xn)
      {
        lower := lower - 1;
        below := Below(x, xn, lower);
      }
    }

    /** big2str_karatsuba */
    method Karatsuba(x: nat, xn: nat, wn: nat, level: nat, taillen: nat)
      requires Ready(x, xn + wn) && Operand(x, xn, level) && Space(level) <= wn
      modifies this, mem
      ensures |mem.cells| == |old(mem.cells)| && Keeps(old(mem.cells), mem.cells, x, xn + wn)
      ensures Wrote(base, old(output), output, old(W(mem.cells, x, xn)), Span(k, level), taillen)
      decreases level
    {
      hide W, P, Pow, Span, Two, Power, Cached, Keeps, Padded, Digits;
      ghost var c0 := mem.cells;
      SameKept(c0, x, xn + wn);
      var zero := ZeroP(mem, x, xn);
      if zero {
        if xn > 0 { TopLong(c0, x, xn); }
        CachedEntry(c0, base, k, table, level);
        PaddedZero(base, Span(k, level));
        PutZeros(table[level].numdigits);
        return;
      }
      SpanNext(k, 0);
      if level == 0 {
        ShortNumber(c0, x, xn, base, k);
        TwoDigits(x, xn, taillen);
        return;
      }
      ghost var o := output;
      var lower, below := FindLevel(x, xn, level);
      CachedEntry(c0, base, k, table, lower);
      CachedEntry(c0, base, k, table, level - 1);
      var half := table[level - 1].numdigits;
      SpanNext(k, level - 1);
      SpanMono(k, lower, level - 1);
      if below {
        PutZeros(half * 2 - table[lower].numdigits);
        ShortNumber(c0, x, xn, base, k);
        TwoDigits(x, xn, taillen);
        PowerIs(base, k, 0);
        WroteMore(base, o, output, W(c0, x, xn), 2 * half - k, k, taillen);
      } else {
        SpanNext(k, lower);
        SpanMono(k, lower + 1, level);
        if lower != level - 1 { PutZeros((half - table[lower].numdigits) * 2); }
        NoZeros(o);
        Halves(x, xn, wn, level, lower, taillen);
        PowerIs(base, k, lower + 1);
        WroteMore(base, o, output, W(c0, x, xn), Span(k, level) - Span(k, lower + 1), Span(k, lower + 1), taillen);
      }
    }

    /** The division by a power of the base, and the two calls for quotient and remainder */
    method Halves(x: nat, xn: nat, wn: nat, level: nat, lower: nat, taillen: nat)
      requires Ready(x, xn + wn) && Operand(x, xn, level) && Space(level) <= wn && lower < level
      requires Power(base, k, lower) <= W(mem.cells, x, xn) < Power(base, k, lower + 1) && table[lower].n <= xn
      modifies this, mem
      ensures |mem.cells| == |old(mem.cells)| && Keeps(old(mem.cells), mem.cells, x, xn + wn)
      ensures Wrote(base, old(output), output, old(W(mem.cells, x, xn)), Span(k, lower + 1), taillen)
      decreases level, 0
    {
      hide W, P, Pow, Span, Two, Power, Cached, Keeps, Wrote;
      ghost var c0, o := mem.cells, output;
      ghost var xv := W(c0, x, xn);
      var bn, n, qn := Divide(x, xn, wn, level, lower);
      ghost var c1 := mem.cells;
      Karatsuba(x + bn, qn, xn + wn - (bn + qn), lower, n + taillen);
      ghost var c2, o1 := mem.cells, output;
      InsideKept(c1, c2, x + bn, xn + wn - bn, x, xn + wn);
      WindowKept(c1, c2, x + bn, xn + wn - bn, x, bn);
      CachedKept(c1, c2, x, xn + wn, base, k, table);
      var rn := Trunc(mem, x, bn);
      WEmpty(c2, x);
      Karatsuba(x, rn, xn + wn - rn, lower, taillen);
      KeptTwice(c0, c1, c2, x, xn + wn);
      KeptTwice(c0, c2, mem.cells, x, xn + wn);
      PowerIs(base, k, lower);
      SpanNext(k, lower);
      WroteHalves(base, o, o1, output, xv, n, taillen, W(c1, x + bn, qn), W(c1, x, bn));
    }

    /** The division: what is needed for the calls for quotient and remainder */
    method Divide(x: nat, xn: nat, wn: nat, level: nat, lower: nat) returns (bn: nat, n: nat, qn: nat)
      requires Ready(x, xn + wn) && Operand(x, xn, level) && Space(level) <= wn && lower < level
      requires Power(base, k, lower) <= W(mem.cells, x, xn) < Power(base, k, lower + 1) && table[lower].n <= xn
      modifies mem
      ensures |mem.cells| == |old(mem.cells)| && Keeps(old(mem.cells), mem.cells, x, xn + wn) && Ready(x, xn + wn)
      ensures n == Span(k, lower) && bn + qn <= xn + 1 && Power(base, k, lower) > 0
      ensures bn <= xn && Space(lower) + 1 <= wn && Operand(x + bn, qn, lower)
      ensures W(mem.cells, x, bn) == old(W(mem.cells, x, xn)) % Power(base, k, lower)
      ensures W(mem.cells, x + bn, qn) == old(W(mem.cells, x, xn)) / Power(base, k, lower)
    {
      hide W, P, Pow, Span, Two, Power, Cached, Keeps;
      ghost var c0 := mem.cells;
      ghost var xv, p := W(c0, x, xn), Power(base, k, lower);
      CachedEntry(c0, base, k, table, lower);
      EntriesGrow(c0, base, k, table, lower, level - 1);
      if lower > 0 { EntriesGrow(c0, base, k, table, lower - 1, level - 1); }
      PowerNext(base, k, lower);
      HalvesFit(xv, p);
      var e := table[lower];
      bn, n := e.n, e.numdigits;
      DivideInPlace(mem, x, xn, e.p, bn);
      ghost var c1 := mem.cells;
      InsideKept(c0, c1, x, xn + 1 + bn, x, xn + wn);
      CachedKept(c0, c1, x, xn + wn, base, k, table);
      qn := Trunc(mem, x + bn, xn + 1 - bn);
      WEmpty(c1, x + bn);
    }
  }

  lemma NoZeros(o: Output)
    ensures WithZeros(o, 0) == o
  {
    assert o.digits + Zeros(0) == o.digits;
  }

  lemma Joined(a: seq<nat>, b: seq<nat>, c: seq<nat>)
    ensures a + b + c == a + (b + c)
  {
  }

  /** Higher powers are not shorter. */
  lemma EntriesGrow(c: seq<Digit>, b: Base, k: nat, table: seq<Entry>, i: nat, j: nat)
    requires Cached(c, b, k, table) && i <= j < |table|
    ensures table[i].n <= table[j].n
  {
    hide W, P, Pow, Power, Span;
    EntryParts(c, b, k, table[i], i);
    EntryParts(c, b, k, table[j], j);
    SpanMono(k, i, j);
    PowMono(b, Span(k, i), Span(k, j));
    PowerIs(b, k, i);
    PowerIs(b, k, j);
    LongMono(Power(b, k, i), table[i].n, Power(b, k, j), table[j].n);
  }

  /** A number below the lowest power has at most two digits. */
  lemma ShortNumber(c: seq<Digit>, x: nat, xn: nat, b: Base, k: nat)
    requires x + xn <= |c| && (xn > 0 ==> c[x + xn - 1] != 0) && W(c, x, xn) < Power(b, k, 0) && TwoDigitPower(b, k)
    ensures xn <= 2
  {
    hide W, P, Pow;
    SpanNext(k, 0);
    PowerIs(b, k, 0);
    TwoIsSquare();
    if xn > 2 { TopLong(c, x, xn); PMono(2, xn - 1); }
  }

  lemma TwoIsSquare()
    ensures P(2) == B * B
  {
    assert P(0) == 1;
    PNext(0);
    PNext(1);
  }

  lemma HalvesFit(x: nat, p: nat)
    requires p >= 1 && p <= x < p * p
    ensures 0 < x / p < p && 0 <= x % p < p
  {
    DivNat(x, p);
    QuotientBelow(x, p, p);
    if x / p == 0 { DivUnique(x, p, 0, x); }
  }

  // The choice of the level

  /** A power with more digits than x is above x, and so is the square of one with more than half. */
  lemma PowerAbove(x: nat, xn: nat, p: nat, n: nat)
    requires Long(x, xn) && Long(p, n)
    ensures n > xn ==> x < p
    ensures n > (xn + 1) / 2 ==> x < p * p
  {
    hide P;
    if n > xn { PMono(xn, n - 1); }
    if n > (xn + 1) / 2 {
      PMono(xn, n - 1 + (n - 1));
      PAdd(n - 1, n - 1);
      MulLe(P(n - 1), p, P(n - 1));
      MulLe(P(n - 1), p, p);
      Commute(P(n - 1), p);
    }
  }

  /** The level chosen, or the next one, is high enough. */
  lemma LevelFits(c: seq<Digit>, b: Base, k: nat, table: seq<Entry>, level: nat, x: nat, xn: nat)
    requires Cached(c, b, k, table) && level < |table| && Long(x, xn) && table[level].n > (xn + 1) / 2
    ensures x < Power(b, k, if table[level].n <= xn then level + 1 else level)
  {
    hide P, Pow, Power, Span, W;
    EntryParts(c, b, k, table[level], level);
    PowerAbove(x, xn, Power(b, k, level), table[level].n);
    PowerNext(b, k, level);
  }

  /** MAX_BASE36_POWER_TABLE_ENTRIES, for sizes of 64 bits */
  const MAX_ENTRIES: nat := 65

  lemma LevelBound(c: seq<Digit>, b: Base, k: nat, e: Entry, level: nat, xn: nat)
    requires TwoDigitPower(b, k) && EntryOk(c, b, k, e, level) && e.n <= (xn + 1) / 2
    ensures Two(level + 1) < xn && (xn < Two(MAX_ENTRIES - 1) ==> level + 1 < MAX_ENTRIES - 1)
  {
    LevelDigits(c, b, k, e, level);
    assert Two(level + 1) == 2 * Two(level);
    hide Two;
    if MAX_ENTRIES - 1 <= level + 1 { TwoMono(MAX_ENTRIES - 1, level + 1); }
  }

  /** The loop of big2str_generic: the lowest level whose power has more than half the digits of x.  As
      long as the size of x fits 64 bits, no level beyond the table is asked for. */
  method ChooseLevel(mem: Memory, b: Base, k: nat, maxpow: nat, xn: nat, table0: seq<Entry>)
    returns (table: seq<Entry>, level: nat)
    requires TwoDigitPower(b, k) && maxpow == Pow(b, k) && Cached(mem.cells, b, k, table0)
    modifies mem
    ensures Keeps(old(mem.cells), mem.cells, |old(mem.cells)|, 0) && table0 <= table
    ensures Cached(mem.cells, b, k, table) && level < |table| && table[level].n > (xn + 1) / 2
    ensures level > 0 ==> table[level - 1].n <= (xn + 1) / 2 && Two(level) < xn
    ensures xn < Two(MAX_ENTRIES - 1) ==> level < MAX_ENTRIES - 1
  {
    hide W, P, Pow, Power, Span, Cached, Keeps, Two;
    ghost var c0 := mem.cells;
    level := 0;
    table := GetPower(mem, b, k, maxpow, table0, 0);
    CachedEntry(mem.cells, b, k, table, 0);
    while table[level].n <= (xn + 1) / 2
      invariant Keeps(c0, mem.cells, |c0|, 0) && table0 <= table && Cached(mem.cells, b, k, table) && level < |table|
      invariant level > 0 ==> table[level - 1].n <= (xn + 1) / 2 && Two(level) < xn
      invariant xn < Two(MAX_ENTRIES - 1) ==> level < MAX_ENTRIES - 1
      decreases P((xn + 1) / 2) - Power(b, k, level)
    {
      CachedEntry(mem.cells, b, k, table, level);
      LevelBound(mem.cells, b, k, table[level], level, xn);
      EntryParts(mem.cells, b, k, table[level], level);
      PMono(table[level].n, (xn + 1) / 2);
      PowerGrows(b, k, level);
      ghost var c1 := mem.cells;
      level := level + 1;
      table := GetPower(mem, b, k, maxpow, table, level);
      FreshTwice(c0, c1, mem.cells);
    }
  }

  /** The rest of big2str_generic, with the level chosen and the power of n digits that was fetched last:
      the number itself, or a copy of it with work space behind it, is written. */
  method WriteAll(mem: Memory, x: nat, xn: nat, b: Base, k: nat, table: seq<Entry>, level: nat, n: nat)
    returns (text: seq<nat>, room: nat)
    requires TwoDigitPower(b, k) && Cached(mem.cells, b, k, table) && level <= |table|
    requires 0 < xn && x + xn <= |mem.cells| && mem.cells[x + xn - 1] != 0 && W(mem.cells, x, xn) < Power(b, k, level)
    requires level > 0 ==> table[level - 1].n <= n
    modifies mem
    ensures Keeps(old(mem.cells), mem.cells, |old(mem.cells)|, 0)
    ensures text == Digits(b, old(W(mem.cells, x, xn))) && room == |text|
  {
    hide W, P, Pow, Power, Span, Cached, Keeps;
    ghost var c0 := mem.cells;
    SameKept(c0, |c0|, 0);
    TopLong(c0, x, xn);
    var w := new Writer(mem, b, k, table);
    if level == 0 {
      ShortNumber(c0, x, xn, b, k);
      w.TwoDigits(x, xn, 0);
    } else {
      var wn := level + n;
      var wds := mem.Alloc(xn + wn);
      ghost var c1 := mem.cells;
      FreshKept(c0, c1, wds, xn + wn);
      WindowKept(c0, c1, |c0|, 0, x, xn);
      Copy(mem, wds, x, xn);
      ghost var c2 := mem.cells;
      InsideKept(c1, c2, wds, xn, wds, xn + wn);
      WorkApart(c0, b, k, table, xn + wn);
      CachedKept(c0, c1, |c0|, 0, b, k, table);
      CachedKept(c1, c2, wds, xn + wn, b, k, table);
      w.Karatsuba(wds, xn, wn, level, 0);
      FreshChange(c0, c1, c2, wds, xn + wn);
      FreshChange(c0, c2, mem.cells, wds, xn + wn);
    }
    return w.output.digits, w.output.room;
  }

  lemma WorkApart(c: seq<Digit>, b: Base, k: nat, table: seq<Entry>, n: nat)
    requires Cached(c, b, k, table)
    ensures forall l :: 0 <= l < |table| ==> Apart(|c|, n, table[l].p, table[l].n)
  {
  }

  /** big2str_generic on the xn0 digits at x: the digits in base b, most significant first, without a
      leading zero; the buffer that was allocated with the first digit is filled exactly. */
  method Big2StrGeneric(mem: Memory, x: nat, xn0: nat, b: Base, table0: seq<Entry>)
    returns (text: seq<nat>, room: nat, table: seq<Entry>)
    requires x + xn0 <= |mem.cells| && CacheOf(mem.cells, b, table0)
    modifies mem
    ensures Keeps(old(mem.cells), mem.cells, |old(mem.cells)|, 0) && CacheOf(mem.cells, b, table) && table0 <= table
    ensures old(W(mem.cells, x, xn0)) == 0 ==> text == [0]
    ensures old(W(mem.cells, x, xn0)) > 0 ==> text == Digits(b, old(W(mem.cells, x, xn0))) && room == |text|
  {
    hide W, P, Pow, Power, Span, Cached, Keeps;
    ghost var c0 := mem.cells;
    SameKept(c0, |c0|, 0);
    var xn := Trunc(mem, x, xn0);
    WEmpty(mem.cells, x);
    if xn == 0 { return [0], 1, table0; }
    TopLong(c0, x, xn);
    ghost var xv := W(c0, x, xn);
    var maxpow, k := MaxPow(b);
    var level;
    table, level := ChooseLevel(mem, b, k, maxpow, xn, table0);
    ghost var c1 := mem.cells;
    WindowKept(c0, c1, |c0|, 0, x, xn0);
    WindowKept(c0, c1, |c0|, 0, x, xn);
    EveryCache(c1, b, k, table);
    var n := table[level].n;
    LevelFits(c1, b, k, table, level, xv, xn);
    if n <= xn { level := level + 1; }
    text, room := WriteAll(mem, x, xn, b, k, table, level, n);
    EveryCacheKept(c1, mem.cells, b, table);
    FreshTwice(c0, c1, mem.cells);
  }
}
