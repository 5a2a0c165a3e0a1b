/** The cached powers of a base: powers of its largest power that fits two digits. */
module PowerCache {
  import opened Arith
  import opened BDigits
  import opened Bary
  import opened Bits
  import opened RadixDigits
  import opened Square
  import opened BigMul

  /** maxpow_in_bdigit_dbl: the largest power of the base that two digits can hold */
  method MaxPow(b: Base) returns (maxpow: nat, exponent: nat)
    ensures TwoDigitPower(b, exponent) && maxpow == Pow(b, exponent)
  {
    hide Pow;
    PowNext(b, 0);
    maxpow, exponent := b, 1;
    var max := B * B - 1;
    MulLe(65536, B, B);
    while maxpow <= max / b
      invariant exponent >= 1 && maxpow == Pow(b, exponent) && maxpow <= max
      decreases max - maxpow
    {
      PowNext(b, exponent);
      QuotientFits(maxpow, b, max);
      maxpow, exponent := maxpow * b, exponent + 1;
      Commute(Pow(b, exponent - 1), b);
    }
    QuotientOver(maxpow, b, max);
  }

  lemma QuotientFits(m: nat, b: nat, max: nat)
    requires b > 0 && m <= max / b
    ensures m * b <= max
  {
    MulLe(m, max / b, b);
  }

  lemma QuotientOver(m: nat, b: nat, max: nat)
    requires b > 0 && m > max / b
    ensures max < b * m
  {
    MulLe(max / b + 1, m, b);
    Distrib(max / b, 1, b);
    Commute(b, m);
  }

  /** The number of digits that a call at the given level writes once output has begun */
  function Span(k: nat, level: nat): nat {
    k * Two(level)
  }

  lemma SpanNext(k: nat, level: nat)
    ensures Span(k, level + 1) == Span(k, level) + Span(k, level) && Span(k, 0) == k
  {
    assert k * (2 * Two(level)) == k * Two(level) + k * Two(level);
  }

  lemma {:induction false} SpanMono(k: nat, i: nat, j: nat)
    requires i <= j
    ensures Span(k, i) <= Span(k, j)
    decreases j
  {
    hide Span;
    if i < j {
      SpanMono(k, i, j - 1);
      SpanNext(k, j - 1);
    }
  }

  /** power_cache_get_power */
  function Power(b: Base, k: nat, level: nat): nat {
    Pow(b, Span(k, level))
  }

  lemma PowerNext(b: Base, k: nat, level: nat)
    ensures Power(b, k, level + 1) == Power(b, k, level) * Power(b, k, level) && Power(b, k, level) >= 1
  {
    SpanNext(k, level);
    PowAdd(b, Span(k, level), Span(k, level));
  }

  lemma PowerIs(b: Base, k: nat, level: nat)
    ensures Power(b, k, level) == Pow(b, Span(k, level))
  {
  }

  lemma {:induction false} PowerGrows(b: Base, k: nat, level: nat)
    requires k >= 1
    ensures 2 <= Power(b, k, level) < Power(b, k, level + 1)
    decreases level
  {
    if level == 0 {
      SpanNext(k, 0);
      PowMono(b, 1, k);
      PowNext(b, 0);
    } else {
      PowerGrows(b, k, level - 1);
    }
    PowerNext(b, k, level);
    hide Power;
    MulLe(2, Power(b, k, level), Power(b, k, level));
  }

  /** k digits of the base fit two bignum digits, and no more do. */
  ghost predicate TwoDigitPower(b: Base, k: nat) {
    k >= 1 && Pow(b, k) < B * B <= b * Pow(b, k)
  }

  lemma TwoDigitPowerUnique(b: Base, k: nat, m: nat)
    requires TwoDigitPower(b, k) && TwoDigitPower(b, m)
    ensures k == m
  {
    hide Pow;
    PowNext(b, k);
    PowNext(b, m);
    if k < m { PowMono(b, k + 1, m); }
    if m < k { PowMono(b, m + 1, k); }
  }

  /** A bignum of the cache, and the number of digits in the base that it stands for */
  datatype Entry = Entry(p: nat, n: nat, numdigits: nat)

  predicate EntryOk(c: seq<Digit>, b: Base, k: nat, e: Entry, level: nat) {
    && e.p + e.n <= |c| && W(c, e.p, e.n) == Power(b, k, level) && e.numdigits == Span(k, level)
    && e.n > 0 && c[e.p + e.n - 1] != 0
  }

  /** The entries of one base that are filled; they are filled from level 0 on. */
  ghost predicate Cached(c: seq<Digit>, b: Base, k: nat, table: seq<Entry>) {
    forall l :: 0 <= l < |table| ==> EntryOk(c, b, k, table[l], l)
  }

  ghost predicate CacheOf(c: seq<Digit>, b: Base, table: seq<Entry>) {
    forall k: nat :: TwoDigitPower(b, k) ==> Cached(c, b, k, table)
  }

  lemma EveryCache(c: seq<Digit>, b: Base, k: nat, table: seq<Entry>)
    requires TwoDigitPower(b, k) && Cached(c, b, k, table)
    ensures CacheOf(c, b, table)
  {
    hide TwoDigitPower, Cached;
    forall m: nat | TwoDigitPower(b, m)
      ensures Cached(c, b, m, table)
    {
      TwoDigitPowerUnique(b, k, m);
    }
  }

  lemma EveryCacheKept(c: seq<Digit>, c': seq<Digit>, b: Base, table: seq<Entry>)
    requires CacheOf(c, b, table) && Keeps(c, c', |c|, 0)
    ensures CacheOf(c', b, table)
  {
    hide TwoDigitPower, Cached;
    forall m: nat | TwoDigitPower(b, m)
      ensures Cached(c', b, m, table)
    {
      CachedKept(c, c', |c|, 0, b, m, table);
    }
  }

  /** Entries outlive every change apart from them. */
  lemma EntryKept(c: seq<Digit>, c': seq<Digit>, z: nat, zn: nat, b: Base, k: nat, e: Entry, level: nat)
    requires EntryOk(c, b, k, e, level) && Keeps(c, c', z, zn) && Apart(z, zn, e.p, e.n)
    ensures EntryOk(c', b, k, e, level)
  {
    hide W, P, Power, Span;
  }

  lemma CachedKept(c: seq<Digit>, c': seq<Digit>, z: nat, zn: nat, b: Base, k: nat, table: seq<Entry>)
    requires Cached(c, b, k, table) && Keeps(c, c', z, zn)
    requires forall l :: 0 <= l < |table| ==> Apart(z, zn, table[l].p, table[l].n)
    ensures Cached(c', b, k, table)
  {
    hide EntryOk, Keeps;
    forall l | 0 <= l < |table|
      ensures EntryOk(c', b, k, table[l], l)
    {
      EntryKept(c, c', z, zn, b, k, table[l], l);
    }
  }

  /** The table with one more entry */
  lemma CachedMore(c: seq<Digit>, b: Base, k: nat, table: seq<Entry>, e: Entry)
    requires Cached(c, b, k, table) && EntryOk(c, b, k, e, |table|)
    ensures Cached(c, b, k, table + [e])
  {
    hide EntryOk;
  }

  /** bigsq of a number of n digits, and bigtrunc */
  method Squared(mem: Memory, x: nat, n: nat) returns (z: nat, zn: nat)
    requires 0 < n && x + n <= |mem.cells| && mem.cells[x + n - 1] != 0
    modifies mem
    ensures Keeps(old(mem.cells), mem.cells, |old(mem.cells)|, 0) && |old(mem.cells)| <= z && z + zn <= |mem.cells|
    ensures W(mem.cells, z, zn) == old(W(mem.cells, x, n)) * old(W(mem.cells, x, n))
    ensures zn > 0 && mem.cells[z + zn - 1] != 0
  {
    hide W, P;
    ghost var c0 := mem.cells;
    z := mem.Alloc(2 * n);
    if n < KARATSUBA_MUL_DIGITS {
      SqFast(mem, z, 2 * n, x, n);
    } else {
      BaryMul(mem, z, 2 * n, x, n, x, n);
    }
    zn := Trunc(mem, z, 2 * n);
    KeepsIntro(c0, mem.cells, |c0|, 0);
    TopLong(c0, x, n);
    SquarePositive(W(c0, x, n), n);
    WEmpty(mem.cells, z);
  }

  lemma SquarePositive(v: nat, n: nat)
    requires Long(v, n)
    ensures v * v > 0
  {
    MulLe(1, v, v);
  }

  /** bdigitdbl2bary of the largest power below B^2, in a new bignum of two digits */
  method FirstPower(mem: Memory, b: Base, maxpow: nat) returns (p: nat)
    requires maxpow < B * B <= b * maxpow
    modifies mem
    ensures p == |old(mem.cells)| && |mem.cells| == p + 2 && Keeps(old(mem.cells), mem.cells, p, 2)
    ensures W(mem.cells, p, 2) == maxpow && mem.cells[p + 1] != 0
  {
    hide W, P, Sh;
    FirstTwo(b, maxpow);
    p := StoreTwo(mem, maxpow);
    TwoDigitValue(mem.cells, p);
    assert Up(0) == 0;
  }

  lemma FirstTwo(b: Base, v: nat)
    requires v < B * B <= b * v
    ensures v >= B
  {
    MulLe(b, 36, v);
    MulLe(65536, B, B);
  }

  /** power_cache_get_power: missing entries are made from the one below, down to level 0. */
  method GetPower(mem: Memory, b: Base, k: nat, maxpow: nat, table0: seq<Entry>, level: nat) returns (table: seq<Entry>)
    requires TwoDigitPower(b, k) && maxpow == Pow(b, k)
    requires Cached(mem.cells, b, k, table0)
    modifies mem
    ensures Keeps(old(mem.cells), mem.cells, |old(mem.cells)|, 0)
    ensures Cached(mem.cells, b, k, table) && level < |table| && table0 <= table
    ensures forall l :: |table0| <= l < |table| ==> table[l].p >= |old(mem.cells)|
    decreases level
  {
    hide W, P, Pow, Span, Power, EntryOk, Keeps;
    table := table0;
    ghost var c0 := mem.cells;
    SameKept(c0, |c0|, 0);
    if level >= |table| {
      var e: Entry;
      if level == 0 {
        var p := FirstPower(mem, b, maxpow);
        e := Entry(p, 2, k);
        ghost var c1 := mem.cells;
        FreshKept(c0, c1, p, 2);
        FirstEntry(c1, b, k, e);
        CachedKept(c0, c1, |c0|, 0, b, k, table);
      } else {
        table := GetPower(mem, b, k, maxpow, table, level - 1);
        if level < |table| { return; }
        ghost var c1 := mem.cells;
        var low := table[level - 1];
        EntryParts(c1, b, k, low, level - 1);
        var p, n := Squared(mem, low.p, low.n);
        e := Entry(p, n, 2 * low.numdigits);
        NextEntry(mem.cells, b, k, low, e, level - 1);
        CachedKept(c1, mem.cells, |c1|, 0, b, k, table);
        FreshTwice(c0, c1, mem.cells);
      }
      CachedMore(mem.cells, b, k, table, e);
      table := table + [e];
    }
  }

  lemma EntryParts(c: seq<Digit>, b: Base, k: nat, e: Entry, level: nat)
    requires EntryOk(c, b, k, e, level)
    ensures e.p + e.n <= |c| && W(c, e.p, e.n) == Power(b, k, level) && e.numdigits == Span(k, level)
    ensures e.n > 0 && c[e.p + e.n - 1] != 0 && Long(Power(b, k, level), e.n)
  {
    TopLong(c, e.p, e.n);
  }

  lemma FirstEntry(c: seq<Digit>, b: Base, k: nat, e: Entry)
    requires e.n == 2 && e.numdigits == k && e.p + 2 <= |c| && W(c, e.p, 2) == Pow(b, k) && c[e.p + 1] != 0
    ensures EntryOk(c, b, k, e, 0)
  {
    hide W, Pow;
    SpanNext(k, 0);
    PowerIs(b, k, 0);
  }

  lemma NextEntry(c: seq<Digit>, b: Base, k: nat, low: Entry, e: Entry, level: nat)
    requires e.p + e.n <= |c| && e.n > 0 && c[e.p + e.n - 1] != 0
    requires e.numdigits == 2 * low.numdigits && low.numdigits == Span(k, level)
    requires W(c, e.p, e.n) == Power(b, k, level) * Power(b, k, level)
    ensures EntryOk(c, b, k, e, level + 1)
  {
    hide W, Pow, Span;
    SpanNext(k, level);
    PowerNext(b, k, level);
  }

  /** The power of a level has more than 2^level digits. */
  lemma {:induction false} PowerLong(b: Base, k: nat, level: nat)
    requires TwoDigitPower(b, k)
    ensures Power(b, k, level) >= P(Two(level))
    decreases level
  {
    hide Pow, P;
    if level == 0 {
      SpanNext(k, 0);
      PowerIs(b, k, 0);
      FirstTwo(b, Pow(b, k));
      PowersLow();
    } else {
      PowerLong(b, k, level - 1);
      PowerNext(b, k, level - 1);
      hide Power;
      SquareMono(P(Two(level - 1)), Power(b, k, level - 1));
      PAdd(Two(level - 1), Two(level - 1));
    }
  }

  lemma PowersLow()
    ensures Two(0) == 1 && P(1) == B
  {
    assert P(0) == 1;
    PNext(0);
  }

  lemma SquareMono(x: nat, y: nat)
    requires x <= y
    ensures x * x <= y * y
  {
    MulLe(x, y, x);
    MulLe(x, y, y);
    Commute(x, y);
  }

  lemma LevelDigits(c: seq<Digit>, b: Base, k: nat, e: Entry, level: nat)
    requires TwoDigitPower(b, k) && EntryOk(c, b, k, e, level)
    ensures e.n > Two(level)
  {
    hide Pow, P, Power, Span, W, Two;
    PowerLong(b, k, level);
    EntryParts(c, b, k, e, level);
    if e.n <= Two(level) { PMono(e.n, Two(level)); }
  }

  lemma CachedEntry(c: seq<Digit>, b: Base, k: nat, table: seq<Entry>, level: nat)
    requires Cached(c, b, k, table) && level < |table|
    ensures EntryOk(c, b, k, table[level], level) && table[level].numdigits == Span(k, level)
  {
  }
}
