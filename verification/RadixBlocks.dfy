/** str2big_karatsuba: the text is read in blocks of as many digits as fit two bignum digits, and the
    blocks are combined, two by two, with powers of the base. */
module RadixBlocks {
  import opened Arith
  import opened BDigits
  import opened Bary
  import opened KaratsubaParts
  import opened BigMul
  import opened Bits
  import opened RadixDigits
  import opened PowerCache
  import opened Str2Big

  /** The number that blocks of k digits each stand for, least significant block first */
  function Join(b: Base, k: nat, u: seq<nat>): nat {
    if u == [] then 0
    else Join(b, k, u[..|u| - 1]) + Times(u[|u| - 1], Pow(b, Times(k, |u| - 1)))
  }

  lemma JoinSnoc(b: Base, k: nat, u: seq<nat>, d: nat)
    ensures Join(b, k, u + [d]) == Join(b, k, u) + Times(d, Pow(b, Times(k, |u|)))
  {
    assert (u + [d])[..|u|] == u;
  }

  /** One round of combining: a block and the next one, times the power of the base */
  function Pairs(power: nat, u: seq<nat>): (v: seq<nat>)
    ensures |v| == (|u| + 1) / 2
  {
    var n := |u|;
    if n == 0 then []
    else if n % 2 == 1 then Pairs(power, u[..n - 1]) + [u[n - 1]]
    else Pairs(power, u[..n - 2]) + [u[n - 2] + Times(power, u[n - 1])]
  }

  lemma {:induction false} PairsJoin(b: Base, k: nat, u: seq<nat>)
    ensures Join(b, 2 * k, Pairs(Pow(b, k), u)) == Join(b, k, u)
    decreases |u|
  {
    hide Pow, Times, Join;
    var n, power := |u|, Pow(b, k);
    if n == 0 {
      NoBlocks(b, k);
    } else if n % 2 == 1 {
      var u1, d := u[..n - 1], u[n - 1];
      PairsJoin(b, k, u1);
      JoinSnoc(b, 2 * k, Pairs(power, u1), d);
      SameExponent(k, n - 1);
      assert u == u1 + [d];
      JoinSnoc(b, k, u1, d);
    } else {
      var u1, lo, hi := u[..n - 2], u[n - 2], u[n - 1];
      PairsJoin(b, k, u1);
      JoinSnoc(b, 2 * k, Pairs(power, u1), lo + Times(power, hi));
      SameExponent(k, n - 2);
      JoinSnoc(b, k, u1, lo);
      JoinSnoc(b, k, u1 + [lo], hi);
      assert u == u1 + [lo] + [hi];
      TimesNext(k, n - 2);
      PowAdd(b, Times(k, n - 2), k);
      PairAlgebra(lo, hi, power, Pow(b, Times(k, n - 2)));
    }
  }

  lemma NoBlocks(b: Base, k: nat)
    ensures Join(b, k, []) == Join(b, 2 * k, []) == 0
  {
  }

  lemma SameExponent(k: nat, n: nat)
    requires n % 2 == 0
    ensures Times(2 * k, n / 2) == Times(k, n)
  {
    var h := n / 2;
    assert n == 2 * h;
    assert 2 * k * h == k * (2 * h);
  }

  lemma PairAlgebra(lo: nat, hi: nat, p: nat, s: nat)
    ensures s * p >= 0 && Times(lo + Times(p, hi), s) == Times(lo, s) + Times(hi, s * p)
  {
    Distrib(lo, p * hi, s);
    assert p * hi * s == hi * (s * p);
  }

  lemma PairsNext(power: nat, u: seq<nat>, i: nat)
    requires i < |u| && i % 2 == 0
    ensures Pairs(power, u[..i + 1]) == Pairs(power, u[..i]) + [u[i]]
    ensures i + 1 < |u| ==> Pairs(power, u[..i + 2]) == Pairs(power, u[..i]) + [u[i] + Times(power, u[i + 1])]
  {
    assert u[..i + 1][..i] == u[..i];
    if i + 1 < |u| { assert u[..i + 2][..i] == u[..i]; }
  }

  /** The blocks read so far and the one being filled stand for the digits at the end of the text. */
  ghost predicate ReadFrom(b: Base, k: nat, cs: string, t: nat, u: seq<nat>, dd: nat, g: nat)
    requires t <= |cs|
  {
    var es := Kept(cs[t..]);
    |es| == Times(k, |u|) + g && Number(b, es) == Join(b, k, u) + Times(dd, Pow(b, Times(k, |u|)))
  }

  lemma ReadStep(b: Base, k: nat, cs: string, t: nat, u: seq<nat>, dd: nat, g: nat)
    requires t < |cs| && ReadFrom(b, k, cs, t + 1, u, dd, g)
    ensures var c := ConvDigit(cs[t]);
            if c < 0 then ReadFrom(b, k, cs, t, u, dd, g)
            else ReadFrom(b, k, cs, t, u, dd + Times(c, Pow(b, g)), g + 1)
  {
    hide Pow, Number, Kept, ConvDigit;
    KeptCons(cs, t);
    var c, es := ConvDigit(cs[t]), Kept(cs[t + 1..]);
    if c >= 0 {
      NumberAppend(b, [c], es);
      OneDigitNumber(b, c);
      PowAdd(b, Times(k, |u|), g);
      ReadAlgebra(c, Pow(b, Times(k, |u|)), Pow(b, g), dd);
    }
  }

  lemma OneDigitNumber(b: Base, c: nat)
    ensures Number(b, [c]) == c
  {
    assert [c][..0] == [];
    assert b * 0 == 0;
  }

  lemma ReadAlgebra(c: int, p: int, s: int, dd: int)
    ensures (dd + c * s) * p == c * (p * s) + dd * p
  {
    Distrib(dd, c * s, p);
    assert c * s * p == c * (p * s);
  }

  /** A full block is stored. */
  lemma StoreBlock(b: Base, k: nat, cs: string, t: nat, u: seq<nat>, dd: nat, g: nat)
    requires t <= |cs| && ReadFrom(b, k, cs, t, u, dd, g)
    ensures Number(b, Kept(cs[t..])) == Join(b, k, u + [dd])
    ensures g == k ==> ReadFrom(b, k, cs, t, u + [dd], 0, 0)
  {
    hide Pow, Number, Kept;
    JoinSnoc(b, k, u, dd);
    TimesNext(k, |u|);
  }

  /** n blocks of k digits, the last one perhaps not full, have room for the digits. */
  predicate Full(k: nat, total: nat, n: nat) {
    (n > 0 ==> Times(k, n - 1) < total) && total <= Times(k, n)
  }

  /** The digits before and behind t are all the digits. */
  lemma KeptParts(cs: string, t: nat)
    requires t <= |cs|
    ensures |Kept(cs)| == |Kept(cs[..t])| + |Kept(cs[t..])|
  {
    KeptAppend(cs[..t], cs[t..]);
    assert cs == cs[..t] + cs[t..];
  }

  /** How far the reading has come at position t: digits are still to come and the block being
      filled takes m more of them, or all have been read. */
  ghost predicate Reading(b: Base, k: nat, cs: string, t: nat, u: seq<nat>, dd: nat, g: nat, base: nat, left: nat,
                          m: nat)
    requires t <= |cs|
  {
    && left == |Kept(cs[..t])|
    && (if left == 0 then Number(b, Kept(cs[t..])) == Join(b, k, u) && Full(k, |Kept(cs)|, |u|)
        else ReadFrom(b, k, cs, t, u, dd, g) && base == Pow(b, g) && 0 < m <= left && g < k
             && g + m == if left + g < k then left + g else k)
  }

  lemma ReadingStarts(b: Base, k: nat, cs: string, left: nat)
    requires k >= 1 && left == |Kept(cs)|
    ensures Reading(b, k, cs, |cs|, [], 0, 0, 1, left, if left < k then left else k)
  {
    assert cs[|cs|..] == [] && cs[..|cs|] == cs;
    PowNext(b, 0);
  }

  /** A character that is no digit is passed over. */
  lemma ReadingSkips(b: Base, k: nat, cs: string, t: nat, u: seq<nat>, dd: nat, g: nat, base: nat, left: nat, m: nat)
    requires t < |cs| && Reading(b, k, cs, t + 1, u, dd, g, base, left, m) && ConvDigit(cs[t]) < 0
    ensures Reading(b, k, cs, t, u, dd, g, base, left, m)
  {
    hide Pow, Number, Kept, ConvDigit, Join;
    KeptSnoc(cs, t);
    KeptCons(cs, t);
  }

  /** A digit is added to the block; a block that is full or last is stored. */
  lemma ReadingDigit(b: Base, k: nat, cs: string, t: nat, u: seq<nat>, dd: nat, g: nat, base: nat, left: nat, m: nat)
    requires t < |cs| && Reading(b, k, cs, t + 1, u, dd, g, base, left, m) && ConvDigit(cs[t]) >= 0 && k >= 1
    ensures left > 0 && m > 0
    ensures var dd' := dd + Times(ConvDigit(cs[t]), base);
            if m == 1 then Reading(b, k, cs, t, u + [dd'], 0, 0, 1, left - 1, if left - 1 < k then left - 1 else k)
            else Reading(b, k, cs, t, u, dd', g + 1, Times(base, b), left - 1, m - 1)
  {
    hide Number, Kept, ConvDigit, Join, Pow;
    KeptSnoc(cs, t);
    assert |Kept(cs[..t + 1])| == |Kept(cs[..t])| + 1;
    ReadStep(b, k, cs, t, u, dd, g);
    PowNext(b, g);
    PowNext(b, 0);
    Commute(base, b);
    var dd' := dd + Times(ConvDigit(cs[t]), base);
    StoreBlock(b, k, cs, t, u, dd', g + 1);
    KeptParts(cs, t);
    TimesNext(k, |u|);
  }

  lemma ReadingEnds(b: Base, k: nat, cs: string, u: seq<nat>, dd: nat, g: nat, base: nat, left: nat, m: nat)
    requires Reading(b, k, cs, 0, u, dd, g, base, left, m)
    ensures Join(b, k, u) == Number(b, Kept(cs)) && Full(k, |Kept(cs)|, |u|)
  {
    assert cs[..0] == [] && cs[0..] == cs;
  }

  lemma OneBlock(b: Base, k: nat, u: seq<nat>)
    requires |u| <= 1
    ensures Join(b, k, u) == if u == [] then 0 else u[0]
  {
    TimesNext(k, 0);
    PowNext(b, 0);
  }

  // Blocks in digit memory

  /** The digits of block j: it starts at digit unit*j and has unit digits, the last one perhaps fewer. */
  function BlockSize(nb: nat, unit: nat, j: nat): nat
    requires Times(unit, j) <= nb
  {
    if unit <= nb - Times(unit, j) then unit else nb - Times(unit, j)
  }

  /** There is a block j - 1, and so are all before it. */
  predicate HasBlocks(nb: nat, unit: nat, j: nat) {
    unit > 0 && (j == 0 || Times(unit, j - 1) < nb)
  }

  lemma FewerBlocks(nb: nat, unit: nat, j: nat)
    requires HasBlocks(nb, unit, j + 1)
    ensures HasBlocks(nb, unit, j) && Times(unit, j) < nb
  {
    if j > 0 { TimesNext(unit, j - 1); }
  }

  /** The values of the first j blocks */
  function Blocks(c: seq<Digit>, p: nat, nb: nat, unit: nat, j: nat): (s: seq<nat>)
    requires p + nb <= |c| && HasBlocks(nb, unit, j)
    ensures |s| == j
  {
    if j == 0 then []
    else
      FewerBlocks(nb, unit, j - 1);
      Blocks(c, p, nb, unit, j - 1) + [W(c, p + Times(unit, j - 1), BlockSize(nb, unit, j - 1))]
  }

  lemma BlocksNext(c: seq<Digit>, p: nat, nb: nat, unit: nat, j: nat)
    requires p + nb <= |c| && HasBlocks(nb, unit, j + 1)
    ensures HasBlocks(nb, unit, j) && Times(unit, j) < nb
    ensures Blocks(c, p, nb, unit, j + 1)
         == Blocks(c, p, nb, unit, j) + [W(c, p + Times(unit, j), BlockSize(nb, unit, j))]
  {
    FewerBlocks(nb, unit, j);
  }

  /** Blocks do not depend on digits behind them. */
  lemma {:induction false} BlocksKept(c: seq<Digit>, c': seq<Digit>, p: nat, nb: nat, unit: nat, j: nat)
    requires p + nb <= |c| && |c| <= |c'| && HasBlocks(nb, unit, j)
    requires forall i :: p <= i < p + nb && i < p + Times(unit, j) ==> c'[i] == c[i]
    ensures Blocks(c', p, nb, unit, j) == Blocks(c, p, nb, unit, j)
    decreases j
  {
    hide W, Times;
    if j > 0 {
      FewerBlocks(nb, unit, j - 1);
      TimesNext(unit, j - 1);
      BlocksKept(c, c', p, nb, unit, j - 1);
      WCopy(c', p + Times(unit, j - 1), c, p + Times(unit, j - 1), BlockSize(nb, unit, j - 1));
      BlocksNext(c, p, nb, unit, j - 1);
      BlocksNext(c', p, nb, unit, j - 1);
    }
  }

  /** Block j of all blocks */
  lemma {:induction false} BlockAt(c: seq<Digit>, p: nat, nb: nat, unit: nat, n: nat, j: nat)
    requires p + nb <= |c| && HasBlocks(nb, unit, n) && j < n
    ensures HasBlocks(nb, unit, j + 1) && Times(unit, j) < nb
    ensures Blocks(c, p, nb, unit, n)[j] == W(c, p + Times(unit, j), BlockSize(nb, unit, j))
    decreases n
  {
    hide W, Times;
    FewerBlocks(nb, unit, n - 1);
    BlocksNext(c, p, nb, unit, n - 1);
    if j < n - 1 { BlockAt(c, p, nb, unit, n - 1, j); }
  }

  /** n blocks are all there are. */
  predicate Covers(nb: nat, unit: nat, n: nat) {
    HasBlocks(nb, unit, n) && nb <= Times(unit, n)
  }

  predicate AllBelow(s: seq<nat>, q: nat) {
    forall i :: 0 <= i < |s| ==> s[i] < q
  }

  /** lo + q*hi fits where it is stored. */
  lemma PairFits(lo: nat, hi: nat, q: nat, unit: nat, plen: nat, rest: nat)
    requires lo < q && Long(q, plen) && plen <= unit && hi < P(rest)
    ensures Times(q, hi) + lo < P(unit + rest)
  {
    hide P;
    PMono(plen, unit);
    PAdd(unit, rest);
    MulLe(hi + 1, P(rest), q);
    Distrib(hi, 1, q);
    MulLe(q, P(unit), P(rest));
    Commute(P(rest), q);
    Commute(q, hi);
  }

  /** One step of the inner loop of str2big_karatsuba, with room for zn digits at z: the block of unit
      digits at x, or what is there of it, and the block behind it */
  method CombineAt(mem: Memory, z: nat, x: nat, left: nat, unit: nat, e: Entry)
    requires 0 < left && 0 < unit && z + left <= |mem.cells| && x + left <= |mem.cells| && Apart(z, left, x, left)
    requires e.p + e.n <= |mem.cells| && Apart(z, left, e.p, e.n) && Long(W(mem.cells, e.p, e.n), e.n) && e.n <= unit
    requires unit <= left ==> W(mem.cells, x, unit) < W(mem.cells, e.p, e.n)
    modifies mem
    ensures var zn := if 2 * unit <= left then 2 * unit else left;
            && Keeps(old(mem.cells), mem.cells, z, zn)
            && W(mem.cells, z, zn) == if unit > left then old(W(mem.cells, x, left))
                                      else
                                        var high: nat := old(W(mem.cells, x + unit, zn - unit));
                                        old(W(mem.cells, x, unit)) + Times(old(W(mem.cells, e.p, e.n)), high)
  {
    hide W, P, Sh, Keeps;
    var zn := if 2 * unit <= left then 2 * unit else left;
    if unit <= left {
      ghost var c0 := mem.cells;
      ghost var q, lo, hi := W(c0, e.p, e.n), W(c0, x, unit), W(c0, x + unit, zn - unit);
      BaryMul(mem, z, zn, e.p, e.n, x + unit, zn - unit);
      ghost var c1 := mem.cells;
      WindowKept(c0, c1, z, zn, x, unit);
      PairFits(lo, hi, q, unit, e.n, zn - unit);
      var carry := Add(mem, z, zn, z, zn, x, unit);
      NoWrap(W(mem.cells, z, zn), carry, Times(q, hi) + lo, zn);
      KeptTwice(c0, c1, mem.cells, z, zn);
    } else {
      Copy(mem, z, x, left);
    }
  }

  /** Two blocks of one size make a block of the double size. */
  lemma PairOfBlocks(c: seq<Digit>, p: nat, nb: nat, unit: nat, s: seq<nat>, j: nat)
    requires p + nb <= |c| && Covers(nb, unit, |s|) && s == Blocks(c, p, nb, unit, |s|)
    requires Times(2 * unit, j) < nb
    ensures Times(2 * unit, j) == Times(unit, 2 * j) && 2 * j < |s|
    ensures var left := nb - Times(2 * unit, j);
            if unit < left
            then 2 * j + 1 < |s| && s[2 * j] == W(c, p + Times(2 * unit, j), unit)
                 && s[2 * j + 1]
                    == W(c, p + Times(2 * unit, j) + unit, (if 2 * unit <= left then 2 * unit else left) - unit)
            else |s| == 2 * j + 1 && s[2 * j] == W(c, p + Times(2 * unit, j), left)
  {
    hide W;
    DoubleExponent(unit, j);
    hide Times;
    BeforeEnd(nb, unit, |s|, 2 * j);
    BlockAt(c, p, nb, unit, |s|, 2 * j);
    TimesNext(unit, 2 * j);
    if unit < nb - Times(unit, 2 * j) {
      BeforeEnd(nb, unit, |s|, 2 * j + 1);
      BlockAt(c, p, nb, unit, |s|, 2 * j + 1);
    } else {
      BelowEnd(nb, unit, |s|, 2 * j + 1);
    }
  }

  lemma BelowEnd(nb: nat, unit: nat, n: nat, j: nat)
    requires HasBlocks(nb, unit, n)
    ensures j < n ==> Times(unit, j) < nb
  {
    if j < n { ExpMono(unit, j, n - 1); }
  }

  lemma BeforeEnd(nb: nat, unit: nat, n: nat, j: nat)
    requires Covers(nb, unit, n)
    ensures Times(unit, j) < nb ==> j < n
  {
    if n <= j { ExpMono(unit, n, j); }
  }

  lemma DoubleExponent(unit: nat, j: nat)
    ensures Times(2 * unit, j) == Times(unit, 2 * j)
  {
    assert 2 * unit * j == unit * (2 * j);
  }

  lemma ExpMono(unit: nat, i: nat, j: nat)
    requires i <= j
    ensures Times(unit, i) <= Times(unit, j)
  {
    MulLe(i, j, unit);
    Commute(i, unit);
    Commute(j, unit);
  }

  /** What a round has done when it has come to block j of the double size */
  ghost predicate Combined(c: seq<Digit>, v: nat, nb: nat, unit: nat, q: nat, s: seq<nat>, j: nat)
    requires v + nb <= |c|
  {
    && HasBlocks(nb, 2 * unit, j)
    && Blocks(c, v, nb, 2 * unit, j) == Pairs(q, s[..if 2 * j <= |s| then 2 * j else |s|])
  }

  lemma CombinedNext(c0: seq<Digit>, c: seq<Digit>, c': seq<Digit>, u: nat, v: nat, nb: nat, unit: nat, q: nat,
                     s: seq<nat>, j: nat)
    requires u + nb <= |c0| && v + nb <= |c| <= |c'| && Covers(nb, unit, |s|) && s == Blocks(c0, u, nb, unit, |s|)
    requires Combined(c, v, nb, unit, q, s, j) && Times(2 * unit, j) < nb
    requires var i := Times(2 * unit, j);
             var left := nb - i;
             var zn := if 2 * unit <= left then 2 * unit else left;
             && Keeps(c, c', v + i, zn)
             && W(c', v + i, zn) == if unit <= left then W(c0, u + i, unit) + Times(q, W(c0, u + i + unit, zn - unit))
                                    else W(c0, u + i, left)
    ensures Combined(c', v, nb, unit, q, s, j + 1)
  {
    hide W, P, Pairs, Blocks, Times, Keeps;
    var i := Times(2 * unit, j);
    PairOfBlocks(c0, u, nb, unit, s, j);
    BelowKept(c, c', v, nb, i, if 2 * unit <= nb - i then 2 * unit else nb - i);
    BlocksKept(c, c', v, nb, 2 * unit, j);
    BlocksNext(c', v, nb, 2 * unit, j);
    PairsNext(q, s, 2 * j);
    assert 2 * j + 1 == |s| ==> s[..2 * j + 1] == s;
    if unit == nb - i { WEmpty(c0, u + i + unit); NoProduct(q); }
  }

  lemma BelowKept(c: seq<Digit>, c': seq<Digit>, v: nat, nb: nat, i: nat, n: nat)
    requires Keeps(c, c', v + i, n) && v + nb <= |c|
    ensures |c| <= |c'| && forall k :: v <= k < v + nb && k < v + i ==> c'[k] == c[k]
  {
  }

  lemma NoProduct(q: nat)
    ensures Times(q, 0) == 0
  {
  }

  /** The loop of str2big_karatsuba over the blocks of one level */
  method CombineBlocks(mem: Memory, u: nat, v: nat, nb: nat, unit: nat, e: Entry, ghost q: nat, ghost s: seq<nat>)
    returns (ghost t: seq<nat>)
    requires u + nb <= |mem.cells| && v + nb <= |mem.cells| && Apart(u, nb, v, nb)
    requires e.p + e.n <= |mem.cells| && Apart(v, nb, e.p, e.n) && W(mem.cells, e.p, e.n) == q && Long(q, e.n)
    requires e.n <= unit
    requires Covers(nb, unit, |s|) && s == Blocks(mem.cells, u, nb, unit, |s|) && AllBelow(s, q)
    modifies mem
    ensures Keeps(old(mem.cells), mem.cells, v, nb)
    ensures t == Pairs(q, s) && Covers(nb, 2 * unit, |t|) && v + nb <= |mem.cells|
    ensures t == Blocks(mem.cells, v, nb, 2 * unit, |t|)
  {
    hide W, P, Times, Keeps, Pairs, Blocks, Combined;
    ghost var c0 := mem.cells;
    ghost var j := 0;
    var i := 0;
    NothingCombined(c0, v, nb, unit, q, s);
    while i < nb
      invariant i == Times(2 * unit, j) && v + nb <= |c0| <= |mem.cells|
      invariant Keeps(c0, mem.cells, v, nb) && Combined(mem.cells, v, nb, unit, q, s, j)
      decreases nb - i
    {
      ghost var c := mem.cells;
      WindowKept(c0, c, v, nb, e.p, e.n);
      PairOfBlocks(c0, u, nb, unit, s, j);
      ghost var zn := if 2 * unit <= nb - i then 2 * unit else nb - i;
      BlocksThere(c0, c, v, nb, u, i, unit, zn);
      CombineAt(mem, v + i, u + i, nb - i, unit, e);
      PartKept(c0, c, mem.cells, v, nb, i, zn);
      CombinedNext(c0, c, mem.cells, u, v, nb, unit, q, s, j);
      TimesNext(2 * unit, j);
      i, j := i + 2 * unit, j + 1;
    }
    t := AllCombined(mem.cells, v, nb, unit, q, s, j);
  }

  lemma NothingCombined(c: seq<Digit>, v: nat, nb: nat, unit: nat, q: nat, s: seq<nat>)
    requires v + nb <= |c| && unit > 0
    ensures Combined(c, v, nb, unit, q, s, 0) && Times(2 * unit, 0) == 0 && Keeps(c, c, v, nb)
  {
    KeepsIntro(c, c, v, nb);
    assert s[..0] == [];
  }

  /** The blocks still to be read are unchanged. */
  lemma BlocksThere(c0: seq<Digit>, c: seq<Digit>, v: nat, nb: nat, u: nat, i: nat, unit: nat, zn: nat)
    requires Keeps(c0, c, v, nb) && u + nb <= |c0| && Apart(u, nb, v, nb) && i + zn <= nb && zn > 0
    ensures |c0| <= |c| && W(c, u + i, nb - i) == W(c0, u + i, nb - i)
    ensures unit <= zn ==>
              W(c, u + i, unit) == W(c0, u + i, unit) && W(c, u + i + unit, zn - unit) == W(c0, u + i + unit, zn - unit)
  {
    hide W;
  }

  lemma PartKept(c0: seq<Digit>, c: seq<Digit>, c': seq<Digit>, v: nat, nb: nat, i: nat, n: nat)
    requires Keeps(c0, c, v, nb) && Keeps(c, c', v + i, n) && i + n <= nb
    ensures Keeps(c0, c', v, nb) && |c| <= |c'|
  {
    KeepsIntro(c0, c', v, nb);
  }

  lemma AllCombined(c: seq<Digit>, v: nat, nb: nat, unit: nat, q: nat, s: seq<nat>, j: nat) returns (t: seq<nat>)
    requires v + nb <= |c| && Combined(c, v, nb, unit, q, s, j) && nb <= Times(2 * unit, j) && Covers(nb, unit, |s|)
    ensures t == Pairs(q, s) && Covers(nb, 2 * unit, |t|) && t == Blocks(c, v, nb, 2 * unit, |t|)
  {
    hide W;
    t := Blocks(c, v, nb, 2 * unit, j);
    DoubleExponent(unit, j);
    if 2 * j < |s| {
      ExpMono(unit, 2 * j, |s| - 1);
    }
    assert s[..|s|] == s;
  }

  /** The blocks of a round stay below the square of the power. */
  lemma {:induction false} PairsBelow(q: nat, s: seq<nat>)
    requires AllBelow(s, q) && q > 0
    ensures AllBelow(Pairs(q, s), q * q)
    decreases |s|
  {
    hide Times;
    var n := |s|;
    MulLe(1, q, q);
    if n > 0 && n % 2 == 1 {
      PairsBelow(q, s[..n - 1]);
    } else if n > 0 {
      PairsBelow(q, s[..n - 2]);
      PairBelow(s[n - 2], s[n - 1], q);
    }
  }

  lemma PairBelow(lo: nat, hi: nat, q: nat)
    requires lo < q && hi < q
    ensures lo + Times(q, hi) < q * q
  {
    MulLe(hi + 1, q, q);
    Distrib(hi, 1, q);
    Commute(q, hi);
  }

  // Reading

  /** The digits read so far keep within their blocks. */
  predicate InBounds(b: Base, k: nat, u: seq<nat>, dd: nat, g: nat) {
    AllBelow(u, Pow(b, k)) && dd < Pow(b, g) && g <= k
  }

  lemma InBoundsDigit(b: Base, k: nat, u: seq<nat>, dd: nat, g: nat, c: nat)
    requires InBounds(b, k, u, dd, g) && c < b && g < k
    ensures var dd' := dd + Times(c, Pow(b, g)); InBounds(b, k, u, dd', g + 1) && InBounds(b, k, u + [dd'], 0, 0)
  {
    hide Pow;
    PowNext(b, g);
    TopDigit(dd, c, Pow(b, g), b);
    PowMono(b, g + 1, k);
  }

  /** As long as digits are left there is room for another block. */
  lemma RoomForBlock(k: nat, total: nat, left: nat, n: nat, g: nat, nb: nat)
    requires k >= 1 && left > 0 && total == left + Times(k, n) + g && nb == 2 * ((total + k - 1) / k)
    ensures 2 * n + 2 <= nb
  {
    var q := (total + k - 1) / k;
    DivNat(total + k - 1, k);
    if q <= n { MulLe(q, n, k); Commute(n, k); }
  }

  lemma AllBlocks(k: nat, total: nat, n: nat, nb: nat)
    requires k >= 1 && nb == 2 * ((total + k - 1) / k) && Full(k, total, n)
    ensures nb == 2 * n
  {
    var q := (total + k - 1) / k;
    DivNat(total + k - 1, k);
    if q < n { MulLe(q, n - 1, k); Commute(n - 1, k); Commute(k, n); }
    if n < q { MulLe(n + 1, q, k); Distrib(n, 1, k); Commute(k, n); }
  }

  /** The blocks read are in memory, two digits each. */
  ghost predicate Stored(c: seq<Digit>, p: nat, nb: nat, u: seq<nat>) {
    p + nb <= |c| && HasBlocks(nb, 2, |u|) && u == Blocks(c, p, nb, 2, |u|)
  }

  /** A block is stored behind the others. */
  method PutBlock(mem: Memory, p: nat, nb: nat, i: nat, dd: nat, ghost u: seq<nat>)
    requires Stored(mem.cells, p, nb, u) && i == 2 * |u| && i + 2 <= nb && dd < B * B
    modifies mem
    ensures |mem.cells| == |old(mem.cells)| && Keeps(old(mem.cells), mem.cells, p, nb)
    ensures Stored(mem.cells, p, nb, u + [dd])
  {
    hide W, P, Blocks;
    ghost var c0 := mem.cells;
    PutTwo(mem, p + i, dd);
    BlocksKept(c0, mem.cells, p, nb, 2, |u|);
    BlocksNext(mem.cells, p, nb, 2, |u|);
    KeepsIntro(c0, mem.cells, p, nb);
  }

  /** The reading loop of str2big_karatsuba: blocks of k digits from the end of the text, the last
      one with what is left; they fill the nb digits at p exactly. */
  method ReadBlocks(mem: Memory, p: nat, nb: nat, b: Base, k: nat, cs: string, numDigits: nat)
    returns (ghost u: seq<nat>)
    requires TwoDigitPower(b, k) && Readable(b, cs) && numDigits == |Kept(cs)| && nb == 2 * ((numDigits + k - 1) / k)
    requires p + nb <= |mem.cells|
    modifies mem
    ensures |mem.cells| == |old(mem.cells)| && Keeps(old(mem.cells), mem.cells, p, nb)
    ensures Join(b, k, u) == Number(b, Kept(cs)) && AllBelow(u, Pow(b, k))
    ensures Stored(mem.cells, p, nb, u) && nb == 2 * |u|
  {
    hide Pow, Number, Kept, ConvDigit, Join, Reading, W, P, Stored, InBounds, Readable, Keeps, Times;
    ghost var c0 := mem.cells;
    var dd: nat, base: nat, left: nat, i := 0, 1, numDigits, 0;
    ghost var g: nat := 0;
    var m: nat := if left < k then left else k;
    u := [];
    var t: nat := |cs|;
    ReadingStarts(b, k, cs, left);
    NothingStored(c0, p, nb, b, k);
    while t > 0
      invariant 0 <= t <= |cs| && Reading(b, k, cs, t, u, dd, g, base, left, m) && InBounds(b, k, u, dd, g)
      invariant |mem.cells| == |c0| && Keeps(c0, mem.cells, p, nb) && Stored(mem.cells, p, nb, u) && i == 2 * |u|
    {
      t := t - 1;
      var c := ConvDigit(cs[t]);
      if c < 0 {
        ReadingSkips(b, k, cs, t, u, dd, g, base, left, m);
      } else {
        ReadingDigit(b, k, cs, t, u, dd, g, base, left, m);
        DigitRead(b, k, cs, t, u, dd, g, base, left, m, nb);
        InBoundsDigit(b, k, u, dd, g, c);
        BlockFits(b, k, u, dd + Times(c, base), g + 1);
        dd, base, left, m, g := dd + Times(c, base), Times(base, b), left - 1, m - 1, g + 1;
        if m == 0 {
          ghost var c1 := mem.cells;
          PutBlock(mem, p, nb, i, dd, u);
          KeptTwice(c0, c1, mem.cells, p, nb);
          u, dd, base, g, i := u + [dd], 0, 1, 0, i + 2;
          m := if left < k then left else k;
        }
      }
    }
    ReadingEnds(b, k, cs, u, dd, g, base, left, m);
    AllBlocks(k, numDigits, |u|, nb);
    BlockFits(b, k, u, dd, g);
  }

  lemma NothingStored(c: seq<Digit>, p: nat, nb: nat, b: Base, k: nat)
    requires p + nb <= |c|
    ensures Stored(c, p, nb, []) && InBounds(b, k, [], 0, 0) && Keeps(c, c, p, nb)
  {
    KeepsIntro(c, c, p, nb);
  }

  lemma BlockFits(b: Base, k: nat, u: seq<nat>, dd: nat, g: nat)
    requires InBounds(b, k, u, dd, g) && TwoDigitPower(b, k)
    ensures dd < B * B && AllBelow(u, Pow(b, k))
  {
    hide Pow;
    PowMono(b, g, k);
  }

  /** A digit that is read is below the base, and there is room for its block. */
  lemma DigitRead(b: Base, k: nat, cs: string, t: nat, u: seq<nat>, dd: nat, g: nat, base: nat, left: nat, m: nat,
                  nb: nat)
    requires t < |cs| && Reading(b, k, cs, t + 1, u, dd, g, base, left, m) && left > 0 && k >= 1
    requires Readable(b, cs) && nb == 2 * ((|Kept(cs)| + k - 1) / k)
    ensures ConvDigit(cs[t]) < b && base == Pow(b, g) && g < k && 2 * |u| + 2 <= nb
  {
    hide Pow, Number, Join, Kept, Readable;
    ReadableSoFar(b, cs, t);
    KeptParts(cs, t + 1);
    RoomForBlock(k, |Kept(cs)|, left, |u|, g, nb);
  }

  // The rounds

  /** The nb digits at u are blocks, of a size for the level, that together stand for the number. */
  ghost predicate Level(c: seq<Digit>, u: nat, nb: nat, unit: nat, b: Base, k: nat, level: nat, s: seq<nat>,
                        number: nat) {
    && u + nb <= |c| && unit == 2 * Two(level) && Covers(nb, unit, |s|) && s == Blocks(c, u, nb, unit, |s|)
    && Join(b, Span(k, level), s) == number && AllBelow(s, Power(b, k, level))
  }

  lemma FirstLevel(c: seq<Digit>, u: nat, nb: nat, b: Base, k: nat, s: seq<nat>, number: nat)
    requires Stored(c, u, nb, s) && nb == 2 * |s| && Join(b, k, s) == number && AllBelow(s, Pow(b, k))
    ensures Level(c, u, nb, 2, b, k, 0, s, number)
  {
    hide W, Blocks, Join, Pow;
    SpanNext(k, 0);
    PowerIs(b, k, 0);
  }

  lemma NextLevel(c: seq<Digit>, v: nat, nb: nat, unit: nat, b: Base, k: nat, level: nat, s: seq<nat>, t: seq<nat>,
                  number: nat)
    requires v + nb <= |c| && unit == 2 * Two(level) && t == Pairs(Power(b, k, level), s)
    requires Join(b, Span(k, level), s) == number && AllBelow(s, Power(b, k, level))
    requires Covers(nb, 2 * unit, |t|) && t == Blocks(c, v, nb, 2 * unit, |t|)
    ensures Level(c, v, nb, 2 * unit, b, k, level + 1, t, number)
  {
    hide W, Blocks, Join, Pow, Pairs, Span;
    PowerIs(b, k, level);
    PairsJoin(b, Span(k, level), s);
    PairsBelow(Power(b, k, level), s);
    PowerNext(b, k, level);
    SpanNext(k, level);
  }

  /** The power of a level is not longer than a block of the level. */
  lemma PowerFits(b: Base, k: nat, level: nat, n: nat)
    requires TwoDigitPower(b, k) && Long(Power(b, k, level), n)
    ensures n <= 2 * Two(level)
  {
    hide P, Pow, Span, Two;
    PowerIs(b, k, level);
    SpanIs(k, level);
    PowBlocks(b, k, Two(level));
    if n > 2 * Two(level) { PMono(2 * Two(level), n - 1); }
  }

  lemma SpanIs(k: nat, level: nat)
    ensures Span(k, level) == Times(k, Two(level))
  {
  }

  lemma {:induction false} PowBlocks(b: Base, k: nat, n: nat)
    requires Pow(b, k) < B * B
    ensures Pow(b, Times(k, n)) <= P(2 * n) && (n > 0 ==> Pow(b, Times(k, n)) < P(2 * n))
    decreases n
  {
    hide Pow, P, Times;
    TimesNext(k, 0);
    PowNext(b, 0);
    if n > 0 {
      PowBlocks(b, k, n - 1);
      TimesNext(k, n - 1);
      PowAdd(b, Times(k, n - 1), k);
      var m := 2 * (n - 1);
      PNext(m);
      PNext(m + 1);
      TwoMore(Pow(b, Times(k, n - 1)), Pow(b, k), P(m), B, P(m + 2));
    }
  }

  lemma TwoMore(x: nat, y: nat, p: nat, b: nat, q: nat)
    requires 0 < x <= p && y < b * b && q == b * (b * p)
    ensures x * y < q
  {
    MulLe(x, p, y);
    MulLe(y + 1, b * b, p);
    Distrib(y, 1, p);
    Commute(p, y);
    assert b * b * p == b * (b * p);
  }

  /** The entries of the cache are apart from the buffers. */
  predicate CacheApart(table: seq<Entry>, a: nat, n: nat) {
    forall l :: 0 <= l < |table| ==> Apart(a, n, table[l].p, table[l].n)
  }

  /** The level lasts as long as its buffer. */
  lemma LevelKept(c: seq<Digit>, c': seq<Digit>, u: nat, nb: nat, unit: nat, b: Base, k: nat, level: nat, s: seq<nat>,
                  number: nat)
    requires Level(c, u, nb, unit, b, k, level, s, number) && Keeps(c, c', |c|, 0)
    ensures Level(c', u, nb, unit, b, k, level, s, number)
  {
    hide W, Join, Power, Span, Blocks;
    BlocksKept(c, c', u, nb, unit, |s|);
  }

  lemma LevelParts(c: seq<Digit>, u: nat, nb: nat, unit: nat, b: Base, k: nat, level: nat, s: seq<nat>, number: nat)
    requires Level(c, u, nb, unit, b, k, level, s, number)
    ensures u + nb <= |c| && unit == 2 * Two(level) && Covers(nb, unit, |s|) && s == Blocks(c, u, nb, unit, |s|)
    ensures Join(b, Span(k, level), s) == number && AllBelow(s, Power(b, k, level))
  {
  }

  lemma ApartMore(table: seq<Entry>, table': seq<Entry>, a: nat, n: nat)
    requires CacheApart(table, a, n) && table <= table' && forall l :: |table| <= l < |table'| ==> table'[l].p >= a + n
    ensures CacheApart(table', a, n)
  {
  }

  lemma CachedBelow(c: seq<Digit>, b: Base, k: nat, table: seq<Entry>, n: nat)
    requires Cached(c, b, k, table)
    ensures CacheApart(table, |c|, n)
  {
    hide W, Power, Span;
  }

  /** The buffers: u and v are the halves of the 2*nb digits at a. */
  predicate Halves(a: nat, nb: nat, u: nat, v: nat) {
    (u == a && v == a + nb) || (u == a + nb && v == a)
  }

  /** One round: the blocks at u are combined into blocks of double size at v. */
  method Round(mem: Memory, b: Base, k: nat, a: nat, u: nat, v: nat, nb: nat, unit: nat, level: nat, table0: seq<Entry>,
               ghost s: seq<nat>, ghost number: nat) returns (table: seq<Entry>, ghost t: seq<nat>)
    requires TwoDigitPower(b, k) && Halves(a, nb, u, v) && a + 2 * nb <= |mem.cells|
    requires Cached(mem.cells, b, k, table0) && level < |table0| && CacheApart(table0, a, 2 * nb)
    requires Level(mem.cells, u, nb, unit, b, k, level, s, number)
    modifies mem
    ensures Keeps(old(mem.cells), mem.cells, a, 2 * nb) && |old(mem.cells)| <= |mem.cells|
    ensures Cached(mem.cells, b, k, table) && level + 1 < |table| && CacheApart(table, a, 2 * nb) && table0 <= table
    ensures Level(mem.cells, v, nb, 2 * unit, b, k, level + 1, t, number)
  {
    hide Pow, Join, Pairs, W, P, Cached, Keeps, Blocks, Span, Power, Level, Two, AllBelow, Covers;
    ghost var c0 := mem.cells;
    LevelParts(c0, u, nb, unit, b, k, level, s, number);
    CachedEntry(c0, b, k, table0, level);
    var e := table0[level];
    EntryParts(c0, b, k, e, level);
    PowerFits(b, k, level, e.n);
    t := CombineBlocks(mem, u, v, nb, unit, e, Power(b, k, level), s);
    ghost var c1 := mem.cells;
    InsideKept(c0, c1, v, nb, a, 2 * nb);
    CachedKept(c0, c1, a, 2 * nb, b, k, table0);
    NextLevel(c1, v, nb, unit, b, k, level, s, t, number);
    var maxpow := PowOf(b, k);
    table := GetPower(mem, b, k, maxpow, table0, level + 1);
    LevelKept(c1, mem.cells, v, nb, 2 * unit, b, k, level + 1, t, number);
    SizeKept(c0, c1, a, 2 * nb);
    ApartMore(table0, table, a, 2 * nb);
    SameBuffers(c0, c1, mem.cells, a, 2 * nb);
  }

  lemma SizeKept(c: seq<Digit>, c': seq<Digit>, z: nat, zn: nat)
    requires Keeps(c, c', z, zn)
    ensures |c| <= |c'|
  {
  }

  lemma SameBuffers(c: seq<Digit>, c1: seq<Digit>, c2: seq<Digit>, z: nat, zn: nat)
    requires Keeps(c, c1, z, zn) && Keeps(c1, c2, |c1|, 0)
    ensures Keeps(c, c2, z, zn) && |c| <= |c1| <= |c2|
  {
    KeepsIntro(c, c2, z, zn);
  }

  /** maxpow_in_bdigit_dbl, whose exponent k is known */
  method PowOf(b: Base, ghost k: nat) returns (maxpow: nat)
    requires TwoDigitPower(b, k)
    ensures maxpow == Pow(b, k)
  {
    hide Pow;
    var exponent;
    maxpow, exponent := MaxPow(b);
    TwoDigitPowerUnique(b, k, exponent);
  }

  /** One block is the number itself. */
  lemma LastLevel(c: seq<Digit>, u: nat, nb: nat, unit: nat, b: Base, k: nat, level: nat, s: seq<nat>, number: nat)
    requires Level(c, u, nb, unit, b, k, level, s, number) && nb <= unit
    ensures W(c, u, nb) == number
  {
    hide W, Join;
    TimesNext(unit, 0);
    if |s| > 1 { ExpMono(unit, 1, |s| - 1); }
    OneBlock(b, Span(k, level), s);
    if |s| == 0 {
      WEmpty(c, u);
    } else {
      BlockAt(c, u, nb, unit, |s|, 0);
    }
  }

  /** The buffers, and the blocks in the first one */
  method StartBlocks(mem: Memory, b: Base, k: nat, cs: string, numDigits: nat, nb: nat, table0: seq<Entry>)
    returns (a: nat, table: seq<Entry>, ghost s: seq<nat>)
    requires TwoDigitPower(b, k) && Readable(b, cs) && numDigits == |Kept(cs)| && nb == 2 * ((numDigits + k - 1) / k)
    requires Cached(mem.cells, b, k, table0)
    modifies mem
    ensures a == |old(mem.cells)| && a + 2 * nb <= |mem.cells| && Keeps(old(mem.cells), mem.cells, |old(mem.cells)|, 0)
    ensures Cached(mem.cells, b, k, table) && 0 < |table| && table0 <= table && CacheApart(table, a, 2 * nb)
    ensures Level(mem.cells, a, nb, 2, b, k, 0, s, Number(b, Kept(cs)))
  {
    hide Pow, Number, Kept, Join, W, P, Cached, Keeps, Blocks, Readable, Span, Power, Level;
    ghost var c0 := mem.cells;
    a := mem.Alloc(2 * nb);
    ghost var c1 := mem.cells;
    FreshKept(c0, c1, a, 2 * nb);
    CachedKept(c0, c1, |c0|, 0, b, k, table0);
    CachedBelow(c0, b, k, table0, 2 * nb);
    var maxpow := PowOf(b, k);
    table := GetPower(mem, b, k, maxpow, table0, 0);
    ApartMore(table0, table, a, 2 * nb);
    FreshTwice(c0, c1, mem.cells);
    ghost var c2 := mem.cells;
    s := ReadBlocks(mem, a, nb, b, k, cs, numDigits);
    FirstLevel(mem.cells, a, nb, b, k, s, Number(b, Kept(cs)));
    FreshChange(c0, c2, mem.cells, a, nb);
    InsideKept(c2, mem.cells, a, nb, a, 2 * nb);
    CachedKept(c2, mem.cells, a, 2 * nb, b, k, table);
  }

  /** BARY_TRUNC, and a new bignum with the digits */
  method NewNumber(mem: Memory, u: nat, nb: nat, ghost b: Base, ghost k: nat, ghost table: seq<Entry>)
    returns (z: nat, zn: nat)
    requires u + nb <= |mem.cells| && Cached(mem.cells, b, k, table)
    modifies mem
    ensures Keeps(old(mem.cells), mem.cells, |old(mem.cells)|, 0) && Cached(mem.cells, b, k, table)
    ensures z + zn <= |mem.cells| && W(mem.cells, z, zn) == old(W(mem.cells, u, nb))
    ensures (zn > 0 ==> mem.cells[z + zn - 1] != 0)
  {
    hide W, P, Cached, Keeps;
    ghost var c0 := mem.cells;
    zn := Trunc(mem, u, nb);
    z := mem.Alloc(zn);
    ghost var c1 := mem.cells;
    FreshKept(c0, c1, z, zn);
    WindowKept(c0, c1, |c0|, 0, u, zn);
    Copy(mem, z, u, zn);
    FreshChange(c0, c1, mem.cells, z, zn);
    CachedKept(c0, mem.cells, |c0|, 0, b, k, table);
  }

  /** str2big_karatsuba: the digits of the text, which fill nb bignum digits in blocks, are read and
      combined in two buffers that change places after every round. */
  method Str2BigKaratsuba(mem: Memory, b: Base, k: nat, cs: string, numDigits: nat, nb: nat, table0: seq<Entry>)
    returns (z: nat, zn: nat, table: seq<Entry>)
    requires TwoDigitPower(b, k) && Readable(b, cs) && numDigits == |Kept(cs)| && nb == 2 * ((numDigits + k - 1) / k)
    requires Cached(mem.cells, b, k, table0)
    modifies mem
    ensures Keeps(old(mem.cells), mem.cells, |old(mem.cells)|, 0) && Cached(mem.cells, b, k, table) && table0 <= table
    ensures z + zn <= |mem.cells| && W(mem.cells, z, zn) == Number(b, Kept(cs))
    ensures (zn > 0 ==> mem.cells[z + zn - 1] != 0)
  {
    hide Pow, Number, Kept, Join, Pairs, W, P, Cached, Keeps, Blocks, Readable, Span, Power, Level, CacheApart;
    ghost var c0, number := mem.cells, Number(b, Kept(cs));
    ghost var s;
    var a;
    a, table, s := StartBlocks(mem, b, k, cs, numDigits, nb, table0);
    var u: nat, v: nat, unit: nat, level: nat := a, a + nb, 2, 0;
    while unit < nb
      invariant a == |c0| && a + 2 * nb <= |mem.cells| && Halves(a, nb, u, v) && unit > 0
      invariant Keeps(c0, mem.cells, |c0|, 0) && Cached(mem.cells, b, k, table) && level < |table| && table0 <= table
      invariant CacheApart(table, a, 2 * nb) && Level(mem.cells, u, nb, unit, b, k, level, s, number)
      decreases nb - unit
    {
      ghost var c := mem.cells;
      table, s := Round(mem, b, k, a, u, v, nb, unit, level, table, s, number);
      FreshChange(c0, c, mem.cells, a, 2 * nb);
      u, v, unit, level := v, u, 2 * unit, level + 1;
    }
    LastLevel(mem.cells, u, nb, unit, b, k, level, s, number);
    ghost var c := mem.cells;
    z, zn := NewNumber(mem, u, nb, b, k, table);
    FreshTwice(c0, c, mem.cells);
  }
}
