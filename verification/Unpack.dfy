/** bary_unpack_internal, in its generic form, and the round trip through packed words. */
module Unpack {
  import opened Arith
  import opened BDigits
  import opened Bary
  import opened Bits
  import opened PackFormat
  import opened Pack

  /** Digits written so far, and the bits waiting to make up the next one */
  datatype Sink = Sink(k: nat, dd: nat, numbits: nat)

  /** The k digits at z and the waiting bits stand for v, which has n bits. */
  ghost predicate Holds(c: seq<Digit>, z: nat, zn: nat, s: Sink, v: nat, n: nat) {
    && z + zn <= |c| && s.k <= zn && s.numbits < BITS && s.dd < Two(s.numbits)
    && s.numbits + BITS * s.k == n
    && W(c, z, s.k) + Sh(s.dd, s.k) == v
  }

  /** Nothing outside the window [z, z+zn) has changed. */
  ghost predicate Inside(c: seq<Digit>, c': seq<Digit>, z: nat, zn: nat) {
    |c'| == |c| && forall k :: 0 <= k < |c| && !(z <= k < z + zn) ==> c'[k] == c[k]
  }

  /** integer_unpack_push_bits */
  method PushBits(mem: Memory, z: nat, zn: nat, data: nat, b: nat, s: Sink, ghost v: nat, ghost n: nat)
    returns (t: Sink)
    requires Holds(mem.cells, z, zn, s, v, n) && b <= 8 && data < Two(b) && n + b <= BITS * zn
    modifies mem
    ensures Inside(old(mem.cells), mem.cells, z, zn)
    ensures Holds(mem.cells, z, zn, t, v + Scaled(data, n), n + b)
  {
    hide Two, W, P, Sh;
    BitsPerDigit();
    ghost var c0 := mem.cells;
    PushStep(c0, z, s, data, b, v, n);
    var k: nat, dd: nat, nb: nat := s.k, s.dd + Scaled(data, s.numbits), s.numbits + b;
    while BITS <= nb
      invariant Inside(c0, mem.cells, z, zn) && s.k <= k <= zn && dd < Two(nb) && nb + BITS * k == n + b
      invariant W(mem.cells, z, k) + Sh(dd, k) == v + Scaled(data, n)
      decreases nb
    {
      RoomForDigit(k, nb, zn);
      CutDigit(mem.cells, z, k, dd, nb);
      mem.cells := mem.cells[z + k := dd % B];
      k, dd, nb := k + 1, dd / B, nb - BITS;
    }
    t := Sink(k, dd, nb);
  }

  lemma PushStep(c: seq<Digit>, z: nat, s: Sink, data: nat, b: nat, v: nat, n: nat)
    requires z + s.k <= |c| && s.dd < Two(s.numbits) && s.numbits + BITS * s.k == n && data < Two(b)
    requires W(c, z, s.k) + Sh(s.dd, s.k) == v
    ensures var dd := s.dd + Scaled(data, s.numbits);
            dd < Two(s.numbits + b) && W(c, z, s.k) + Sh(dd, s.k) == v + Scaled(data, n)
  {
    hide Two, W, P;
    TwoAdd(s.numbits, b);
    TopDigit(s.dd, data, Two(s.numbits), Two(b));
    Commute(Two(s.numbits), Two(b));
    PIsTwo(s.k);
    TwoAdd(s.numbits, BITS * s.k);
    PushAlgebra(s.dd, data, Two(s.numbits), P(s.k));
  }

  lemma PushAlgebra(dd: int, data: int, t: int, p: int)
    ensures (dd + data * t) * p == dd * p + data * (t * p)
  {
    Distrib(dd, data * t, p);
    assert data * t * p == data * (t * p);
  }

  lemma RoomForDigit(k: nat, nb: nat, zn: nat)
    requires BITS <= nb && nb + BITS * k <= BITS * zn && BITS > 0
    ensures k < zn
  {
    if k >= zn { MulLe(zn, k, BITS); Commute(BITS, k); Commute(BITS, zn); }
  }

  /** BIGLO of the waiting bits is the next digit. */
  lemma CutDigit(c: seq<Digit>, z: nat, k: nat, dd: nat, nb: nat)
    requires z + k < |c| && BITS <= nb && dd < Two(nb)
    ensures dd / B >= 0 && dd / B < Two(nb - BITS) && nb - BITS + BITS * (k + 1) == nb + BITS * k
    ensures W(c[z + k := dd % B], z, k + 1) + Sh(dd / B, k + 1) == W(c, z, k) + Sh(dd, k)
  {
    hide Two, W;
    BitsPerDigit();
    TwoAdd(BITS, nb - BITS);
    DivNat(dd, B);
    var q, r := dd / B, dd % B;
    if q >= Two(nb - BITS) { MulLe(Two(nb - BITS), q, B); Commute(B, Two(nb - BITS)); }
    WWrite(c, z, k, r);
    CutAlgebra(q, r, B, P(k));
    Distrib(k, 1, BITS);
  }

  lemma CutAlgebra(q: int, r: int, b: int, p: int)
    ensures r * p + q * (b * p) == (q * b + r) * p
  {
    Distrib(q * b, r, p);
    assert q * b * p == q * (b * p);
  }

  /** What is read of byte i of a word: its used bits */
  function SeenByte(f: Format, w: Word, i: nat): nat
    requires Valid(f) && i < f.wordsize == |w|
  {
    ModNat(ByteAt(f, w, i), Two(BitsAt(f, i)));
    ByteAt(f, w, i) % Two(BitsAt(f, i))
  }

  lemma ModNat(a: nat, b: nat)
    requires b > 0
    ensures 0 <= a % b < b && (a < b ==> a % b == a)
  {
    if a < b { DivUnique(a, b, 0, a); }
  }

  function SeenWord(f: Format, w: Word, i: nat): nat
    requires Valid(f) && i <= f.wordsize == |w|
  {
    if i == 0 then 0 else SeenWord(f, w, i - 1) + Scaled(SeenByte(f, w, i - 1), BitPos(f, i - 1))
  }

  /** The number that the used bits of the k low words stand for */
  function Seen(f: Format, ws: Words, k: nat): nat
    requires Valid(f) && Fits(f, ws) && k <= f.numwords
  {
    if k == 0 then 0
    else Seen(f, ws, k - 1) + Scaled(SeenWord(f, ws[WordPlace(f, k - 1)], f.wordsize), Offset(f, k - 1))
  }

  lemma {:induction false} CleanSeenWord(f: Format, w: Word, i: nat)
    requires Valid(f) && i <= f.wordsize == |w| && CleanWord(f, w, i)
    ensures SeenWord(f, w, i) == WordVal(f, w, i)
  {
    if i > 0 {
      CleanSeenWord(f, w, i - 1);
      ModNat(ByteAt(f, w, i - 1), Two(BitsAt(f, i - 1)));
    }
  }

  lemma {:induction false} CleanSeen(f: Format, ws: Words, k: nat)
    requires Valid(f) && Fits(f, ws) && k <= f.numwords && Clean(f, ws, k)
    ensures Seen(f, ws, k) == Val(f, ws, k)
  {
    hide SeenWord, WordVal, CleanWord, Two, Offset;
    if k > 0 {
      CleanSeen(f, ws, k - 1);
      CleanSeenWord(f, ws[WordPlace(f, k - 1)], f.wordsize);
    }
  }

  lemma ScaledJoin(a: nat, d: nat, p: nat, n: nat)
    ensures Scaled(a + Scaled(d, p), n) == Scaled(a, n) + Scaled(d, n + p)
  {
    TwoAdd(n, p);
    hide Two;
    PushAlgebra(a, d, Two(p), Two(n));
    Commute(Two(n), Two(p));
  }

  /** PUSH_BITS of byte i of a word */
  method PushByte(mem: Memory, z: nat, zn: nat, f: Format, w: Word, i: nat, s: Sink, ghost v: nat, ghost n: nat)
    returns (t: Sink)
    requires Valid(f) && i < f.wordsize == |w| && n + BitPos(f, i + 1) <= BITS * zn
    requires Holds(mem.cells, z, zn, s, v + Scaled(SeenWord(f, w, i), n), n + BitPos(f, i))
    modifies mem
    ensures Inside(old(mem.cells), mem.cells, z, zn)
    ensures Holds(mem.cells, z, zn, t, v + Scaled(SeenWord(f, w, i + 1), n), n + BitPos(f, i + 1))
  {
    hide Two, Holds, BitPos, BitsAt, Scaled;
    BitPosNext(f, i);
    ModNat(ByteAt(f, w, i), Two(BitsAt(f, i)));
    var data := SeenByte(f, w, i);
    ScaledJoin(SeenWord(f, w, i), data, BitPos(f, i), n);
    t := PushBits(mem, z, zn, data, BitsAt(f, i), s, v + Scaled(SeenWord(f, w, i), n), n + BitPos(f, i));
  }

  /** The inner loops of bary_unpack_internal */
  method UnpackWord(mem: Memory, z: nat, zn: nat, f: Format, w: Word, s: Sink, ghost v: nat, ghost n: nat)
    returns (t: Sink)
    requires Valid(f) && |w| == f.wordsize && n + WordBits(f) <= BITS * zn && Holds(mem.cells, z, zn, s, v, n)
    modifies mem
    ensures Inside(old(mem.cells), mem.cells, z, zn)
    ensures Holds(mem.cells, z, zn, t, v + Scaled(SeenWord(f, w, f.wordsize), n), n + WordBits(f))
  {
    hide Two, Holds, BitPos, BitsAt, SeenWord, FullBytes, PartialBits, Scaled, WordBits;
    ghost var c0 := mem.cells;
    t := s;
    NothingSeen(f, w, n);
    BitPosNext(f, 0);
    var i := 0;
    while i < FullBytes(f)
      invariant 0 <= i <= FullBytes(f) <= f.wordsize && Inside(c0, mem.cells, z, zn)
      invariant Holds(mem.cells, z, zn, t, v + Scaled(SeenWord(f, w, i), n), n + BitPos(f, i))
    {
      BitPosNext(f, i);
      BelowWord(f, i + 1);
      t := PushByte(mem, z, zn, f, w, i, t, v, n);
      i := i + 1;
    }
    BitPosNext(f, i);
    if PartialBits(f) > 0 {
      BelowWord(f, i + 1);
      t := PushByte(mem, z, zn, f, w, i, t, v, n);
      i := i + 1;
    }
    OnlyNails(f, w, i);
  }

  lemma BelowWord(f: Format, i: nat)
    requires Valid(f)
    ensures BitPos(f, i) <= WordBits(f)
  {
  }

  lemma NothingSeen(f: Format, w: Word, n: nat)
    requires Valid(f) && |w| == f.wordsize
    ensures Scaled(SeenWord(f, w, 0), n) == 0 && BitPos(f, 0) == 0
  {
  }

  /** Bytes without used bits add nothing. */
  lemma {:induction false} OnlyNails(f: Format, w: Word, i: nat)
    requires Valid(f) && i <= f.wordsize == |w| && (i > FullBytes(f) || (i == FullBytes(f) && PartialBits(f) == 0))
    ensures SeenWord(f, w, f.wordsize) == SeenWord(f, w, i) && BitPos(f, i) == WordBits(f)
    decreases f.wordsize - i
  {
    hide Two;
    if i < f.wordsize {
      OnlyNails(f, w, i + 1);
      assert BitsAt(f, i) == 0;
      TwoOne();
      ModNat(ByteAt(f, w, i), 1);
    }
  }

  /** The outer loop of bary_unpack_internal, and what is left over at its end */
  method UnpackDigits(mem: Memory, z: nat, zn: nat, f: Format, ws: Words)
    requires Valid(f) && Fits(f, ws) && z + zn <= |mem.cells| && TotalBits(f) <= BITS * zn
    modifies mem
    ensures Inside(old(mem.cells), mem.cells, z, zn)
    ensures W(mem.cells, z, zn) == Seen(f, ws, f.numwords)
  {
    hide Two, Holds, Scaled, Offset, WordBits, SeenWord, W;
    ghost var c0 := mem.cells;
    var s, k := Sink(0, 0, 0), 0;
    EmptySink(c0, z, zn, f);
    while k < f.numwords
      invariant 0 <= k <= f.numwords && Inside(c0, mem.cells, z, zn)
      invariant Holds(mem.cells, z, zn, s, Seen(f, ws, k), Offset(f, k))
    {
      OffsetNext(f, k);
      OffsetMono(f, k + 1, f.numwords);
      s := UnpackWord(mem, z, zn, f, ws[WordPlace(f, k)], s, Seen(f, ws, k), Offset(f, k));
      k := k + 1;
    }
    FinishDigits(mem, z, zn, s, Seen(f, ws, f.numwords), TotalBits(f));
  }

  lemma EmptySink(c: seq<Digit>, z: nat, zn: nat, f: Format)
    requires Valid(f) && z + zn <= |c|
    ensures Holds(c, z, zn, Sink(0, 0, 0), 0, Offset(f, 0))
  {
    BitsPerDigit();
    TwoOne();
  }

  lemma {:induction false} OffsetMono(f: Format, j: nat, k: nat)
    requires Valid(f) && j <= k
    ensures Offset(f, j) <= Offset(f, k)
    decreases k
  {
    hide Offset;
    if j < k {
      OffsetMono(f, j, k - 1);
      OffsetNext(f, k - 1);
    }
  }

  /** The last digit, and zeros up to the end of the window */
  method FinishDigits(mem: Memory, z: nat, zn: nat, s: Sink, ghost v: nat, ghost n: nat)
    requires Holds(mem.cells, z, zn, s, v, n) && n <= BITS * zn
    modifies mem
    ensures Inside(old(mem.cells), mem.cells, z, zn)
    ensures W(mem.cells, z, zn) == v
  {
    hide Two, W, P, Sh;
    ghost var c0 := mem.cells;
    var k := s.k;
    BitsPerDigit();
    TwoOne();
    ShUnit(k);
    if s.dd != 0 {
      LastDigit(s, zn, n);
      WWrite(mem.cells, z, k, s.dd);
      mem.cells := mem.cells[z + k := s.dd];
      k := k + 1;
    }
    while k < zn
      invariant s.k <= k <= zn && Inside(c0, mem.cells, z, zn) && W(mem.cells, z, k) == v
    {
      WWrite(mem.cells, z, k, 0);
      ShUnit(k);
      mem.cells := mem.cells[z + k := 0];
      k := k + 1;
    }
  }

  lemma LastDigit(s: Sink, zn: nat, n: nat)
    requires s.numbits < BITS && 0 < s.dd < Two(s.numbits) && s.numbits + BITS * s.k == n <= BITS * zn
    ensures s.k < zn && s.dd < B
  {
    BitsPerDigit();
    TwoMono(s.numbits, BITS);
    if s.numbits == 0 { TwoOne(); }
    if s.k >= zn { MulLe(zn, s.k, BITS); Commute(BITS, s.k); Commute(BITS, zn); }
  }

  lemma {:induction false} SeenWordBound(f: Format, w: Word, i: nat)
    requires Valid(f) && i <= f.wordsize == |w|
    ensures SeenWord(f, w, i) < Two(BitPos(f, i))
    decreases i
  {
    hide Two, BitPos, BitsAt;
    BitPosNext(f, 0);
    TwoOne();
    if i > 0 {
      SeenWordBound(f, w, i - 1);
      BitPosNext(f, i - 1);
      TwoAdd(BitPos(f, i - 1), BitsAt(f, i - 1));
      ModNat(ByteAt(f, w, i - 1), Two(BitsAt(f, i - 1)));
      TopDigit(SeenWord(f, w, i - 1), SeenByte(f, w, i - 1), Two(BitPos(f, i - 1)), Two(BitsAt(f, i - 1)));
      Commute(Two(BitPos(f, i - 1)), Two(BitsAt(f, i - 1)));
    }
  }

  lemma {:induction false} SeenBound(f: Format, ws: Words, k: nat)
    requires Valid(f) && Fits(f, ws) && k <= f.numwords
    ensures Seen(f, ws, k) < Two(Offset(f, k))
    decreases k
  {
    hide Two, SeenWord, Offset, WordBits;
    TwoOne();
    OffsetNext(f, 0);
    if k > 0 {
      SeenBound(f, ws, k - 1);
      var m, w, o := WordBits(f), ws[WordPlace(f, k - 1)], Offset(f, k - 1);
      SeenWordBound(f, w, f.wordsize);
      BitPosNext(f, 0);
      OffsetNext(f, k - 1);
      TwoAdd(o, m);
      TopDigit(Seen(f, ws, k - 1), SeenWord(f, w, f.wordsize), Two(o), Two(m));
      Commute(Two(o), Two(m));
    }
  }

  /** The number n used bits of value v stand for */
  function UnpackedValue(v: nat, n: nat, twocomp: bool, negative: bool): int {
    if !twocomp then (if negative then 0 - v else v)
    else if negative then v - Two(n)
    else if n > 0 && v >= Two(n - 1) then v - Two(n)
    else v
  }

  /** The number a sign and a magnitude stand for; sign -2 is -2^n with magnitude 0. */
  function SignedValue(sign: int, mag: nat, n: nat): int {
    if sign == -2 then mag - Two(n) else sign * mag
  }

  /** The top digit in relation to the n bits of the number */
  lemma TopBits(c: seq<Digit>, z: nat, zn: nat, n: nat, nlp: nat)
    requires z + zn <= |c| && zn > 0 && nlp < BITS && BITS * zn == n + nlp && W(c, z, zn) < Two(n)
    ensures n > 0 && c[z + zn - 1] < Two(BITS - nlp)
    ensures c[z + zn - 1] >= Two(BITS - nlp - 1) <==> W(c, z, zn) >= Two(n - 1)
    ensures Two(BITS - nlp) <= B && Two(n) == Sh(Two(BITS - nlp), zn - 1) && P(zn) == Sh(B, zn - 1)
  {
    hide Two, W, P, Sh;
    BitsPerDigit();
    var m, t := zn - 1, c[z + zn - 1];
    Distrib(m, 1, BITS);
    Commute(BITS, zn);
    Commute(BITS, m);
    assert n == BITS * m + (BITS - nlp);
    PIsTwo(m);
    TwoAdd(BITS - nlp, BITS * m);
    TwoAdd(BITS - nlp - 1, BITS * m);
    TwoMono(BITS - nlp, BITS);
    WNext(c, z, m);
    ShIs(Two(BITS - nlp), m);
    ShIs(B, m);
    PNext(m);
    ShIs(t, m);
    TopCompare(W(c, z, m), t, P(m), Two(BITS - nlp));
    TopCompare(W(c, z, m), t, P(m), Two(BITS - nlp - 1));
  }

  lemma TopCompare(low: nat, t: nat, p: nat, s: nat)
    requires low < p
    ensures low + t * p >= s * p <==> t >= s
  {
    if t >= s { MulLe(s, t, p); } else { TopDigit(low, t, p, s); }
  }

  /** Ones in the unused bits of the top digit add up to the difference of B^zn and 2^n. */
  lemma FillTop(c: seq<Digit>, z: nat, zn: nat, n: nat, nlp: nat, t: nat)
    requires z + zn <= |c| && zn > 0 && nlp < BITS && BITS * zn == n + nlp && W(c, z, zn) < Two(n)
    requires t + Two(BITS - nlp) == c[z + zn - 1] + B as int
    ensures Two(n) <= P(zn) && t < B && W(c[z + zn - 1 := t], z, zn) == W(c, z, zn) + P(zn) - Two(n)
  {
    hide Two, W, P, Sh;
    TopBits(c, z, zn, n, nlp);
    var m := zn - 1;
    WWrite(c, z, m, t);
    WNext(c, z, m);
    ShAdd(c[z + m], B - Two(BITS - nlp), m);
    ShAdd(B, Two(BITS - nlp), m);
    ShIs(Two(BITS - nlp), m);
    ShIs(B, m);
    MulLe(Two(BITS - nlp), B, P(m));
  }

  /** bary_unpack_internal, generic: the digits of the magnitude, and the sign */
  method UnpackInternal(mem: Memory, z: nat, zn: nat, f: Format, ws: Words, twocomp: bool, negative: bool, nlp: nat)
    returns (sign: int)
    requires Valid(f) && Fits(f, ws) && z + zn <= |mem.cells| && nlp < BITS && BITS * zn == TotalBits(f) + nlp
    modifies mem
    ensures Inside(old(mem.cells), mem.cells, z, zn)
    ensures SignedValue(sign, W(mem.cells, z, zn), TotalBits(f))
         == UnpackedValue(Seen(f, ws, f.numwords), TotalBits(f), twocomp, negative)
  {
    hide Two, W, P, Sh, Seen, Offset;
    ghost var c0 := mem.cells;
    UnpackDigits(mem, z, zn, f, ws);
    ghost var c1 := mem.cells;
    SeenBound(f, ws, f.numwords);
    if !twocomp { return if negative then -1 else 1; }
    if zn == 0 {
      NoDigits(c1, z, TotalBits(f));
      return if negative then -2 else 1;
    }
    if nlp > 0 {
      sign := PaddedSign(mem, z, zn, negative, nlp, TotalBits(f));
    } else {
      sign := FullSign(mem, z, zn, negative, TotalBits(f));
    }
  }

  lemma NoDigits(c: seq<Digit>, z: nat, n: nat)
    requires z <= |c| && n == 0
    ensures W(c, z, 0) == 0 && Two(n) == 1
  {
    TwoOne();
  }

  /** Leading padding bits: a negative number gets ones there before its two's complement is taken. */
  method PaddedSign(mem: Memory, z: nat, zn: nat, negative: bool, nlp: nat, ghost n: nat) returns (sign: int)
    requires z + zn <= |mem.cells| && zn > 0 && 0 < nlp < BITS && BITS * zn == n + nlp && W(mem.cells, z, zn) < Two(n)
    modifies mem
    ensures Inside(old(mem.cells), mem.cells, z, zn)
    ensures SignedValue(sign, W(mem.cells, z, zn), n) == UnpackedValue(old(W(mem.cells, z, zn)), n, true, negative)
  {
    hide Two, W, P, Sh;
    BitsPerDigit();
    ghost var c0 := mem.cells;
    TopBits(c0, z, zn, n, nlp);
    var top := mem.cells[z + zn - 1];
    if negative || top >= Two(BITS - nlp - 1) {
      FillTop(c0, z, zn, n, nlp, top + (B - Two(BITS - nlp)));
      StrictTop(nlp, zn);
      mem.cells := mem.cells[z + zn - 1 := top + (B - Two(BITS - nlp))];
      var zero := TwoComp(mem, z, zn);
      return -1;
    }
    return 1;
  }

  lemma StrictTop(nlp: nat, zn: nat)
    requires 0 < nlp < BITS && zn > 0
    ensures Sh(Two(BITS - nlp), zn - 1) < Sh(B, zn - 1)
  {
    BitsPerDigit();
    TwoOrder(BITS - nlp, BITS);
    MulLe(Two(BITS - nlp) + 1, B, P(zn - 1));
    Distrib(Two(BITS - nlp), 1, P(zn - 1));
  }

  /** No padding: the sign is that of the flag or of the top bit. */
  method FullSign(mem: Memory, z: nat, zn: nat, negative: bool, ghost n: nat) returns (sign: int)
    requires z + zn <= |mem.cells| && zn > 0 && BITS * zn == n && W(mem.cells, z, zn) < Two(n)
    modifies mem
    ensures Inside(old(mem.cells), mem.cells, z, zn)
    ensures SignedValue(sign, W(mem.cells, z, zn), n) == UnpackedValue(old(W(mem.cells, z, zn)), n, true, negative)
  {
    hide Two, W, P, Sh;
    BitsPerDigit();
    ghost var c0 := mem.cells;
    TopBits(c0, z, zn, n, 0);
    PIsTwo(zn);
    if negative {
      var zero := ZeroP(mem, z, zn);
      if zero { return -2; }
    } else if mem.cells[z + zn - 1] < Two(BITS - 1) {
      return 1;
    }
    var zero := TwoComp(mem, z, zn);
    return -1;
  }
}
