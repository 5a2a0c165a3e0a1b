/** bary_pack, in its generic form. */
module Pack {
  import opened Arith
  import opened BDigits
  import opened Bits
  import opened PackFormat

  /** The bits still to be packed: dd holds numbits of them, the digits from dp on the others. */
  datatype Stream = Stream(dp: nat, dd: nat, numbits: nat)

  predicate StreamOk(c: seq<Digit>, de: nat, s: Stream) {
    s.dp <= de <= |c| && s.dd < Two(s.numbits) && s.numbits <= 2 * BITS
  }

  /** The number they stand for */
  function Left(c: seq<Digit>, de: nat, s: Stream): nat
    requires s.dp <= de <= |c|
  {
    s.dd + Scaled(W(c, s.dp, de - s.dp), s.numbits)
  }

  /** integer_pack_fill_dd */
  method FillDD(c: seq<Digit>, de: nat, s: Stream) returns (t: Stream)
    requires StreamOk(c, de, s)
    ensures StreamOk(c, de, t) && Left(c, de, t) == Left(c, de, s)
    ensures t.numbits >= BITS && (t.dp == de ==> t.dd == Left(c, de, t))
  {
    hide Two, W;
    BitsPerDigit();
    t := s;
    if s.dp < de && BITS <= 2 * BITS - s.numbits {
      FillStep(c, de, s);
      t := Stream(s.dp + 1, s.dd + Scaled(c[s.dp], s.numbits), s.numbits + BITS);
    } else if s.dp == de {
      TwoMono(s.numbits, 2 * BITS);
      WEmpty(c, de);
      t := Stream(s.dp, s.dd, 2 * BITS);
    }
    if t.dp == de { WEmpty(c, de); }
  }

  lemma FillStep(c: seq<Digit>, de: nat, s: Stream)
    requires StreamOk(c, de, s) && s.dp < de
    ensures var dd, n := s.dd + Scaled(c[s.dp], s.numbits), s.numbits + BITS;
            dd < Two(n) && dd + Scaled(W(c, s.dp + 1, de - s.dp - 1), n) == Left(c, de, s)
  {
    hide Two, W;
    BitsPerDigit();
    var d, w, t := c[s.dp], W(c, s.dp + 1, de - s.dp - 1), Two(s.numbits);
    WHead(c, s.dp, de - s.dp - 1);
    TwoAdd(s.numbits, BITS);
    TopDigit(s.dd, d, t, B);
    Commute(t, B);
    FillAlgebra(d, w, t, B);
  }

  lemma FillAlgebra(d: int, w: int, t: int, b: int)
    ensures (d + b * w) * t == d * t + w * (t * b)
  {
    Distrib(d, b * w, t);
    assert b * w * t == w * (t * b);
  }

  /** integer_pack_take_lowbits */
  method TakeLowbits(n: nat, c: seq<Digit>, de: nat, s: Stream) returns (low: nat, t: Stream)
    requires StreamOk(c, de, s) && n <= s.numbits
    ensures StreamOk(c, de, t) && low == Left(c, de, s) % Two(n) && Left(c, de, t) == Left(c, de, s) / Two(n)
  {
    hide Two, W;
    TwoAdd(n, s.numbits - n);
    TakeAlgebra(s.dd, W(c, s.dp, de - s.dp), Two(n), Two(s.numbits - n));
    low, t := s.dd % Two(n), Stream(s.dp, s.dd / Two(n), s.numbits - n);
  }

  lemma TakeAlgebra(dd: nat, w: nat, a: nat, b: nat)
    requires a > 0 && b > 0 && dd < a * b
    ensures dd / a < b
    ensures (dd + w * (a * b)) % a == dd % a && (dd + w * (a * b)) / a == dd / a + w * b
  {
    var q, r := dd / a, dd % a;
    if q >= b { MulLe(b, q, a); Commute(a, b); }
    Distrib(q, w * b, a);
    assert w * b * a == w * (a * b);
    DivUnique(dd + w * (a * b), a, q + w * b, r);
  }

  /** The low bits of r, as many as the i low bytes of a word use */
  ghost predicate Packed(f: Format, w: Word, i: nat, r: nat)
    requires Valid(f)
  {
    i <= f.wordsize == |w| && CleanWord(f, w, i) && WordVal(f, w, i) == r % Two(BitPos(f, i))
  }

  lemma PackStep(f: Format, w: Word, i: nat, r: nat, b: Byte)
    requires Valid(f) && Packed(f, w, i, r) && i < f.wordsize
    requires b == r / Two(BitPos(f, i)) % Two(BitsAt(f, i))
    ensures Packed(f, w[Place(f, i) := b], i + 1, r)
    ensures r / Two(BitPos(f, i)) / Two(BitsAt(f, i)) == r / Two(BitPos(f, i + 1))
  {
    hide Two, BitPos, BitsAt;
    BitPosNext(f, i);
    PutByte(f, w, i, b);
    BitsJoin(r, BitPos(f, i), BitsAt(f, i));
    ModBound(r / Two(BitPos(f, i)), Two(BitsAt(f, i)));
  }

  lemma ModBound(v: nat, m: nat)
    requires m > 0
    ensures 0 <= v % m < m
  {
  }

  lemma ByteBound(v: nat, n: nat)
    requires n <= 8
    ensures v % Two(n) < 256
  {
    hide Two;
    TwoMono(n, 8);
    TwoEight();
    ModBound(v, Two(n));
  }

  lemma TwoEight()
    ensures Two(8) == 256
  {
    assert Two(4) == 16;
    TwoAdd(4, 4);
  }

  /** The inner loops of bary_pack: one word takes the next WordBits bits of the stream. */
  method PackWord(f: Format, c: seq<Digit>, de: nat, s0: Stream, w0: Word) returns (w: Word, s: Stream)
    requires Valid(f) && StreamOk(c, de, s0) && |w0| == f.wordsize
    ensures StreamOk(c, de, s) && Packed(f, w, f.wordsize, Left(c, de, s0))
    ensures Left(c, de, s) == Left(c, de, s0) / Two(WordBits(f))
  {
    hide Two, BitPos, BitsAt, Left, WordVal, CleanWord, Packed, FullBytes, PartialBits;
    w, s := w0, s0;
    ghost var r := Left(c, de, s0);
    var i := 0;
    NonePacked(f, w, r);
    while i < FullBytes(f)
      invariant 0 <= i <= FullBytes(f) && StreamOk(c, de, s) && Packed(f, w, i, r) && |w| == f.wordsize
      invariant Left(c, de, s) == r / Two(BitPos(f, i))
    {
      BitPosNext(f, i);
      FullAt(f, i);
      w, s := PackByte(f, c, de, s, w, i, r);
      i := i + 1;
    }
    BitPosNext(f, i);
    if PartialBits(f) > 0 {
      FullAt(f, i);
      w, s := PackByte(f, c, de, s, w, i, r);
      i := i + 1;
    }
    while i < f.wordsize
      invariant FullBytes(f) <= i <= f.wordsize && StreamOk(c, de, s) && Packed(f, w, i, r) && |w| == f.wordsize
      invariant Left(c, de, s) == r / Two(BitPos(f, i)) && (i == FullBytes(f) ==> PartialBits(f) == 0)
    {
      FullAt(f, i);
      NoBits(r / Two(BitPos(f, i)));
      PackStep(f, w, i, r, 0);
      w := w[Place(f, i) := 0];
      i := i + 1;
    }
  }

  lemma FullAt(f: Format, i: nat)
    requires Valid(f)
    ensures BitsAt(f, i) == if i < FullBytes(f) then 8 else if i == FullBytes(f) then PartialBits(f) else 0
  {
  }

  lemma NoBits(v: nat)
    ensures v % Two(0) == 0 && v / Two(0) == v
  {
  }

  lemma NonePacked(f: Format, w: Word, r: nat)
    requires Valid(f) && |w| == f.wordsize
    ensures Packed(f, w, 0, r) && r / Two(BitPos(f, 0)) == r
  {
    NoBits(r);
  }

  /** FILL_DD, TAKE_LOWBITS and the byte written */
  method PackByte(f: Format, c: seq<Digit>, de: nat, s0: Stream, w0: Word, i: nat, ghost r: nat)
    returns (w: Word, s: Stream)
    requires Valid(f) && StreamOk(c, de, s0) && i < f.wordsize && Packed(f, w0, i, r)
    requires Left(c, de, s0) == r / Two(BitPos(f, i))
    ensures StreamOk(c, de, s) && Packed(f, w, i + 1, r) && |w| == |w0| && Left(c, de, s) == r / Two(BitPos(f, i + 1))
  {
    hide Two, BitPos, Left, StreamOk, WordVal, CleanWord;
    BitsPerDigit();
    s := FillDD(c, de, s0);
    var n := BitsAt(f, i);
    StreamRoom(c, de, s);
    var b;
    b, s := TakeLowbits(n, c, de, s);
    ByteBound(r / Two(BitPos(f, i)), n);
    PackStep(f, w0, i, r, b);
    w := w0[Place(f, i) := b];
  }

  lemma StreamRoom(c: seq<Digit>, de: nat, s: Stream)
    requires StreamOk(c, de, s)
    ensures s.numbits <= 2 * BITS
  {
  }

  /** The low bits of r, as many as k words use */
  ghost predicate PackedWords(f: Format, ws: Words, k: nat, r: nat)
    requires Valid(f)
  {
    Fits(f, ws) && k <= f.numwords && Clean(f, ws, k) && Val(f, ws, k) == r % Two(Offset(f, k))
  }

  lemma PackWordStep(f: Format, ws: Words, k: nat, r: nat, w: Word)
    requires Valid(f) && PackedWords(f, ws, k, r) && k < f.numwords && Packed(f, w, f.wordsize, High(r, Offset(f, k)))
    ensures PackedWords(f, ws[WordPlace(f, k) := w], k + 1, r)
    ensures High(r, Offset(f, k)) / Two(WordBits(f)) == High(r, Offset(f, k + 1))
  {
    hide Two, Offset, WordVal, CleanWord, WordBits, BitPos;
    PutWord(f, ws, k, w);
    OffsetNext(f, k);
    BitPosNext(f, 0);
    BitsJoin(r, Offset(f, k), WordBits(f));
  }

  lemma NoWords(f: Format, ws: Words, r: nat)
    requires Valid(f) && Fits(f, ws)
    ensures PackedWords(f, ws, 0, r) && High(r, Offset(f, 0)) == r
  {
    NoBits(r);
  }

  /** The outer loop of bary_pack */
  method PackAll(f: Format, c: seq<Digit>, de: nat, s0: Stream, ws0: Words) returns (ws: Words, s: Stream)
    requires Valid(f) && StreamOk(c, de, s0) && Fits(f, ws0)
    ensures StreamOk(c, de, s) && PackedWords(f, ws, f.numwords, Left(c, de, s0))
    ensures Left(c, de, s) == Left(c, de, s0) / Two(TotalBits(f))
  {
    hide Two, Offset, WordBits, Left, Packed, PackedWords;
    ws, s := ws0, s0;
    ghost var r := Left(c, de, s0);
    var k := 0;
    NoWords(f, ws, r);
    while k < f.numwords
      invariant 0 <= k <= f.numwords && StreamOk(c, de, s) && Fits(f, ws) && PackedWords(f, ws, k, r)
      invariant Left(c, de, s) == High(r, Offset(f, k))
    {
      var w;
      w, s := PackWord(f, c, de, s, ws[WordPlace(f, k)]);
      PackWordStep(f, ws, k, r, w);
      PackedSize(f, w, High(r, Offset(f, k)));
      ws := ws[WordPlace(f, k) := w];
      k := k + 1;
    }
  }

  lemma PackedSize(f: Format, w: Word, r: nat)
    requires Valid(f) && Packed(f, w, f.wordsize, r)
    ensures |w| == f.wordsize
  {
  }

  // The two's complement pass

  /** The complement of the i low bytes of w, plus a carry, is in w' and the carry behind it. */
  ghost predicate Complemented(f: Format, w: Word, w': Word, i: nat, carry: nat, out: nat)
    requires Valid(f)
  {
    && i <= f.wordsize == |w| == |w'| && out <= 1
    && CleanWord(f, w, f.wordsize) && CleanWord(f, w', f.wordsize)
    && (forall k :: i <= k < f.wordsize ==> ByteAt(f, w', k) == ByteAt(f, w, k))
    && WordVal(f, w', i) + Scaled(out, BitPos(f, i)) == Two(BitPos(f, i)) - 1 - WordVal(f, w, i) + carry
  }

  lemma ComplementStep(f: Format, w: Word, w': Word, i: nat, carry: nat, mid: nat, b: Byte, out: nat)
    requires Valid(f) && Complemented(f, w, w', i, carry, mid) && i < f.wordsize
    requires var n := BitsAt(f, i); b + Scaled(out, n) == mid + (Two(n) - 1 - ByteAt(f, w, i)) && b < Two(n) && out <= 1
    ensures Complemented(f, w, w'[Place(f, i) := b], i + 1, carry, out)
  {
    hide Two, BitPos, BitsAt;
    BitPosNext(f, i);
    PutByte(f, w', i, b);
    var p, n := BitPos(f, i), BitsAt(f, i);
    TwoAdd(p, n);
    ComplementAlgebra(WordVal(f, w', i), WordVal(f, w, i), mid, out, b, ByteAt(f, w, i), carry, Two(p), Two(n));
  }

  lemma ComplementAlgebra(v': int, v: int, mid: int, out: int, b: int, d: int, carry: int, s: int, t: int)
    requires v' + mid * s == s - 1 - v + carry && b + out * t == mid + (t - 1 - d)
    ensures v' + b * s + out * (s * t) == s * t - 1 - (v + d * s) + carry
  {
    Distrib(b, out * t, s);
    Distrib(mid, t - 1 - d, s);
    assert out * t * s == out * (s * t);
    assert (t - 1 - d) * s == t * s - s - d * s;
    Commute(t, s);
  }

  lemma ComplementedByte(f: Format, w: Word, w': Word, i: nat, carry: nat, mid: nat)
    requires Valid(f) && Complemented(f, w, w', i, carry, mid) && i < f.wordsize
    ensures |w| == |w'| == f.wordsize && ByteAt(f, w', i) == ByteAt(f, w, i) < Two(BitsAt(f, i))
  {
    hide Two, BitPos, WordVal;
  }

  /** The complement of the low n bits of a byte, and the carry */
  method ComplementDigit(mid: nat, d: nat, n: nat) returns (b: Byte, out: nat)
    requires mid <= 1 && d < Two(n) && n <= 8
    ensures b + Scaled(out, n) == mid + (Two(n) - 1 - d) && b < Two(n) && out <= 1
  {
    hide Two, Scaled;
    var t := Two(n);
    var v: nat := mid + (t - 1 - d);
    CarryParts(v, t);
    TwoMono(n, 8);
    TwoEight();
    b := v % t;
    out := v / t;
    ScaledBit(out, n);
  }

  lemma CarryParts(v: nat, t: nat)
    requires 0 < t && v < t + t
    ensures v / t == (if v < t then 0 else 1) && v % t == if v < t then v else v - t
  {
    if v < t { DivUnique(v, t, 0, v); } else { DivUnique(v, t, 1, v - t); }
  }

  lemma ScaledBit(out: nat, n: nat)
    requires out <= 1
    ensures Scaled(out, n) == if out == 0 then 0 else Two(n)
  {
  }

  /** One byte of the pass */
  method ComplementByte(f: Format, ghost w: Word, w0: Word, i: nat, ghost carry: nat, mid: nat)
    returns (w': Word, out: nat)
    requires Valid(f) && Complemented(f, w, w0, i, carry, mid) && mid <= 1 && i < f.wordsize == |w0|
    ensures Complemented(f, w, w', i + 1, carry, out) && out <= 1 && |w'| == |w0|
  {
    hide Two, BitPos, WordVal, Complemented, ByteAt, CleanWord, BitsAt, Scaled;
    ComplementedByte(f, w, w0, i, carry, mid);
    BitPosNext(f, i);
    var b;
    b, out := ComplementDigit(mid, ByteAt(f, w0, i), BitsAt(f, i));
    ComplementStep(f, w, w0, i, carry, mid, b, out);
    w' := w0[Place(f, i) := b];
  }

  /** The inner loops of the pass */
  method ComplementWord(f: Format, w: Word, carry: nat) returns (w': Word, out: nat)
    requires Valid(f) && |w| == f.wordsize && CleanWord(f, w, f.wordsize) && carry <= 1
    ensures Complemented(f, w, w', f.wordsize, carry, out)
  {
    hide Two, BitPos, BitsAt, WordVal, CleanWord, FullBytes, PartialBits, Complemented;
    w', out := w, carry;
    NoneComplemented(f, w, carry);
    var i := 0;
    while i < FullBytes(f)
      invariant 0 <= i <= FullBytes(f) && out <= 1 && |w'| == f.wordsize && Complemented(f, w, w', i, carry, out)
    {
      BitPosNext(f, i);
      w', out := ComplementByte(f, w, w', i, carry, out);
      i := i + 1;
    }
    BitPosNext(f, i);
    FullAt(f, i);
    if PartialBits(f) > 0 {
      w', out := ComplementByte(f, w, w', i, carry, out);
      i := i + 1;
    }
    NailsStay(f, w, w', i, carry, out);
  }

  lemma NoneComplemented(f: Format, w: Word, carry: nat)
    requires Valid(f) && |w| == f.wordsize && CleanWord(f, w, f.wordsize) && carry <= 1
    ensures Complemented(f, w, w, 0, carry, carry)
  {
    TwoOne();
  }

  /** Bytes without used bits are zero and stay so. */
  lemma {:induction false} NailsStay(f: Format, w: Word, w': Word, i: nat, carry: nat, out: nat)
    requires Valid(f) && Complemented(f, w, w', i, carry, out)
    requires i > FullBytes(f) || (i == FullBytes(f) && PartialBits(f) == 0)
    ensures Complemented(f, w, w', f.wordsize, carry, out)
    decreases f.wordsize - i
  {
    if i < f.wordsize {
      NoNails(f, w, w', i, carry, out);
      NailsStay(f, w, w', i + 1, carry, out);
    }
  }

  lemma NoNails(f: Format, w: Word, w': Word, i: nat, carry: nat, out: nat)
    requires Valid(f) && Complemented(f, w, w', i, carry, out) && i < f.wordsize
    requires i > FullBytes(f) || (i == FullBytes(f) && PartialBits(f) == 0)
    ensures Complemented(f, w, w', i + 1, carry, out)
  {
    hide Two;
    BitPosNext(f, i);
    TwoOne();
    assert ByteAt(f, w, i) < Two(BitsAt(f, i));
    assert ByteAt(f, w', i) < Two(BitsAt(f, i));
  }

  /** The two's complement of the k low words of ws, up to the carry behind them, is in ws'. */
  ghost predicate ComplementedWords(f: Format, ws: Words, ws': Words, k: nat, carry: nat)
    requires Valid(f)
  {
    && Fits(f, ws) && Fits(f, ws') && k <= f.numwords && carry <= 1
    && Clean(f, ws, f.numwords) && Clean(f, ws', f.numwords)
    && (forall i :: k <= i < f.numwords ==> ws'[WordPlace(f, i)] == ws[WordPlace(f, i)])
    && Val(f, ws', k) + Scaled(carry, Offset(f, k)) == Two(Offset(f, k)) - Val(f, ws, k)
  }

  lemma ComplementWordStep(f: Format, ws: Words, ws': Words, k: nat, carry: nat, w: Word, out: nat)
    requires Valid(f) && ComplementedWords(f, ws, ws', k, carry) && k < f.numwords
    requires Complemented(f, ws[WordPlace(f, k)], w, f.wordsize, carry, out)
    ensures ComplementedWords(f, ws, ws'[WordPlace(f, k) := w], k + 1, out)
  {
    hide Two, Offset, WordVal, CleanWord, WordBits, BitPos;
    PutWord(f, ws', k, w);
    OffsetNext(f, k);
    BitPosNext(f, 0);
    TwoAdd(Offset(f, k), WordBits(f));
    var x := ws[WordPlace(f, k)];
    CarryOn(Val(f, ws', k), Val(f, ws, k), carry, out, WordVal(f, w, f.wordsize), WordVal(f, x, f.wordsize),
            Two(Offset(f, k)), Two(WordBits(f)));
  }

  lemma CarryOn(v': int, v: int, carry: int, out: int, b: int, d: int, s: int, t: int)
    requires v' + carry * s == s - v && b + out * t == t - 1 - d + carry
    ensures v' + b * s + out * (s * t) == s * t - (v + d * s)
  {
    Distrib(b, out * t, s);
    assert out * t * s == out * (s * t);
    assert (t - 1 - d + carry) * s == t * s - s - d * s + carry * s;
    Commute(t, s);
  }

  /** The pass that replaces the words by their two's complement */
  method ComplementAll(f: Format, ws: Words) returns (ws': Words)
    requires Valid(f) && Fits(f, ws) && Clean(f, ws, f.numwords)
    ensures Fits(f, ws') && Clean(f, ws', f.numwords)
    ensures Val(f, ws', f.numwords) == (0 - Val(f, ws, f.numwords) as int) % Two(TotalBits(f))
  {
    hide Two, Offset, WordVal, CleanWord, ComplementedWords, Complemented, Val;
    var carry, k := 1, 0;
    ws' := ws;
    NoWordsComplemented(f, ws);
    while k < f.numwords
      invariant 0 <= k <= f.numwords && carry <= 1 && Fits(f, ws') && ComplementedWords(f, ws, ws', k, carry)
      invariant forall i :: k <= i < f.numwords ==> ws'[WordPlace(f, i)] == ws[WordPlace(f, i)]
    {
      var w, out := ComplementWord(f, ws'[WordPlace(f, k)], carry);
      ComplementWordStep(f, ws, ws', k, carry, w, out);
      ws', carry, k := ws'[WordPlace(f, k) := w], out, k + 1;
      StillFits(f, ws, ws', k, carry);
    }
    AllComplemented(f, ws, ws', carry);
  }

  lemma StillFits(f: Format, ws: Words, ws': Words, k: nat, carry: nat)
    requires Valid(f) && ComplementedWords(f, ws, ws', k, carry)
    ensures Fits(f, ws') && carry <= 1
    ensures forall i :: k <= i < f.numwords ==> ws'[WordPlace(f, i)] == ws[WordPlace(f, i)]
  {
  }

  lemma NoWordsComplemented(f: Format, ws: Words)
    requires Valid(f) && Fits(f, ws) && Clean(f, ws, f.numwords)
    ensures ComplementedWords(f, ws, ws, 0, 1)
  {
    TwoOne();
  }

  lemma AllComplemented(f: Format, ws: Words, ws': Words, carry: nat)
    requires Valid(f) && ComplementedWords(f, ws, ws', f.numwords, carry)
    ensures Fits(f, ws') && Clean(f, ws', f.numwords)
    ensures Val(f, ws', f.numwords) == (0 - Val(f, ws, f.numwords) as int) % Two(TotalBits(f))
  {
    hide Two, Offset, WordVal, CleanWord, Val;
    ValBound(f, ws', f.numwords);
    ValBound(f, ws, f.numwords);
    var t, v', v := Two(TotalBits(f)), Val(f, ws', f.numwords), Val(f, ws, f.numwords) as int;
    if carry == 1 { DivUnique(0 - v, t, 0, v'); } else { DivUnique(0 - v, t, -1, v'); }
  }

  // The whole packer

  /** The number to be packed, modulo 2^N: itself, or its two's complement if it is negative and that
      is asked for */
  function PackedValue(v: int, n: nat, twocomp: bool): nat {
    (if twocomp then v else if v < 0 then 0 - v else v) % Two(n)
  }

  /** The documented answer: 0 for zero; the sign when the number fits, twice the sign when not */
  function PackCode(v: int, n: nat, twocomp: bool): int {
    if v == 0 then 0
    else if v > 0 then (if v < Two(n) then 1 else 2)
    else if twocomp then (if 0 - v <= Two(n) then -1 else -2)
    else if 0 - v < Two(n) then -1 else -2
  }

  /** The overflow tests, with the top digit not zero: sign is 1 or -1 on entry */
  method Overflow(c: seq<Digit>, ds: nat, de: nat, s0: Stream, sign: int, n: nat, twocomp: bool) returns (code: int)
    requires StreamOk(c, de, s0) && ds < de && c[de - 1] != 0 && (sign == 1 || sign == -1)
    requires Left(c, de, s0) == W(c, ds, de - ds) / Two(n)
    ensures code == PackCode(sign * W(c, ds, de - ds), n, twocomp)
  {
    hide Two, W, Left, PackCode;
    var s := FillDD(c, de, s0);
    ghost var v := W(c, ds, de - ds);
    TopPositive(c, ds, de - ds);
    QuotientCases(v, Two(n));
    if s.dp != de || s.dd > 1 {
      if s.dp != de { MuchLeft(c, de, s); }
      CodeIs(sign, v, n, twocomp);
      return 2 * sign;
    }
    if s.dd == 1 {
      CodeIs(sign, v, n, twocomp);
      if !twocomp || sign >= 0 { return 2 * sign; }
      var dp := ds;
      while dp < de && c[dp] == 0
        invariant ds <= dp <= de && forall k :: ds <= k < dp ==> c[k] == 0
      {
        dp := dp + 1;
      }
      OnlyBit(c, ds, de, dp, n);
      return if de - dp == 1 && IsPow2(c[dp]) then -1 else -2;
    }
    CodeIs(sign, v, n, twocomp);
    return sign;
  }

  lemma CodeIs(sign: int, v: nat, n: nat, twocomp: bool)
    requires v > 0 && (sign == 1 || sign == -1)
    ensures PackCode(sign * v, n, twocomp) ==
            if sign > 0 then (if v < Two(n) then 1 else 2)
            else if twocomp then (if v <= Two(n) then -1 else -2)
            else if v < Two(n) then -1 else -2
  {
    hide Two;
    assert sign == 1 ==> sign * v == v;
    assert sign == -1 ==> sign * v == 0 - (v as int);
  }

  lemma QuotientCases(v: nat, t: nat)
    requires t > 0
    ensures (v / t == 0 <==> v < t) && (v / t == 1 <==> t <= v < 2 * t)
  {
    if v < t { DivUnique(v, t, 0, v); } else if v < 2 * t { DivUnique(v, t, 1, v - t); }
  }

  /** Digits left over make the rest at least 2. */
  lemma MuchLeft(c: seq<Digit>, de: nat, s: Stream)
    requires StreamOk(c, de, s) && s.dp < de && c[de - 1] != 0 && s.numbits >= BITS
    ensures Left(c, de, s) >= 2
  {
    TopPositive(c, s.dp, de - s.dp);
    BitsPerDigit();
    TwoMono(1, s.numbits);
    TwoOne();
    MulLe(1, W(c, s.dp, de - s.dp), Two(s.numbits));
  }

  /** Between 2^n and 2^(n+1), a number whose only digit that is not zero is a power of two is 2^n,
      and no other number is. */
  lemma OnlyBit(c: seq<Digit>, ds: nat, de: nat, dp: nat, n: nat)
    requires ds < de <= |c| && ds <= dp <= de && c[de - 1] != 0
    requires (forall k :: ds <= k < dp ==> c[k] == 0) && (dp < de ==> c[dp] != 0)
    requires Two(n) <= W(c, ds, de - ds) < 2 * Two(n)
    ensures dp < de && (de - dp == 1 && IsPow2(c[dp]) <==> W(c, ds, de - ds) == Two(n))
  {
    hide Two, W, IsPow2, P;
    var m := de - ds - 1;
    assert dp < de;
    WNext(c, ds, m);
    WZero(c, ds, m);
    var t := c[de - 1];
    TopPower(W(c, ds, m), t, m, n, W(c, ds, m + 1));
    assert (de - dp == 1) <==> forall k :: ds <= k < ds + m ==> c[k] == 0;
  }

  lemma TopPower(low: nat, t: Digit, m: nat, n: nat, v: nat)
    requires v == low + Sh(t, m) && low < P(m) && t > 0 && Two(n) <= v < 2 * Two(n)
    ensures low == 0 && IsPow2(t) <==> v == Two(n)
  {
    hide Two, IsPow2, P;
    if low == 0 && IsPow2(t) {
      PIsTwo(m);
      var e := Log2(t);
      TwoAdd(e, BITS * m);
      SamePower(n, e + BITS * m);
    }
    if v == Two(n) { PowerTop(low, t, m, n); }
  }

  lemma PowerTop(low: nat, t: Digit, m: nat, n: nat)
    requires Two(n) == low + Sh(t, m) && low < P(m) && t > 0
    ensures low == 0 && IsPow2(t)
  {
    hide Two, IsPow2, P;
    PIsTwo(m);
    MulLe(1, t, P(m));
    if n < BITS * m { TwoMono(n + 1, BITS * m); TwoDouble(n); }
    assert n >= BITS * m;
    TwoAdd(n - BITS * m, BITS * m);
    TopUnique(low, t, 0, Two(n - BITS * m), P(m));
    TwoIsPow2(n - BITS * m);
  }

  lemma TwoDouble(n: nat)
    ensures Two(n + 1) == 2 * Two(n)
  {
  }

  lemma TwoOrder(n: nat, e: nat)
    ensures n < e ==> 2 * Two(n) <= Two(e)
  {
    TwoDouble(n);
    if n < e { TwoMono(n + 1, e); }
  }

  lemma SamePower(n: nat, e: nat)
    requires Two(n) <= Two(e) < 2 * Two(n)
    ensures n == e
  {
    hide Two;
    TwoOrder(n, e);
    TwoOrder(e, n);
  }

  /** memset of the whole buffer */
  method ZeroWords(f: Format, ws0: Words) returns (ws: Words)
    requires Valid(f) && Fits(f, ws0)
    ensures Fits(f, ws) && Clean(f, ws, f.numwords) && Val(f, ws, f.numwords) == 0
  {
    var zero: Word := seq(f.wordsize, _ => 0);
    ws := seq(f.numwords, _ => zero);
    ZeroWord(f, zero, f.wordsize);
    ZeroVal(f, ws, f.numwords, zero);
  }

  lemma {:induction false} ZeroWord(f: Format, w: Word, i: nat)
    requires Valid(f) && i <= f.wordsize == |w| && forall k :: 0 <= k < |w| ==> w[k] == 0
    ensures CleanWord(f, w, i) && WordVal(f, w, i) == 0
  {
    if i > 0 { ZeroWord(f, w, i - 1); }
  }

  lemma {:induction false} ZeroVal(f: Format, ws: Words, k: nat, zero: Word)
    requires Valid(f) && Fits(f, ws) && k <= f.numwords && |zero| == f.wordsize
    requires CleanWord(f, zero, f.wordsize) && WordVal(f, zero, f.wordsize) == 0
    requires forall i :: 0 <= i < |ws| ==> ws[i] == zero
    ensures Clean(f, ws, k) && Val(f, ws, k) == 0
  {
    if k > 0 { ZeroVal(f, ws, k - 1, zero); }
  }

  /** bary_pack of a number given by its sign and the digits of its magnitude */
  method BaryPack(c: seq<Digit>, sign0: int, ds: nat, num: nat, f: Format, twocomp: bool, ws0: Words)
    returns (ws: Words, code: int)
    requires Valid(f) && Fits(f, ws0) && ds + num <= |c|
    requires -1 <= sign0 <= 1 && (sign0 == 0 ==> W(c, ds, num) == 0)
    ensures Fits(f, ws) && Clean(f, ws, f.numwords)
    ensures Val(f, ws, f.numwords) == PackedValue(sign0 * W(c, ds, num), TotalBits(f), twocomp)
    ensures code == PackCode(sign0 * W(c, ds, num), TotalBits(f), twocomp)
  {
    hide Two, W, Offset, Val, Clean, PackCode, PackedValue;
    var n: nat := num;
    while n > 0 && c[ds + n - 1] == 0
      invariant n <= num && W(c, ds, n) == W(c, ds, num)
    {
      WNext(c, ds, n - 1);
      ShUnit(n - 1);
      n := n - 1;
    }
    if n == 0 {
      WEmpty(c, ds);
      ZeroPacks(TotalBits(f), twocomp);
      assert sign0 * 0 == 0;
      ws := ZeroWords(f, ws0);
      return ws, 0;
    }
    TopPositive(c, ds, n);
    ghost var v := W(c, ds, n);
    if f.numwords == 0 {
      code := NoRoom(c, sign0, ds, n, twocomp);
      ws := ws0;
      EmptyVal(f, ws, sign0 * v, twocomp);
      return;
    }
    var s := Stream(ds, 0, 0);
    StartStream(c, ds, ds + n);
    ws, s := PackAll(f, c, ds + n, s, ws0);
    code := Overflow(c, ds, ds + n, s, sign0, TotalBits(f), twocomp);
    PackedIs(f, ws, v);
    PackedSigned(v, sign0, TotalBits(f), twocomp);
    if twocomp && code < 0 { ws := ComplementAll(f, ws); }
  }

  lemma StartStream(c: seq<Digit>, ds: nat, de: nat)
    requires ds <= de <= |c|
    ensures StreamOk(c, de, Stream(ds, 0, 0)) && Left(c, de, Stream(ds, 0, 0)) == W(c, ds, de - ds)
  {
    TwoOne();
  }

  lemma PackedIs(f: Format, ws: Words, v: nat)
    requires Valid(f) && PackedWords(f, ws, f.numwords, v)
    ensures Fits(f, ws) && Clean(f, ws, f.numwords) && Val(f, ws, f.numwords) == v % Two(TotalBits(f))
  {
  }

  lemma ZeroPacks(n: nat, twocomp: bool)
    ensures PackedValue(0, n, twocomp) == 0 && PackCode(0, n, twocomp) == 0
  {
    hide Two;
    DivUnique(0, Two(n), 0, 0);
  }

  /** A buffer of no words */
  method NoRoom(c: seq<Digit>, sign: int, ds: nat, n: nat, twocomp: bool) returns (code: int)
    requires ds + n <= |c| && n > 0 && c[ds + n - 1] != 0 && (sign == 1 || sign == -1)
    ensures code == PackCode(sign * W(c, ds, n), 0, twocomp)
  {
    hide Two, W;
    TwoOne();
    TopPositive(c, ds, n);
    CodeIs(sign, W(c, ds, n), 0, twocomp);
    if !twocomp || 0 <= sign { return 2 * sign; }
    OneDigit(c, ds, n);
    return if n == 1 && c[ds] == 1 then -1 else -2;
  }

  lemma OneDigit(c: seq<Digit>, ds: nat, n: nat)
    requires ds + n <= |c| && n > 0 && c[ds + n - 1] != 0
    ensures W(c, ds, n) == 1 <==> n == 1 && c[ds] == 1
  {
    hide W, P;
    WOne(c, ds);
    if n > 1 {
      WNext(c, ds, n - 1);
      ShIs(c[ds + n - 1], n - 1);
      PPositive(n - 2);
      MulLe(1, c[ds + n - 1], P(n - 1));
    }
  }

  lemma EmptyVal(f: Format, ws: Words, v: int, twocomp: bool)
    requires Valid(f) && Fits(f, ws) && f.numwords == 0
    ensures TotalBits(f) == 0 && Clean(f, ws, 0) && Val(f, ws, 0) == 0 == PackedValue(v, 0, twocomp)
  {
    TwoOne();
  }

  /** The words before and after the complement stand for the packed value. */
  lemma PackedSigned(v: nat, sign: int, n: nat, twocomp: bool)
    requires v > 0 && (sign == 1 || sign == -1)
    ensures (PackCode(sign * v, n, twocomp) < 0) == (sign < 0)
    ensures PackedValue(sign * v, n, twocomp) ==
            if twocomp && sign < 0 then (0 - v % Two(n) as int) % Two(n) else v % Two(n)
  {
    hide Two;
    var t := Two(n);
    assert sign == 1 ==> sign * v == v;
    assert sign == -1 ==> sign * v == 0 - (v as int);
    NegatedMod(v, t);
  }

  lemma NegatedMod(v: nat, t: nat)
    requires t > 0
    ensures (0 - v as int) % t == (0 - v % t as int) % t
  {
    var q, r := v / t, v % t;
    if r == 0 {
      assert 0 - (v as int) == (-q) * t;
      DivUnique(0 - v as int, t, -q, 0);
      DivUnique(0, t, 0, 0);
    } else {
      assert 0 - (v as int) == (-q - 1) * t + (t - r);
      DivUnique(0 - v as int, t, -q - 1, t - r);
      DivUnique(0 - r as int, t, -1, t - r);
    }
  }
}
