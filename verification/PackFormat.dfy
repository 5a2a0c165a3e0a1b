/** The word formats of integer packing: words of bytes, some of whose high bits (nails) are unused. */
module PackFormat {
  import opened Arith
  import opened Bits

  type Byte = b: nat | b < 256

  /** numwords words of wordsize bytes each, the most or least significant word or byte first */
  datatype Format = Format(numwords: nat, wordsize: nat, nails: nat, msWordFirst: bool, msByteFirst: bool)

  predicate Valid(f: Format) {
    f.wordsize > 0 && f.nails / 8 < f.wordsize
  }

  /** word_num_partialbits and word_num_fullbytes of integer_pack_loop_setup */
  function PartialBits(f: Format): nat {
    if f.nails % 8 == 0 then 0 else 8 - f.nails % 8
  }

  function FullBytes(f: Format): nat
    requires Valid(f)
  {
    f.wordsize - f.nails / 8 - (if f.nails % 8 == 0 then 0 else 1)
  }

  /** The number of used bits of a word */
  function WordBits(f: Format): nat
    requires Valid(f)
  {
    8 * f.wordsize - f.nails
  }

  /** How many bits of byte i, counted from the least significant byte of the word, are used */
  function BitsAt(f: Format, i: nat): nat
    requires Valid(f)
  {
    if i < FullBytes(f) then 8 else if i == FullBytes(f) then PartialBits(f) else 0
  }

  /** The number of used bits below byte i */
  function BitPos(f: Format, i: nat): nat
    requires Valid(f)
  {
    if i <= FullBytes(f) then 8 * i else WordBits(f)
  }

  lemma BitPosNext(f: Format, i: nat)
    requires Valid(f)
    ensures BitPos(f, i + 1) == BitPos(f, i) + BitsAt(f, i) && BitPos(f, 0) == 0 && BitPos(f, f.wordsize) == WordBits(f)
    ensures BitsAt(f, i) <= 8 && WordBits(f) > 0 && FullBytes(f) + (if PartialBits(f) > 0 then 1 else 0) <= f.wordsize
  {
  }

  type Word = seq<Byte>

  /** Where byte i of a word, in order of significance, stands */
  function Place(f: Format, i: nat): nat
    requires i < f.wordsize
  {
    if f.msByteFirst then f.wordsize - 1 - i else i
  }

  function ByteAt(f: Format, w: Word, i: nat): Byte
    requires i < f.wordsize == |w|
  {
    w[Place(f, i)]
  }

  /** v times 2^n */
  function Scaled(v: nat, n: nat): nat {
    v * Two(n)
  }

  /** r without its n low bits */
  function High(r: nat, n: nat): nat {
    DivNat(r, Two(n));
    r / Two(n)
  }

  /** The number of used bits below word k */
  function Offset(f: Format, k: nat): nat
    requires Valid(f)
  {
    WordBits(f) * k
  }

  lemma OffsetNext(f: Format, k: nat)
    requires Valid(f)
    ensures Offset(f, k + 1) == Offset(f, k) + WordBits(f) && Offset(f, 0) == 0
  {
    Distrib(k, 1, WordBits(f));
  }

  /** The value of the i least significant bytes of a word */
  function WordVal(f: Format, w: Word, i: nat): nat
    requires Valid(f) && i <= f.wordsize == |w|
  {
    if i == 0 then 0 else WordVal(f, w, i - 1) + Scaled(ByteAt(f, w, i - 1), BitPos(f, i - 1))
  }

  /** The nails of the i least significant bytes are zero. */
  predicate CleanWord(f: Format, w: Word, i: nat)
    requires Valid(f) && i <= f.wordsize == |w|
  {
    forall k :: 0 <= k < i ==> ByteAt(f, w, k) < Two(BitsAt(f, k))
  }

  lemma {:induction false} WordValBound(f: Format, w: Word, i: nat)
    requires Valid(f) && i <= f.wordsize == |w| && CleanWord(f, w, i)
    ensures WordVal(f, w, i) < Two(BitPos(f, i))
    decreases i
  {
    hide Two;
    BitPosNext(f, 0);
    TwoOne();
    if i > 0 {
      WordValBound(f, w, i - 1);
      BitPosNext(f, i - 1);
      TwoAdd(BitPos(f, i - 1), BitsAt(f, i - 1));
      var b := ByteAt(f, w, i - 1);
      TopDigit(WordVal(f, w, i - 1), b, Two(BitPos(f, i - 1)), Two(BitsAt(f, i - 1)));
      Commute(Two(BitPos(f, i - 1)), Two(BitsAt(f, i - 1)));
    }
  }

  /** Words whose low bytes agree have the same low value. */
  lemma {:induction false} WordValSame(f: Format, w: Word, w': Word, i: nat)
    requires Valid(f) && i <= f.wordsize == |w| == |w'|
    requires forall k :: 0 <= k < i ==> ByteAt(f, w', k) == ByteAt(f, w, k)
    ensures WordVal(f, w', i) == WordVal(f, w, i)
  {
    if i > 0 { WordValSame(f, w, w', i - 1); }
  }

  /** Writing byte i leaves the other bytes of the word alone. */
  lemma PutByte(f: Format, w: Word, i: nat, b: Byte)
    requires Valid(f) && i < f.wordsize == |w|
    ensures var w' := w[Place(f, i) := b];
            && ByteAt(f, w', i) == b
            && (forall k :: 0 <= k < f.wordsize && k != i ==> ByteAt(f, w', k) == ByteAt(f, w, k))
            && WordVal(f, w', i) == WordVal(f, w, i)
            && WordVal(f, w', i + 1) == WordVal(f, w, i) + Scaled(b, BitPos(f, i))
  {
    var w' := w[Place(f, i) := b];
    WordValSame(f, w, w', i);
  }

  type Words = seq<Word>

  predicate Fits(f: Format, ws: Words) {
    |ws| == f.numwords && forall i :: 0 <= i < |ws| ==> |ws[i]| == f.wordsize
  }

  /** Where word k, in order of significance, stands */
  function WordPlace(f: Format, k: nat): nat
    requires k < f.numwords
  {
    if f.msWordFirst then f.numwords - 1 - k else k
  }

  /** The value of the k least significant words */
  function Val(f: Format, ws: Words, k: nat): nat
    requires Valid(f) && Fits(f, ws) && k <= f.numwords
  {
    if k == 0 then 0
    else Val(f, ws, k - 1) + Scaled(WordVal(f, ws[WordPlace(f, k - 1)], f.wordsize), Offset(f, k - 1))
  }

  predicate Clean(f: Format, ws: Words, k: nat)
    requires Valid(f) && Fits(f, ws) && k <= f.numwords
  {
    forall i :: 0 <= i < k ==> CleanWord(f, ws[WordPlace(f, i)], f.wordsize)
  }

  /** The number of bits of the whole format */
  function TotalBits(f: Format): nat
    requires Valid(f)
  {
    Offset(f, f.numwords)
  }

  lemma {:induction false} ValBound(f: Format, ws: Words, k: nat)
    requires Valid(f) && Fits(f, ws) && k <= f.numwords && Clean(f, ws, k)
    ensures Val(f, ws, k) < Two(Offset(f, k))
    decreases k
  {
    hide Two, WordVal, CleanWord, Offset, WordBits;
    TwoOne();
    OffsetNext(f, 0);
    if k > 0 {
      ValBound(f, ws, k - 1);
      var m, w, o := WordBits(f), ws[WordPlace(f, k - 1)], Offset(f, k - 1);
      WordValBound(f, w, f.wordsize);
      BitPosNext(f, 0);
      OffsetNext(f, k - 1);
      TwoAdd(o, m);
      TopDigit(Val(f, ws, k - 1), WordVal(f, w, f.wordsize), Two(o), Two(m));
      Commute(Two(o), Two(m));
    }
  }

  lemma {:induction false} ValSame(f: Format, ws: Words, ws': Words, k: nat)
    requires Valid(f) && Fits(f, ws) && Fits(f, ws') && k <= f.numwords
    requires forall i :: 0 <= i < k ==> ws'[WordPlace(f, i)] == ws[WordPlace(f, i)]
    ensures Val(f, ws', k) == Val(f, ws, k)
  {
    if k > 0 { ValSame(f, ws, ws', k - 1); }
  }

  /** Writing word k leaves the other words alone. */
  lemma PutWord(f: Format, ws: Words, k: nat, w: Word)
    requires Valid(f) && Fits(f, ws) && k < f.numwords && |w| == f.wordsize
    ensures var ws' := ws[WordPlace(f, k) := w];
            && Fits(f, ws')
            && (forall i :: 0 <= i < f.numwords && i != k ==> ws'[WordPlace(f, i)] == ws[WordPlace(f, i)])
            && Val(f, ws', k + 1) == Val(f, ws, k) + Scaled(WordVal(f, w, f.wordsize), Offset(f, k))
  {
    hide WordVal, Two;
    var ws' := ws[WordPlace(f, k) := w];
    ValSame(f, ws, ws', k);
  }

  /** The low a bits and the next b bits of r */
  lemma BitsJoin(r: nat, a: nat, b: nat)
    ensures r % Two(a + b) == r % Two(a) + Scaled(r / Two(a) % Two(b), a)
    ensures r / Two(a + b) == r / Two(a) / Two(b)
  {
    hide Two;
    TwoAdd(a, b);
    DivDiv(r, Two(a), Two(b));
    JoinAlgebra(r, Two(a), Two(b));
  }

  lemma JoinAlgebra(r: nat, s: nat, t: nat)
    requires s > 0 && t > 0
    ensures s * t > 0 && r % (s * t) == r % s + r / s % t * s
  {
    var q, e := r / s, r % s;
    var q1, e1 := q / t, q % t;
    MulLe(1, s, t);
    TopDigit(e, e1, s, t);
    Commute(s, t);
    Distrib(q1 * t, e1, s);
    assert q1 * t * s == q1 * (s * t);
    DivUnique(r, s * t, q1, e + e1 * s);
  }
}
