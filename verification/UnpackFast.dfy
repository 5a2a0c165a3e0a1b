/** bary_unpack_internal with its short cuts: one digit, a copy of bytes, a copy of digits.  All of them
    unpack what the generic form unpacks. */
module UnpackFast {
  import opened Arith
  import opened BDigits
  import opened Bary
  import opened Bits
  import opened PackFormat
  import opened Pack
  import opened PackBytes
  import opened DigitOrder
  import opened PackFast
  import opened Unpack

  /** Without nails all bits count. */
  lemma SeenIs(f: Format, ws: Words, u: nat)
    requires Valid(f) && f.nails == 0 && Fits(f, ws) && u < Two(TotalBits(f))
    requires forall g, t :: 0 <= g < f.numwords && 0 <= t < f.wordsize ==>
                              ByteAt(f, ws[WordPlace(f, g)], t) == ByteOf(u, Times(f.wordsize, g) + t)
    ensures Seen(f, ws, f.numwords) == u
  {
    hide Two, Offset, ByteOf, Times, Clean, Val, Seen;
    WordsOf(f, ws, f.numwords, u);
    PackedIs(f, ws, u);
    CleanSeen(f, ws, f.numwords);
    DivUnique(u, Two(TotalBits(f)), 0, u);
  }

  // One digit

  /** Reads a word of the host, with the swap that the format asks for. */
  method LoadNative(w: Word, f: Format, bigEndian: bool) returns (u: nat)
    requires |w| == f.wordsize
    ensures u < Two(8 * f.wordsize) && forall t :: 0 <= t < f.wordsize ==> ByteAt(f, w, t) == ByteOf(u, t)
  {
    hide Two, ByteOf, LE, SwapBytes;
    var n := f.wordsize;
    var bs := seq(n, i requires 0 <= i < n => w[if bigEndian then n - 1 - i else i]);
    u := LE(bs, n);
    LEBound(bs, n);
    forall j | 0 <= j < n
      ensures ByteOf(u, j) == bs[j]
    {
      LEBytes(bs, n, j);
    }
    if n != 1 && f.msByteFirst != bigEndian {
      ghost var v := u;
      u := SwapBytes(u, n);
      SwapBound(v, n);
      forall t | 0 <= t < n
        ensures ByteAt(f, w, t) == ByteOf(u, t)
      {
        SwapByte(v, n, t);
      }
    }
  }

  lemma SwapBound(u: nat, n: nat)
    ensures SwapBytes(u, n) < Two(8 * n)
  {
    LEBound(NativeStore(u, n, true), n);
  }

  /** integer_unpack_single_bdigit: the magnitude and the sign of a number of size bytes, which is not
      more than a digit has */
  method SingleDigit(u: nat, wordsize: nat, size: nat, twocomp: bool, negative: bool) returns (d: Digit, sign: int)
    requires DigitSize(size) && 0 < wordsize <= size && u < Two(8 * wordsize)
    ensures SignedValue(sign, d, 8 * wordsize) == UnpackedValue(u, 8 * wordsize, twocomp, negative)
  {
    hide Two;
    BitsPerDigit();
    var bits := 8 * wordsize;
    TwoMono(bits, BITS);
    TwoOrder(bits - 1, bits);
    TwoDouble(bits - 1);
    if twocomp {
      sign := if negative then (if wordsize == size && u == 0 then -2 else -1)
              else if u / Two(bits - 1) != 0 then -1 else 1;
      QuotientCases(u, Two(bits - 1));
      if sign < 0 {
        var filled := u + (B - Two(bits));
        NegatedDigit(filled);
        TwoOrder(bits, BITS);
        d := (B - filled) % B;
        return;
      }
    } else {
      sign := if negative then -1 else 1;
    }
    d := u;
  }

  lemma NegatedDigit(v: nat)
    requires v < B
    ensures (B - v) % B == if v == 0 then 0 else B - v
  {
    if v == 0 { DivUnique(B, B, 1, 0); } else { DivUnique(B - v, B, 0, B - v); }
  }

  /** The first short cut: one word, not longer than a digit */
  method UnpackSingle(mem: Memory, z: nat, f: Format, ws: Words, twocomp: bool, negative: bool, size: nat,
                      bigEndian: bool)
    returns (sign: int)
    requires Valid(f) && f.nails == 0 && f.numwords == 1 && Fits(f, ws) && DigitSize(size) && f.wordsize <= size
    requires z < |mem.cells|
    modifies mem
    ensures Inside(old(mem.cells), mem.cells, z, 1)
    ensures SignedValue(sign, W(mem.cells, z, 1), TotalBits(f))
         == UnpackedValue(Seen(f, ws, f.numwords), TotalBits(f), twocomp, negative)
  {
    hide W, Two, Seen, UnpackedValue, SignedValue, ByteOf, Times;
    var u := LoadNative(ws[0], f, bigEndian);
    var d;
    d, sign := SingleDigit(u, f.wordsize, size, twocomp, negative);
    mem.cells := mem.cells[z := d];
    WOne(mem.cells, z);
    OffsetIs(f, 1);
    TimesNext(f.wordsize, 0);
    SeenIs(f, ws, u);
  }

  // A copy of bytes

  /** The digit that size bytes stand for */
  function DigitFrom(bs: seq<Byte>, size: nat, q: nat): Digit
    requires DigitSize(size) && Times(size, q) + size <= |bs|
  {
    var part := bs[Times(size, q)..Times(size, q) + size];
    BitsPerDigit();
    LEBound(part, size);
    LE(part, size)
  }

  /** Low bytes and high bytes */
  lemma {:induction false} LESplit(bs: seq<Byte>, a: nat, b: nat)
    requires a + b <= |bs|
    ensures LE(bs, a + b) == LE(bs, a) + Scaled(LE(bs[a..a + b], b), 8 * a)
    decreases b
  {
    hide Two, Scaled;
    if b == 0 {
      ScaledZero(8 * a);
    } else {
      LESplit(bs, a, b - 1);
      LESame(bs[a..a + b], bs[a..a + (b - 1)], b - 1);
      ScaledJoin(LE(bs[a..a + b], b - 1), bs[a + b - 1], 8 * (b - 1), 8 * a);
    }
  }

  lemma ScaledZero(n: nat)
    ensures Scaled(0, n) == 0
  {
  }

  lemma {:induction false} LESame(bs: seq<Byte>, cs: seq<Byte>, n: nat)
    requires n <= |bs| && n <= |cs| && forall j :: 0 <= j < n ==> bs[j] == cs[j]
    ensures LE(bs, n) == LE(cs, n)
  {
    if n > 0 { LESame(bs, cs, n - 1); }
  }

  /** Bytes are copied over the digits at z. */
  method CopyOver(mem: Memory, z: nat, zn: nat, bs: seq<Byte>, size: nat)
    requires DigitSize(size) && z + zn <= |mem.cells| && |bs| == Times(size, zn)
    modifies mem
    ensures Inside(old(mem.cells), mem.cells, z, zn) && W(mem.cells, z, zn) == LE(bs, |bs|)
  {
    hide W, LE, Times, DigitFrom, Two;
    ghost var c0 := mem.cells;
    NoBytes(c0, z, bs, size);
    var q := 0;
    while q < zn
      invariant 0 <= q <= zn && Inside(c0, mem.cells, z, zn) && Times(size, q) <= |bs|
      invariant W(mem.cells, z, q) == LE(bs, Times(size, q))
    {
      GroupIn(size, q, zn);
      TimesNext(size, q);
      NextDigit(bs, size, q);
      var d := DigitFrom(bs, size, q);
      WWrite(mem.cells, z, q, d);
      mem.cells := mem.cells[z + q := d];
      q := q + 1;
    }
  }

  lemma NoBytes(c: seq<Digit>, z: nat, bs: seq<Byte>, size: nat)
    requires z <= |c|
    ensures Times(size, 0) == 0 && W(c, z, 0) == LE(bs, 0) == 0
  {
  }

  lemma NextDigit(bs: seq<Byte>, size: nat, q: nat)
    requires DigitSize(size) && Times(size, q) + size <= |bs|
    ensures LE(bs, Times(size, q) + size) == LE(bs, Times(size, q)) + Sh(DigitFrom(bs, size, q), q)
  {
    hide Two, LE, Times, P;
    LESplit(bs, Times(size, q), size);
    DigitPower(size, q);
  }

  /** The words of a little-endian buffer, byte by byte */
  function FlatBytes(f: Format, ws: Words): (bs: seq<Byte>)
    requires f.wordsize > 0 && Fits(f, ws)
    ensures |bs| == Times(f.wordsize, f.numwords)
  {
    seq(Times(f.wordsize, f.numwords), j requires 0 <= j < Times(f.wordsize, f.numwords) =>
      IndexParts(f.wordsize, f.numwords, j);
      ws[j / f.wordsize][j % f.wordsize])
  }

  lemma FlatByte(f: Format, ws: Words, g: nat, t: nat)
    requires f.wordsize > 0 && Fits(f, ws) && g < f.numwords && t < f.wordsize
    ensures Times(f.wordsize, g) + t < Times(f.wordsize, f.numwords)
    ensures FlatBytes(f, ws)[Times(f.wordsize, g) + t] == ws[g][t]
  {
    InDigit(f.wordsize, g, t, f.numwords);
    Commute(f.wordsize, g);
    DivUnique(Times(f.wordsize, g) + t, f.wordsize, g, t);
  }

  lemma FlatSeen(f: Format, ws: Words)
    requires Valid(f) && f.nails == 0 && !f.msWordFirst && !f.msByteFirst && Fits(f, ws)
    ensures LE(FlatBytes(f, ws), Times(f.wordsize, f.numwords)) == Seen(f, ws, f.numwords) < Two(TotalBits(f))
  {
    hide Two, LE, Times, ByteOf, Seen, Offset;
    var bs := FlatBytes(f, ws);
    var u := LE(bs, |bs|);
    LEBound(bs, |bs|);
    OffsetIs(f, f.numwords);
    forall g, t | 0 <= g < f.numwords && 0 <= t < f.wordsize
      ensures ByteAt(f, ws[WordPlace(f, g)], t) == ByteOf(u, Times(f.wordsize, g) + t)
    {
      FlatByte(f, ws, g, t);
      LEBytes(bs, |bs|, Times(f.wordsize, g) + t);
    }
    SeenIs(f, ws, u);
  }

  /** memset behind the bytes */
  function Padding(bs: seq<Byte>, k: nat, pad: Byte): seq<Byte> {
    bs + seq(k, _ => pad)
  }

  /** Zeros above a number do not change it; ones add the powers of two from its size on. */
  lemma {:induction false} PaddingValue(bs: seq<Byte>, k: nat, ones: bool)
    ensures LE(Padding(bs, k, if ones then 255 else 0), |bs| + k)
         == LE(bs, |bs|) + if ones then Two(8 * (|bs| + k)) - Two(8 * |bs|) else 0
    decreases k
  {
    hide Two, Scaled;
    var pad: Byte := if ones then 255 else 0;
    var cs := Padding(bs, k, pad);
    if k == 0 {
      LESame(cs, bs, |bs|);
    } else {
      PaddingValue(bs, k - 1, ones);
      LESame(cs, Padding(bs, k - 1, pad), |bs| + k - 1);
      PadByte(|bs| + k - 1);
      assert cs[|bs| + k - 1] == pad;
    }
  }

  lemma PadByte(n: nat)
    ensures Scaled(0, 8 * n) == 0 && Scaled(255, 8 * n) == Two(8 * (n + 1)) - Two(8 * n)
  {
    hide Two;
    TwoAdd(8 * n, 8);
    TwoEight();
  }

  /** The top bit of the last byte says whether the number is at least 2^(N-1). */
  lemma TopBit(bs: seq<Byte>, n: nat)
    requires 0 < n <= |bs|
    ensures bs[n - 1] >= 128 <==> LE(bs, n) >= Two(8 * n - 1)
  {
    hide Two;
    TwoAdd(8 * (n - 1), 7);
    TwoSeven();
    LEBound(bs, n - 1);
    TopCompare(LE(bs, n - 1), bs[n - 1], Two(8 * (n - 1)), 128);
    Commute(128, Two(8 * (n - 1)));
  }

  lemma TwoSeven()
    ensures Two(7) == 128
  {
    assert Two(3) == 8;
    TwoAdd(3, 4);
  }

  /** bary_2comp of a number with ones above its n bits, or with no bits above */
  method Negate(mem: Memory, z: nat, zn: nat, ghost u: nat, ghost n: nat) returns (sign: int)
    requires z + zn <= |mem.cells| && u < Two(n) <= P(zn) && W(mem.cells, z, zn) == u + P(zn) - Two(n)
    modifies mem
    ensures Inside(old(mem.cells), mem.cells, z, zn)
    ensures SignedValue(sign, W(mem.cells, z, zn), n) == u - Two(n) && (sign == -2 ==> u == 0) && -2 <= sign <= -1
  {
    hide W, P, Two;
    var zero := TwoComp(mem, z, zn);
    sign := if zero then -2 else -1;
  }

  /** Without words there is nothing to unpack. */
  lemma NoWords(c: seq<Digit>, z: nat, zn: nat, f: Format, ws: Words, nlp: nat)
    requires Valid(f) && f.numwords == 0 && Fits(f, ws) && z <= |c| && nlp < BITS && BITS * zn == TotalBits(f) + nlp
    ensures TotalBits(f) == 0 && zn == 0 && W(c, z, zn) == 0 && Seen(f, ws, f.numwords) == 0 && Two(0) == 1
  {
    if zn > 0 { MulLe(1, zn, BITS); Commute(BITS, zn); }
  }

  /** The second short cut, on a little-endian host: bytes are copied.  Without words the byte before
      the buffer is looked at, and makes no difference. */
  method UnpackBytesOf(mem: Memory, z: nat, zn: nat, f: Format, ws: Words, twocomp: bool, negative: bool, size: nat,
                       nlp: nat)
    returns (sign: int)
    requires Valid(f) && f.nails == 0 && !f.msWordFirst && !f.msByteFirst && Fits(f, ws) && DigitSize(size)
    requires z + zn <= |mem.cells| && nlp < BITS && BITS * zn == TotalBits(f) + nlp
    modifies mem
    ensures Inside(old(mem.cells), mem.cells, z, zn)
    ensures SignedValue(sign, W(mem.cells, z, zn), TotalBits(f))
         == UnpackedValue(Seen(f, ws, f.numwords), TotalBits(f), twocomp, negative)
  {
    hide W, P, Two, Seen, LE, Times, Offset;
    var src, dst := Times(f.wordsize, f.numwords), Times(size, zn);
    RoomForBytes(f, size, zn, nlp);
    var bs := FlatBytes(f, ws);
    FlatSeen(f, ws);
    OffsetIs(f, f.numwords);
    var top: bool := *;
    if src > 0 {
      TopBit(bs, src);
      top := bs[src - 1] >= 128;
    } else {
      NoWords(mem.cells, z, zn, f, ws, nlp);
    }
    DigitPower(size, zn);
    TwoMono(8 * src, 8 * dst);
    var ones := twocomp && (negative || top);
    PaddingValue(bs, dst - src, ones);
    CopyOver(mem, z, zn, Padding(bs, dst - src, if ones then 255 else 0), size);
    if ones {
      sign := Negate(mem, z, zn, LE(bs, src), TotalBits(f));
      if !negative { sign := -1; }
    } else {
      sign := if negative then -1 else 1;
    }
    if src == 0 { NoWords(mem.cells, z, zn, f, ws, nlp); }
  }

  lemma RoomForBytes(f: Format, size: nat, zn: nat, nlp: nat)
    requires Valid(f) && f.nails == 0 && DigitSize(size) && BITS * zn == TotalBits(f) + nlp
    ensures Times(f.wordsize, f.numwords) <= Times(size, zn)
    ensures (Times(f.wordsize, f.numwords) == 0 <==> f.numwords == 0)
  {
    OffsetIs(f, f.numwords);
    assert BITS * zn == 8 * (size * zn);
    Commute(f.numwords, f.wordsize);
    if f.numwords > 0 { MulLe(1, f.numwords, f.wordsize); }
  }

  // A copy of digits

  /** The digit whose bytes, as the host stores them, are the given ones */
  function NativeDigit(bs: seq<Byte>, size: nat, bigEndian: bool): Digit
    requires DigitSize(size) && |bs| == size
  {
    var le := seq(size, i requires 0 <= i < size => bs[if bigEndian then size - 1 - i else i]);
    BitsPerDigit();
    LEBound(le, size);
    LE(le, size)
  }

  lemma NativeDigitByte(bs: seq<Byte>, size: nat, bigEndian: bool, i: nat)
    requires DigitSize(size) && |bs| == size && i < size
    ensures NativeByte(NativeDigit(bs, size, bigEndian), i, size, bigEndian) == bs[i]
  {
    hide ByteOf, LE;
    var le := seq(size, i requires 0 <= i < size => bs[if bigEndian then size - 1 - i else i]);
    LEBytes(le, size, if bigEndian then size - 1 - i else i);
  }

  /** The part of word g that digit r covers */
  function Part(f: Format, ws: Words, size: nat, m: nat, g: nat, r: nat): (bs: seq<Byte>)
    requires Fits(f, ws) && f.wordsize == Times(size, m) && g < f.numwords && r < m
    ensures |bs| == size && Times(size, r) + size <= f.wordsize
    ensures forall i :: 0 <= i < size ==> bs[i] == ws[g][Times(size, r) + i]
  {
    GroupIn(size, r, m);
    ws[g][Times(size, r)..Times(size, r) + size]
  }

  /** The words stand in digit memory as they are. */
  ghost predicate Loaded(c: seq<Digit>, z: nat, f: Format, ws: Words, m: nat, size: nat, bigEndian: bool, g: nat,
                         h: nat)
    requires DigitSize(size) && Fits(f, ws) && f.wordsize == Times(size, m)
  {
    && z + Times(m, f.numwords) <= |c| && g <= f.numwords && h <= m
    && (forall i, r :: 0 <= i < f.numwords && 0 <= r < m ==> Slot(m, i, r) < Times(m, f.numwords))
    && (forall i, r :: 0 <= i < f.numwords && 0 <= r < m && (i < g || (i == g && r < h)) ==>
          c[z + Slot(m, i, r)] == NativeDigit(Part(f, ws, size, m, i, r), size, bigEndian))
  }

  lemma LoadedStep(c: seq<Digit>, z: nat, f: Format, ws: Words, m: nat, size: nat, bigEndian: bool, g: nat, h: nat)
    requires DigitSize(size) && Fits(f, ws) && f.wordsize == Times(size, m) && g < f.numwords && h < m
    requires Loaded(c, z, f, ws, m, size, bigEndian, g, h)
    ensures var d := NativeDigit(Part(f, ws, size, m, g, h), size, bigEndian);
            Loaded(c[z + Slot(m, g, h) := d], z, f, ws, m, size, bigEndian, g, h + 1)
  {
    hide Times, Slot, NativeDigit, Part;
    var c' := c[z + Slot(m, g, h) := NativeDigit(Part(f, ws, size, m, g, h), size, bigEndian)];
    forall i, r | 0 <= i < f.numwords && 0 <= r < m && (i < g || (i == g && r < h + 1))
      ensures c'[z + Slot(m, i, r)] == NativeDigit(Part(f, ws, size, m, i, r), size, bigEndian)
    {
      SlotFrom(m, i, r);
      SlotFrom(m, g, h);
      if i < g { SlotBefore(m, i, r, g); }
    }
  }

  lemma NothingLoaded(c: seq<Digit>, z: nat, f: Format, ws: Words, m: nat, size: nat, bigEndian: bool)
    requires DigitSize(size) && Fits(f, ws) && f.wordsize == Times(size, m) && z + Times(m, f.numwords) <= |c|
    ensures Loaded(c, z, f, ws, m, size, bigEndian, 0, 0)
  {
    AllSlots(m, f.numwords);
  }

  lemma WordLoaded(c: seq<Digit>, z: nat, f: Format, ws: Words, m: nat, size: nat, bigEndian: bool, g: nat)
    requires DigitSize(size) && Fits(f, ws) && f.wordsize == Times(size, m) && g < f.numwords
    requires Loaded(c, z, f, ws, m, size, bigEndian, g, m)
    ensures Loaded(c, z, f, ws, m, size, bigEndian, g + 1, 0)
  {
    hide Times, Slot, NativeDigit, Part;
  }

  /** MEMCPY of the words into digit memory */
  method LoadDigits(mem: Memory, z: nat, f: Format, ws: Words, m: nat, size: nat, bigEndian: bool)
    requires DigitSize(size) && Fits(f, ws) && f.wordsize == Times(size, m) && z + Times(m, f.numwords) <= |mem.cells|
    modifies mem
    ensures Inside(old(mem.cells), mem.cells, z, Times(m, f.numwords))
    ensures Loaded(mem.cells, z, f, ws, m, size, bigEndian, f.numwords, 0)
  {
    hide Times, Slot, NativeDigit, Part, Loaded;
    ghost var c0 := mem.cells;
    NothingLoaded(c0, z, f, ws, m, size, bigEndian);
    var g := 0;
    while g < f.numwords
      invariant 0 <= g <= f.numwords && Inside(c0, mem.cells, z, Times(m, f.numwords))
      invariant Loaded(mem.cells, z, f, ws, m, size, bigEndian, g, 0)
    {
      var h := 0;
      while h < m
        invariant 0 <= h <= m && Inside(c0, mem.cells, z, Times(m, f.numwords))
        invariant Loaded(mem.cells, z, f, ws, m, size, bigEndian, g, h)
      {
        SlotBelow(m, g, h, f.numwords);
        LoadedStep(mem.cells, z, f, ws, m, size, bigEndian, g, h);
        mem.cells := mem.cells[z + Slot(m, g, h) := NativeDigit(Part(f, ws, size, m, g, h), size, bigEndian)];
        h := h + 1;
      }
      WordLoaded(mem.cells, z, f, ws, m, size, bigEndian, g);
      g := g + 1;
    }
  }

  lemma LoadedByte(c: seq<Digit>, z: nat, f: Format, ws: Words, m: nat, size: nat, bigEndian: bool, g: nat, t: nat)
    requires DigitSize(size) && size > 0 && Fits(f, ws) && f.wordsize == Times(size, m) && g < f.numwords
    requires t < f.wordsize
    requires Loaded(c, z, f, ws, m, size, bigEndian, f.numwords, 0)
    ensures ViewWord(c, z, f, m, size, bigEndian, g)[t] == ws[g][t]
  {
    hide Times, Slot, NativeDigit, NativeByte;
    IndexParts(size, m, t);
    var r, i := t / size, t % size;
    SlotBelow(m, g, r, f.numwords);
    var part := Part(f, ws, size, m, g, r);
    assert c[z + Slot(m, g, r)] == NativeDigit(part, size, bigEndian);
    NativeDigitByte(part, size, bigEndian, i);
    assert part[i] == ws[g][Times(size, r) + i];
  }

  /** Seen as words again, loaded words are the words. */
  lemma LoadedView(c: seq<Digit>, z: nat, f: Format, ws: Words, m: nat, size: nat, bigEndian: bool)
    requires DigitSize(size) && size > 0 && Fits(f, ws) && f.wordsize == Times(size, m)
    requires Loaded(c, z, f, ws, m, size, bigEndian, f.numwords, 0)
    ensures z + Times(m, f.numwords) <= |c| && ViewWords(c, z, f, m, size, bigEndian) == ws
  {
    hide Times, Slot, NativeDigit, NativeByte, ViewWord;
    var vs := ViewWords(c, z, f, m, size, bigEndian);
    forall g | 0 <= g < f.numwords
      ensures vs[g] == ws[g]
    {
      forall t | 0 <= t < f.wordsize
        ensures vs[g][t] == ws[g][t]
      {
        LoadedByte(c, z, f, ws, m, size, bigEndian, g, t);
      }
    }
  }

  /** Loaded and rearranged words are the number that they stand for. */
  lemma LoadedNumber(c: seq<Digit>, c': seq<Digit>, z: nat, f: Format, ws: Words, m: nat, size: nat, bigEndian: bool)
    requires Valid(f) && f.nails == 0 && DigitSize(size) && size > 0 && Fits(f, ws) && f.wordsize == Times(size, m)
    requires Loaded(c, z, f, ws, m, size, bigEndian, f.numwords, 0)
    requires Rearranged(c, c', z, f, m, size, f.msByteFirst != bigEndian)
    ensures |c'| == |c| && z + Times(m, f.numwords) <= |c|
    ensures W(c', z, Times(m, f.numwords)) == Seen(f, ws, f.numwords) && P(Times(m, f.numwords)) == Two(TotalBits(f))
  {
    hide Times, Slot, NativeDigit, NativeByte, W, P, Two, Seen, Offset, ByteOf;
    LoadedView(c, z, f, ws, m, size, bigEndian);
    RearrangedBack(c, c', z, f, m, size, f.msByteFirst != bigEndian);
    BufferBits(f, size, m);
    assert |c'| == |c|;
    var u := W(c', z, Times(m, f.numwords));
    forall g, t | 0 <= g < f.numwords && 0 <= t < f.wordsize
      ensures ByteAt(f, ws[WordPlace(f, g)], t) == ByteOf(u, Times(f.wordsize, g) + t)
    {
      ViewByte(c', c, z, f, m, size, bigEndian, g, t);
    }
    SeenIs(f, ws, u);
  }

  /** The third short cut: digits are copied and put in order.  Without words the digit before the
      buffer is looked at, and makes no difference. */
  method UnpackDigitsOf(mem: Memory, z: nat, zn: nat, f: Format, ws: Words, twocomp: bool, negative: bool, size: nat,
                        bigEndian: bool)
    returns (sign: int)
    requires Valid(f) && f.nails == 0 && Fits(f, ws) && DigitSize(size) && f.wordsize % size == 0
    requires z + zn <= |mem.cells| && BITS * zn == TotalBits(f)
    modifies mem
    ensures Inside(old(mem.cells), mem.cells, z, zn)
    ensures SignedValue(sign, W(mem.cells, z, zn), TotalBits(f))
         == UnpackedValue(Seen(f, ws, f.numwords), TotalBits(f), twocomp, negative)
  {
    hide W, P, Two, Seen, Times, Offset, Loaded, Rearranged;
    BitsPerDigit();
    var m := WordDigits(f, size);
    DigitsAreAll(f, size, m, zn);
    LoadDigits(mem, z, f, ws, m, size, bigEndian);
    ghost var c1 := mem.cells;
    RearrangeBack(mem, z, f, m, size, f.msByteFirst != bigEndian);
    LoadedNumber(c1, mem.cells, z, f, ws, m, size, bigEndian);
    ghost var u := W(mem.cells, z, zn);
    var top: bool := *;
    if zn > 0 {
      TopBits(mem.cells, z, zn, TotalBits(f), 0);
      top := mem.cells[z + zn - 1] >= Two(BITS - 1);
    } else {
      NoWords(mem.cells, z, zn, f, ws, 0);
    }
    if twocomp && (negative || top) {
      sign := Negate(mem, z, zn, u, TotalBits(f));
      if !negative { sign := -1; }
    } else {
      sign := if negative then -1 else 1;
    }
    if zn == 0 { NoWords(mem.cells, z, zn, f, ws, 0); }
  }

  lemma DigitsAreAll(f: Format, size: nat, m: nat, zn: nat)
    requires Valid(f) && f.nails == 0 && DigitSize(size) && f.wordsize == Times(size, m) && BITS * zn == TotalBits(f)
    ensures zn == Times(m, f.numwords) && (zn == 0 <==> f.numwords == 0)
  {
    BitsPerDigit();
    OffsetIs(f, f.numwords);
    SlotBytes(size, m, f.numwords, 0);
    SameFactor(size, zn, Times(m, f.numwords));
    Commute(f.numwords, f.wordsize);
    if f.numwords > 0 { MulLe(1, f.numwords, f.wordsize); }
  }

  lemma SameFactor(size: nat, a: nat, b: nat)
    requires size > 0 && 8 * size * a == 8 * (size * b)
    ensures a == b
  {
    assert 8 * size * a == 8 * (size * a);
    if a < b { MulLe(a + 1, b, size); Distrib(a, 1, size); Commute(size, a); Commute(size, b); }
    if b < a { MulLe(b + 1, a, size); Distrib(b, 1, size); Commute(size, a); Commute(size, b); }
  }

  /** bary_unpack_internal with its short cuts.  Whether the buffer is aligned for words of the host is
      left open. */
  method UnpackAnyWay(mem: Memory, z: nat, zn: nat, f: Format, ws: Words, twocomp: bool, negative: bool, nlp: nat,
                      size: nat, bigEndian: bool, generic: bool)
    returns (sign: int)
    requires Valid(f) && Fits(f, ws) && z + zn <= |mem.cells| && nlp < BITS && BITS * zn == TotalBits(f) + nlp
    requires DigitSize(size)
    modifies mem
    ensures Inside(old(mem.cells), mem.cells, z, zn)
    ensures SignedValue(sign, W(mem.cells, z, zn), TotalBits(f))
         == UnpackedValue(Seen(f, ws, f.numwords), TotalBits(f), twocomp, negative)
  {
    hide W, P, Two, Seen, SignedValue, UnpackedValue;
    BitsPerDigit();
    var aligned: bool := *;
    if !generic && f.nails == 0 {
      if f.numwords == 1 && f.wordsize in {1, 2, 4, 8} && f.wordsize <= size && (f.wordsize == 1 || aligned) {
        OneDigit(f, size, zn, nlp);
        sign := UnpackSingle(mem, z, f, ws, twocomp, negative, size, bigEndian);
        return;
      }
      if !bigEndian && !f.msWordFirst && !f.msByteFirst {
        sign := UnpackBytesOf(mem, z, zn, f, ws, twocomp, negative, size, nlp);
        return;
      }
      if f.wordsize % size == 0 {
        NoPadding(f, size, zn, nlp);
        sign := UnpackDigitsOf(mem, z, zn, f, ws, twocomp, negative, size, bigEndian);
        return;
      }
    }
    sign := UnpackInternal(mem, z, zn, f, ws, twocomp, negative, nlp);
  }

  lemma OneDigit(f: Format, size: nat, zn: nat, nlp: nat)
    requires Valid(f) && f.nails == 0 && f.numwords == 1 && DigitSize(size) && f.wordsize <= size
    requires nlp < BITS && BITS * zn == TotalBits(f) + nlp
    ensures zn == 1
  {
    OffsetIs(f, 1);
    TimesNext(f.wordsize, 0);
    if zn >= 2 { MulLe(2, zn, BITS); Commute(BITS, zn); }
  }

  /** Whole digits leave no padding. */
  lemma NoPadding(f: Format, size: nat, zn: nat, nlp: nat)
    requires Valid(f) && f.nails == 0 && DigitSize(size) && size > 0 && f.wordsize % size == 0
    requires nlp < BITS && BITS * zn == TotalBits(f) + nlp
    ensures nlp == 0
  {
    var m := WordDigits(f, size);
    OffsetIs(f, f.numwords);
    SlotBytes(size, m, f.numwords, 0);
    var k := Times(m, f.numwords);
    assert TotalBits(f) == 8 * (size * k);
    assert 8 * (size * k) == BITS * k;
    assert BITS * zn - BITS * k == BITS * (zn - k);
    if zn - k >= 1 { MulLe(1, zn - k, BITS); Commute(BITS, zn - k); }
    if zn - k <= -1 { MulLe(zn - k, -1, BITS); Commute(BITS, zn - k); }
  }
}
