/** bary_pack with its short cuts: the low bytes of one digit, a copy of bytes, a copy of digits.  All
    of them pack what the generic form packs. */
module PackFast {
  import opened Arith
  import opened BDigits
  import opened Bary
  import opened Bits
  import opened PackFormat
  import opened Pack
  import opened PackBytes
  import opened DigitOrder

  /** The contract of bary_pack: the words, with zero nails, and the answer */
  ghost predicate PackedAs(f: Format, ws: Words, code: int, v: int, twocomp: bool)
    requires Valid(f)
  {
    && Fits(f, ws) && Clean(f, ws, f.numwords) && Val(f, ws, f.numwords) == PackedValue(v, TotalBits(f), twocomp)
    && code == PackCode(v, TotalBits(f), twocomp)
  }

  /** Packed words whose bytes are those of u, which is the packed value modulo 2^N */
  lemma FromBytes(f: Format, ws: Words, u: nat, code: int, v: int, twocomp: bool)
    requires Valid(f) && f.nails == 0 && Fits(f, ws)
    requires forall g, t :: 0 <= g < f.numwords && 0 <= t < f.wordsize ==>
                              ByteAt(f, ws[WordPlace(f, g)], t) == ByteOf(u, Times(f.wordsize, g) + t)
    requires u % Two(TotalBits(f)) == PackedValue(v, TotalBits(f), twocomp)
    requires code == PackCode(v, TotalBits(f), twocomp)
    ensures PackedAs(f, ws, code, v, twocomp)
  {
    hide Two, Offset, ByteOf, Times, PackedValue, PackCode, Clean, Val;
    WordsOf(f, ws, f.numwords, u);
    PackedIs(f, ws, u);
  }

  // One digit

  /** CLEAR_LOWBITS and FILL_LOWBITS */
  function ClearLow(d: int, n: nat): int {
    d - d % Two(n)
  }

  function FillLow(d: int, n: nat): int {
    d - d % Two(n) + Two(n) - 1
  }

  lemma ClearLowIs(d: nat, n: nat)
    ensures ClearLow(d, n) != 0 <==> d >= Two(n)
  {
    hide Two;
    if d < Two(n) { DivUnique(d, Two(n), 0, d); } else { ModBound(d, Two(n)); }
  }

  lemma FillLowIs(d: nat, n: nat)
    requires d > 0
    ensures FillLow(0 - d as int, n) == -1 <==> d <= Two(n)
  {
    hide Two;
    var t, m := Two(n), 0 - d as int;
    if d <= t { DivUnique(m, t, -1, t - d); }
  }

  /** A word in host order, after the swap that the format asks for */
  method StoreNative(u: nat, f: Format, bigEndian: bool) returns (w: Word)
    ensures |w| == f.wordsize && forall t :: 0 <= t < f.wordsize ==> ByteAt(f, w, t) == ByteOf(u, t)
  {
    hide ByteOf, SwapBytes;
    var n := f.wordsize;
    if n != 1 && f.msByteFirst != bigEndian {
      w := NativeStore(SwapBytes(u, n), n, bigEndian);
      forall t | 0 <= t < n
        ensures ByteAt(f, w, t) == ByteOf(u, t)
      {
        SwapByte(u, n, if bigEndian then n - 1 - Place(f, t) else Place(f, t));
      }
    } else {
      w := NativeStore(u, n, bigEndian);
    }
  }

  /** The low bits of a number are those of its low digit. */
  lemma LowDigit(c: seq<Digit>, ds: nat, n: nat, bits: nat)
    requires 0 < n && ds + n <= |c| && bits <= BITS
    ensures W(c, ds, n) % Two(bits) == c[ds] % Two(bits)
    ensures (0 - W(c, ds, n) as int) % Two(bits) == (0 - c[ds] as int) % Two(bits)
  {
    hide Two, W;
    BitsPerDigit();
    TwoAdd(bits, BITS - bits);
    WHead(c, ds, n - 1);
    var m, t := Two(bits), Two(BITS - bits);
    LowDigitAlgebra(c[ds], W(c, ds + 1, n - 1), m, t);
    NegatedMod(W(c, ds, n), m);
    NegatedMod(c[ds], m);
  }

  lemma LowDigitAlgebra(d: nat, w: nat, m: nat, t: nat)
    requires m > 0
    ensures (d + m * t * w) % m == d % m
  {
    var q, r := d / m, d % m;
    assert m * t * w == t * w * m;
    Distrib(q, t * w, m);
    DivUnique(d + t * w * m, m, q + t * w, r);
  }

  /** A number of more than one digit is at least B; it is B itself for the digits 0 and 1. */
  lemma LongNumber(c: seq<Digit>, ds: nat, n: nat)
    requires 1 < n && ds + n <= |c| && c[ds + n - 1] != 0
    ensures W(c, ds, n) >= B && (W(c, ds, n) == B <==> n == 2 && c[ds + 1] == 1 && c[ds] == 0)
  {
    hide W, P;
    TopLong(c, ds, n);
    POneIs();
    PMono(1, n - 1);
    if n == 2 {
      TwoDigitValue(c, ds);
      BCases(c[ds], c[ds + 1]);
    } else {
      PMono(2, n - 1);
      PPositive(1);
    }
  }

  lemma POneIs()
    ensures P(1) == B && P(0) == 1
  {
    assert P(1) == B * P(0);
  }

  lemma BCases(lo: nat, hi: nat)
    requires lo < B && hi > 0
    ensures lo + Up(hi) == B <==> hi == 1 && lo == 0
  {
    if hi >= 2 { MulLe(2, hi, B); }
  }

  /** The first short cut: one word, not longer than a digit */
  method PackSingle(c: seq<Digit>, sign: int, ds: nat, n: nat, f: Format, twocomp: bool, size: nat, bigEndian: bool)
    returns (ws: Words, code: int)
    requires Valid(f) && f.nails == 0 && f.numwords == 1 && DigitSize(size) && f.wordsize <= size
    requires 0 < n && ds + n <= |c| && c[ds + n - 1] != 0 && (sign == 1 || sign == -1)
    ensures PackedAs(f, ws, code, sign * W(c, ds, n), twocomp)
  {
    hide W, Two, ByteOf, PackCode, PackedAs, PackedValue;
    var bits := 8 * f.wordsize;
    var u: nat;
    if 0 < sign || !twocomp {
      var d := c[ds];
      u := d % Two(bits);
      code := (if 1 < n || ClearLow(d, bits) != 0 then 2 else 1) * sign;
    } else {
      var d := 0 - c[ds] as int;
      u := d % Two(bits);
      code := if f.wordsize == size && n == 2 && c[ds + 1] == 1 && c[ds] == 0 then -1
              else if 1 < n || FillLow(d, bits) != -1 then -2 else -1;
    }
    SingleCode(c, sign, ds, n, f, twocomp, size, code);
    SingleValue(c, sign, ds, n, f, twocomp, size, u);
    var w := StoreNative(u, f, bigEndian);
    ws := [w];
    OneWordPacked(f, ws, u, code, sign * W(c, ds, n), twocomp);
  }

  lemma OneWordPacked(f: Format, ws: Words, u: nat, code: int, v: int, twocomp: bool)
    requires Valid(f) && f.nails == 0 && f.numwords == 1 && |ws| == 1 && |ws[0]| == f.wordsize
    requires forall t :: 0 <= t < f.wordsize ==> ByteAt(f, ws[0], t) == ByteOf(u, t)
    requires u % Two(TotalBits(f)) == PackedValue(v, TotalBits(f), twocomp)
    requires code == PackCode(v, TotalBits(f), twocomp)
    ensures PackedAs(f, ws, code, v, twocomp)
  {
    hide ByteOf, Two, PackCode, PackedValue;
    TimesNext(f.wordsize, 0);
    FromBytes(f, ws, u, code, v, twocomp);
  }

  lemma SingleValue(c: seq<Digit>, sign: int, ds: nat, n: nat, f: Format, twocomp: bool, size: nat, u: nat)
    requires Valid(f) && f.nails == 0 && f.numwords == 1 && DigitSize(size) && f.wordsize <= size
    requires 0 < n && ds + n <= |c| && (sign == 1 || sign == -1)
    requires u == (if 0 < sign || !twocomp then c[ds] else 0 - c[ds] as int) % Two(8 * f.wordsize)
    ensures u % Two(TotalBits(f)) == PackedValue(sign * W(c, ds, n), TotalBits(f), twocomp)
  {
    hide W, Two;
    OffsetIs(f, 1);
    TimesNext(f.wordsize, 0);
    LowDigit(c, ds, n, 8 * f.wordsize);
    assert sign == 1 ==> sign * W(c, ds, n) == W(c, ds, n);
    assert sign == -1 ==> sign * W(c, ds, n) == 0 - (W(c, ds, n) as int);
    DivUnique(u, Two(8 * f.wordsize), 0, u);
  }

  lemma SingleCode(c: seq<Digit>, sign: int, ds: nat, n: nat, f: Format, twocomp: bool, size: nat, code: int)
    requires Valid(f) && f.nails == 0 && f.numwords == 1 && DigitSize(size) && f.wordsize <= size
    requires 0 < n && ds + n <= |c| && c[ds + n - 1] != 0 && (sign == 1 || sign == -1)
    requires var bits := 8 * f.wordsize;
             code == if 0 < sign || !twocomp then (if 1 < n || ClearLow(c[ds], bits) != 0 then 2 else 1) * sign
                     else if f.wordsize == size && n == 2 && c[ds + 1] == 1 && c[ds] == 0 then -1
                     else if 1 < n || FillLow(0 - c[ds] as int, bits) != -1 then -2 else -1
    ensures code == PackCode(sign * W(c, ds, n), TotalBits(f), twocomp)
  {
    hide W, Two, PackCode;
    var bits := 8 * f.wordsize;
    OffsetIs(f, 1);
    TimesNext(f.wordsize, 0);
    BitsPerDigit();
    TopPositive(c, ds, n);
    CodeIs(sign, W(c, ds, n), bits, twocomp);
    ClearLowIs(c[ds], bits);
    TwoOrder(bits, BITS);
    if n == 1 {
      WOne(c, ds);
      FillLowIs(c[ds], bits);
    } else {
      LongNumber(c, ds, n);
    }
  }

  // A copy of bytes

  /** Byte j of the digits at ds as a little-endian host stores them */
  function StoredByte(c: seq<Digit>, ds: nat, size: nat, j: nat): Byte
    requires size > 0 && ds + j / size < |c|
  {
    ByteOf(c[ds + j / size], j % size)
  }

  lemma StoredByteIs(c: seq<Digit>, ds: nat, n: nat, size: nat, j: nat)
    requires DigitSize(size) && ds + n <= |c| && j < Times(size, n)
    ensures size > 0 && j / size < n && StoredByte(c, ds, size, j) == ByteOf(W(c, ds, n), j)
  {
    hide W, ByteOf, Times;
    BitsPerDigit();
    IndexParts(size, n, j);
    ByteOfDigit(c, ds, n, size, j / size, j % size);
  }

  /** The bytes up to the top one that is not zero */
  method SourceSize(c: seq<Digit>, ds: nat, n: nat, size: nat) returns (src: nat)
    requires DigitSize(size) && ds + n <= |c|
    ensures src <= Times(size, n) && W(c, ds, n) < Two(8 * src) && (src > 0 ==> W(c, ds, n) >= Two(8 * (src - 1)))
    ensures src > 0 ==> ByteOf(W(c, ds, n), src - 1) != 0
  {
    hide W, ByteOf, Two, Times, StoredByte;
    DigitPower(size, n);
    src := Times(size, n);
    while true
      invariant src <= Times(size, n) && W(c, ds, n) < Two(8 * src)
      decreases src
    {
      if src == 0 { return; }
      StoredByteIs(c, ds, n, size, src - 1);
      if StoredByte(c, ds, size, src - 1) != 0 {
        TopByte(W(c, ds, n), src - 1);
        return;
      }
      TopByte(W(c, ds, n), src - 1);
      src := src - 1;
    }
  }

  /** A number below 2^8(j+1) is below 2^8j exactly when its byte j is zero. */
  lemma TopByte(v: nat, j: nat)
    requires v < Two(8 * (j + 1))
    ensures ByteOf(v, j) == 0 <==> v < Two(8 * j)
    ensures v == v % Two(8 * j) + Scaled(ByteOf(v, j), 8 * j)
  {
    hide Two;
    TwoAdd(8 * j, 8);
    TwoEight();
    var t := Two(8 * j);
    DivNat(v, t);
    QuotientCases(v, t);
    if v / t >= 256 { MulLe(256, v / t, t); Commute(t, 256); }
    DivUnique(v / t, 256, 0, v / t);
  }

  /** bytes_2comp: the two's complement of a buffer; the result tells whether all bytes were zero. */
  method BytesTwoComp(bs: seq<Byte>) returns (out: seq<Byte>, zero: bool)
    ensures |out| == |bs| && LE(out, |bs|) == (0 - LE(bs, |bs|) as int) % Two(8 * |bs|)
    ensures zero == (LE(bs, |bs|) == 0)
  {
    hide Two;
    var n := |bs|;
    out := bs;
    var i := 0;
    while i < n
      invariant 0 <= i <= n == |out|
      invariant forall j :: 0 <= j < n ==> out[j] == if j < i then 255 - bs[j] else bs[j]
    {
      out := out[i := 255 - out[i]];
      i := i + 1;
    }
    i := 0;
    while i < n
      invariant 0 <= i <= n == |out|
      invariant forall j :: 0 <= j < i ==> out[j] == 0 == bs[j]
      invariant forall j :: i <= j < n ==> out[j] == 255 - bs[j]
    {
      var b: nat := out[i];
      out := out[i := (b + 1) % 256];
      if out[i] != 0 {
        Complement(bs, out, i, n);
        return out, false;
      }
      i := i + 1;
    }
    AllZero(bs, n);
    AllZero(out, n);
    DivUnique(0, Two(8 * n), 0, 0);
    return out, true;
  }

  lemma {:induction false} AllZero(bs: seq<Byte>, n: nat)
    requires n <= |bs| && forall j :: 0 <= j < n ==> bs[j] == 0
    ensures LE(bs, n) == 0
  {
    if n > 0 { AllZero(bs, n - 1); }
  }

  /** Low zeros, then 256 - b, then 255 - b: the bytes of both add up to 2^8n. */
  lemma {:induction false} ComplementSum(bs: seq<Byte>, out: seq<Byte>, i: nat, n: nat)
    requires i < n <= |bs| == |out| && bs[i] > 0 && out[i] == 256 - bs[i]
    requires forall j :: 0 <= j < i ==> out[j] == 0 == bs[j]
    requires forall j :: i < j < n ==> out[j] == 255 - bs[j]
    ensures LE(bs, n) + LE(out, n) == Two(8 * n) && LE(bs, n) > 0
    decreases n
  {
    hide Two, Scaled;
    if i == n - 1 {
      AllZero(bs, i);
      AllZero(out, i);
      ByteSum(0, 0, bs[i], out[i], i);
    } else {
      ComplementSum(bs, out, i, n - 1);
      ByteSum(LE(bs, n - 1), LE(out, n - 1), bs[n - 1], out[n - 1], n - 1);
    }
  }

  lemma ByteSum(a: nat, b: nat, x: Byte, y: Byte, m: nat)
    requires (x > 0 && a == b == 0 && x + y as int == 256) || (a > 0 && a + b == Two(8 * m) && x + y as int == 255)
    ensures a + Scaled(x, 8 * m) + (b + Scaled(y, 8 * m)) == Two(8 * (m + 1)) && a + Scaled(x, 8 * m) > 0
  {
    hide Two;
    TwoAdd(8 * m, 8);
    TwoEight();
    var t := Two(8 * m);
    Distrib(x, y, t);
    if x > 0 { MulLe(1, x, t); }
    Commute(t, 256);
  }

  lemma Complement(bs: seq<Byte>, out: seq<Byte>, i: nat, n: nat)
    requires i < n == |bs| == |out| && bs[i] > 0 && out[i] == 256 - bs[i]
    requires forall j :: 0 <= j < i ==> out[j] == 0 == bs[j]
    requires forall j :: i < j < n ==> out[j] == 255 - bs[j]
    ensures LE(out, n) == (0 - LE(bs, n) as int) % Two(8 * n) && LE(bs, n) > 0
  {
    hide Two, LE;
    ComplementSum(bs, out, i, n);
    LEBound(out, n);
    DivUnique(0 - LE(bs, n) as int, Two(8 * n), -1, LE(out, n));
  }

  /** A buffer seen as words */
  function CutWords(f: Format, bs: seq<Byte>): (ws: Words)
    requires |bs| == Times(f.wordsize, f.numwords)
    ensures Fits(f, ws) && forall g :: 0 <= g < f.numwords ==> ws[g] == CutWord(f, bs, g)
  {
    seq(f.numwords, g requires 0 <= g < f.numwords => CutWord(f, bs, g))
  }

  function CutWord(f: Format, bs: seq<Byte>, g: nat): (w: Word)
    requires |bs| == Times(f.wordsize, f.numwords) && g < f.numwords
    ensures |w| == f.wordsize && Times(f.wordsize, g) + f.wordsize <= |bs|
    ensures forall t :: 0 <= t < f.wordsize ==> w[t] == bs[Times(f.wordsize, g) + t]
  {
    MulLe(g + 1, f.numwords, f.wordsize);
    Distrib(g, 1, f.wordsize);
    Commute(g, f.wordsize);
    Commute(f.numwords, f.wordsize);
    bs[Times(f.wordsize, g)..Times(f.wordsize, g) + f.wordsize]
  }

  /** A little-endian buffer is packed as the number its bytes stand for. */
  lemma BufferPacked(f: Format, bs: seq<Byte>, u: nat, code: int, v: int, twocomp: bool)
    requires Valid(f) && f.nails == 0 && !f.msWordFirst && !f.msByteFirst && |bs| == Times(f.wordsize, f.numwords)
    requires LE(bs, |bs|) == PackedValue(v, TotalBits(f), twocomp) && code == PackCode(v, TotalBits(f), twocomp)
    ensures PackedAs(f, CutWords(f, bs), code, v, twocomp)
  {
    hide ByteOf, Two, PackCode, PackedValue, LE, Times, Offset;
    var ws, u := CutWords(f, bs), LE(bs, |bs|);
    forall g, t | 0 <= g < f.numwords && 0 <= t < f.wordsize
      ensures ByteAt(f, ws[WordPlace(f, g)], t) == ByteOf(u, Times(f.wordsize, g) + t)
    {
      InDigit(f.wordsize, g, t, f.numwords);
      LEBytes(bs, |bs|, Times(f.wordsize, g) + t);
    }
    LEBound(bs, |bs|);
    OffsetIs(f, f.numwords);
    DivUnique(u, Two(TotalBits(f)), 0, u);
    FromBytes(f, ws, u, code, v, twocomp);
  }

  /** The bytes of v that there is room for */
  method CopyBytes(c: seq<Digit>, ds: nat, n: nat, size: nat, src: nat, dst: nat) returns (bs: seq<Byte>)
    requires DigitSize(size) && ds + n <= |c| && src <= Times(size, n) && W(c, ds, n) < Two(8 * src)
    ensures |bs| == dst && LE(bs, dst) == W(c, ds, n) % Two(8 * dst)
  {
    hide W, ByteOf, Two, LE, Times, StoredByte;
    bs := [];
    while |bs| < dst
      invariant |bs| <= dst && forall j :: 0 <= j < |bs| ==> bs[j] == ByteOf(W(c, ds, n), j)
    {
      var j := |bs|;
      if j < src {
        StoredByteIs(c, ds, n, size, j);
        bs := bs + [StoredByte(c, ds, size, j)];
      } else {
        TwoMono(8 * src, 8 * j);
        ByteBeyond(W(c, ds, n), j);
        bs := bs + [0];
      }
    }
    LEOf(bs, dst, W(c, ds, n));
  }

  /** The second short cut, on a little-endian host: bytes are copied. */
  method PackBytesOf(c: seq<Digit>, sign: int, ds: nat, n: nat, f: Format, twocomp: bool, size: nat)
    returns (ws: Words, code: int)
    requires Valid(f) && f.nails == 0 && !f.msWordFirst && !f.msByteFirst && DigitSize(size)
    requires 0 < n && ds + n <= |c| && c[ds + n - 1] != 0 && (sign == 1 || sign == -1)
    ensures PackedAs(f, ws, code, sign * W(c, ds, n), twocomp)
  {
    hide W, Two, ByteOf, PackCode, PackedAs, PackedValue, LE, Times;
    var dst := Times(f.wordsize, f.numwords);
    var src := SourceSize(c, ds, n, size);
    ghost var v := W(c, ds, n);
    var bs := CopyBytes(c, ds, n, size, src, dst);
    var overflow := src > dst;
    ghost var low := bs;
    if sign < 0 && twocomp {
      var zero;
      bs, zero := BytesTwoComp(bs);
      if zero && overflow && dst == src - 1 {
        StoredByteIs(c, ds, n, size, dst);
        if StoredByte(c, ds, size, dst) == 1 { overflow := false; }
      }
    }
    code := if overflow then 2 * sign else sign;
    OffsetIs(f, f.numwords);
    TopPositive(c, ds, n);
    PackedSigned(v, sign, TotalBits(f), twocomp);
    BytesCode(v, sign, src, dst, twocomp, code);
    BufferPacked(f, bs, v, code, sign * v, twocomp);
    ws := CutWords(f, bs);
  }

  /** The overflow test on the number of bytes, and the exception for -2^N */
  lemma BytesCode(v: nat, sign: int, src: nat, dst: nat, twocomp: bool, code: int)
    requires v > 0 && (sign == 1 || sign == -1) && v < Two(8 * src) && (src > 0 ==> v >= Two(8 * (src - 1)))
    requires var exact := sign < 0 && twocomp && v % Two(8 * dst) == 0 && dst == src - 1 && ByteOf(v, dst) == 1;
             code == if src > dst && !exact then 2 * sign else sign
    ensures code == PackCode(sign * v, 8 * dst, twocomp)
  {
    hide Two, PackCode, ByteOf;
    CodeIs(sign, v, 8 * dst, twocomp);
    if src <= dst {
      TwoMono(8 * src, 8 * dst);
    } else {
      TwoMono(8 * dst, 8 * (src - 1));
      if dst == src - 1 {
        TopByte(v, dst);
        ExactPower(v, Two(8 * dst), ByteOf(v, dst));
      } else {
        TwoOrder(8 * dst, 8 * (src - 1));
      }
    }
  }

  lemma ExactPower(v: nat, t: nat, b: nat)
    requires t > 0 && v == v % t + b * t
    ensures v % t == 0 && b == 1 <==> v == t
  {
    if v == t { DivUnique(v, t, 1, 0); }
  }

  // A copy of digits

  /** The digits of v that there is room for */
  method CopyDigits(c: seq<Digit>, ds: nat, n: nat, nd: nat) returns (out: seq<Digit>)
    requires ds + n <= |c|
    ensures |out| == nd && W(out, 0, nd) == W(c, ds, n) % P(nd)
  {
    hide W, P;
    if n <= nd {
      out := c[ds..ds + n] + seq(nd - n, _ => 0);
      WCopy(out, 0, c, ds, n);
      WSplit(out, 0, n, nd - n);
      WZero(out, n, nd - n);
      ShUnit(n);
      PMono(n, nd);
      DivUnique(W(c, ds, n), P(nd), 0, W(c, ds, n));
    } else {
      out := c[ds..ds + nd];
      WCopy(out, 0, c, ds, nd);
      WSplit(c, ds, nd, n - nd);
      ShIs(W(c, ds + nd, n - nd), nd);
      DivUnique(W(c, ds, n), P(nd), W(c, ds + nd, n - nd), W(c, ds, nd));
    }
  }

  function WordDigits(f: Format, size: nat): (m: nat)
    requires size > 0 && f.wordsize % size == 0
    ensures f.wordsize == Times(size, m)
  {
    DivNat(f.wordsize, size);
    f.wordsize / size
  }

  lemma BufferBits(f: Format, size: nat, m: nat)
    requires Valid(f) && f.nails == 0 && DigitSize(size) && f.wordsize == Times(size, m)
    ensures P(Times(m, f.numwords)) == Two(TotalBits(f))
  {
    hide Two, P;
    DigitPower(size, Times(m, f.numwords));
    OffsetIs(f, f.numwords);
    SlotBytes(size, m, f.numwords, 0);
    assert Slot(m, f.numwords, 0) == Times(m, f.numwords);
  }

  lemma TwoCompIs(w: nat, w': nat, p: nat, zero: bool)
    requires w < p && zero == (w == 0) && w' == if zero then 0 else p - w
    ensures w' == (0 - w as int) % p
  {
    if zero { DivUnique(0, p, 0, 0); } else { DivUnique(0 - w as int, p, -1, w'); }
  }

  /** The overflow test on the number of digits, and the exception for -2^N */
  lemma DigitsCode(c: seq<Digit>, ds: nat, n: nat, sign: int, nd: nat, bits: nat, twocomp: bool, code: int)
    requires 0 < n && ds + n <= |c| && c[ds + n - 1] != 0 && (sign == 1 || sign == -1) && P(nd) == Two(bits)
    requires var exact := sign < 0 && twocomp && W(c, ds, n) % P(nd) == 0 && nd == n - 1 && c[ds + nd] == 1;
             code == if n > nd && !exact then 2 * sign else sign
    ensures code == PackCode(sign * W(c, ds, n), bits, twocomp)
  {
    hide Two, PackCode, W, P;
    var v := W(c, ds, n);
    TopLong(c, ds, n);
    TopPositive(c, ds, n);
    CodeIs(sign, v, bits, twocomp);
    if n <= nd {
      PMono(n, nd);
    } else if nd == n - 1 {
      WNext(c, ds, nd);
      ShIs(c[ds + nd], nd);
      DivUnique(v, P(nd), c[ds + nd], W(c, ds, nd));
      ExactPower(v, P(nd), c[ds + nd]);
    } else {
      PPositive(nd);
      PMono(nd + 1, n - 1);
    }
  }

  lemma DigitsValue(v: nat, sign: int, u: nat, bits: nat, twocomp: bool)
    requires v > 0 && (sign == 1 || sign == -1)
    requires u == if twocomp && sign < 0 then (0 - v % Two(bits) as int) % Two(bits) else v % Two(bits)
    ensures u % Two(bits) == PackedValue(sign * v, bits, twocomp)
  {
    hide Two, PackedValue;
    PackedSigned(v, sign, bits, twocomp);
    ModBound(v, Two(bits));
    DivUnique(u, Two(bits), 0, u);
  }

  lemma ViewPacked(c: seq<Digit>, c': seq<Digit>, f: Format, m: nat, size: nat, bigEndian: bool, code: int, v: int,
                   twocomp: bool)
    requires Valid(f) && f.nails == 0 && DigitSize(size) && size > 0 && f.wordsize == Times(size, m)
    requires Rearranged(c, c', 0, f, m, size, f.msByteFirst != bigEndian)
    requires Times(m, f.numwords) <= |c|
    requires W(c, 0, Times(m, f.numwords)) % Two(TotalBits(f)) == PackedValue(v, TotalBits(f), twocomp)
    requires code == PackCode(v, TotalBits(f), twocomp)
    ensures Times(m, f.numwords) <= |c'| && PackedAs(f, ViewWords(c', 0, f, m, size, bigEndian), code, v, twocomp)
  {
    hide Two, PackCode, W, P, Times, PackedValue, ByteOf, Offset;
    RearrangedSize(c, c', f, m, size, f.msByteFirst != bigEndian);
    var ws := ViewWords(c', 0, f, m, size, bigEndian);
    forall g, t | 0 <= g < f.numwords && 0 <= t < f.wordsize
      ensures ByteAt(f, ws[WordPlace(f, g)], t) == ByteOf(W(c, 0, Times(m, f.numwords)), Times(f.wordsize, g) + t)
    {
      ViewByte(c, c', 0, f, m, size, bigEndian, g, t);
    }
    FromBytes(f, ws, W(c, 0, Times(m, f.numwords)), code, v, twocomp);
  }

  lemma RearrangedSize(c: seq<Digit>, c': seq<Digit>, f: Format, m: nat, size: nat, swap: bool)
    requires DigitSize(size) && Rearranged(c, c', 0, f, m, size, swap)
    ensures |c'| == |c|
  {
  }

  /** The third short cut: digits are copied and put in order. */
  method PackDigits(c: seq<Digit>, sign: int, ds: nat, n: nat, f: Format, twocomp: bool, size: nat, bigEndian: bool)
    returns (ws: Words, code: int)
    requires Valid(f) && f.nails == 0 && DigitSize(size) && f.wordsize % size == 0
    requires 0 < n && ds + n <= |c| && c[ds + n - 1] != 0 && (sign == 1 || sign == -1)
    ensures PackedAs(f, ws, code, sign * W(c, ds, n), twocomp)
  {
    hide W, P, Two, PackCode, PackedAs, PackedValue, Times, Rearranged;
    BitsPerDigit();
    var m := WordDigits(f, size);
    var nd := Times(m, f.numwords);
    BufferBits(f, size, m);
    ghost var v := W(c, ds, n);
    var digits := CopyDigits(c, ds, n, nd);
    var buf := Buffer(digits);
    var overflow := n > nd;
    if sign < 0 && twocomp {
      var zero := TwoComp(buf, 0, nd);
      TwoCompIs(W(digits, 0, nd), W(buf.cells, 0, nd), P(nd), zero);
      if zero && overflow && nd == n - 1 && c[ds + nd] == 1 { overflow := false; }
    }
    code := if overflow then 2 * sign else sign;
    ghost var cells := buf.cells;
    ghost var u := W(cells, 0, nd);
    TopPositive(c, ds, n);
    DigitsCode(c, ds, n, sign, nd, TotalBits(f), twocomp, code);
    DigitsValue(v, sign, u, TotalBits(f), twocomp);
    Rearrange(buf, 0, f, m, size, f.msByteFirst != bigEndian);
    RearrangedSize(cells, buf.cells, f, m, size, f.msByteFirst != bigEndian);
    ws := ViewWords(buf.cells, 0, f, m, size, bigEndian);
    ViewPacked(cells, buf.cells, f, m, size, bigEndian, code, sign * v, twocomp);
  }

  // All ways

  /** bary_pack with its short cuts.  Whether the buffer is aligned for words or digits of the host is
      left open. */
  method PackAnyWay(c: seq<Digit>, sign0: int, ds: nat, num: nat, f: Format, twocomp: bool, ws0: Words, size: nat,
                    bigEndian: bool, generic: bool)
    returns (ws: Words, code: int)
    requires Valid(f) && Fits(f, ws0) && ds + num <= |c| && DigitSize(size)
    requires -1 <= sign0 <= 1 && (sign0 == 0 ==> W(c, ds, num) == 0)
    ensures PackedAs(f, ws, code, sign0 * W(c, ds, num), twocomp)
  {
    hide W, Two, PackCode, PackedValue, Val, Clean, Offset;
    var mem := Buffer(c);
    var n := Trunc(mem, ds, num);
    var wordAligned, digitAligned: bool := *, *;
    BitsPerDigit();
    if !generic {
      if n == 0 {
        WEmpty(c, ds);
        ZeroPacks(TotalBits(f), twocomp);
        assert sign0 * 0 == 0;
        ws := ZeroWords(f, ws0);
        return ws, 0;
      }
      TopPositive(c, ds, n);
      if f.nails == 0 {
        if f.numwords == 1 && f.wordsize in {1, 2, 4, 8} && f.wordsize <= size && (f.wordsize == 1 || wordAligned) {
          ws, code := PackSingle(c, sign0, ds, n, f, twocomp, size, bigEndian);
          return;
        }
        if !bigEndian && !f.msWordFirst && !f.msByteFirst {
          ws, code := PackBytesOf(c, sign0, ds, n, f, twocomp, size);
          return;
        }
        if f.wordsize % size == 0 && digitAligned {
          ws, code := PackDigits(c, sign0, ds, n, f, twocomp, size, bigEndian);
          return;
        }
      }
    }
    ws, code := BaryPack(c, sign0, ds, num, f, twocomp, ws0);
  }

  /** Packed words are determined: all ways of packing give the same bytes. */
  lemma PackedUnique(f: Format, ws: Words, ws': Words, code: int, code': int, v: int, twocomp: bool)
    requires Valid(f) && PackedAs(f, ws, code, v, twocomp) && PackedAs(f, ws', code', v, twocomp)
    ensures ws == ws' && code == code'
  {
    hide Two, PackCode, PackedValue, Offset, Val, Clean;
    forall i | 0 <= i < f.numwords
      ensures ws[i] == ws'[i]
    {
      SameWords(f, ws, ws', f.numwords, WordPlace(f, i));
    }
  }

  lemma {:induction false} SameWords(f: Format, ws: Words, ws': Words, k: nat, i: nat)
    requires Valid(f) && Fits(f, ws) && Fits(f, ws') && i < k <= f.numwords && Clean(f, ws, k) && Clean(f, ws', k)
    requires Val(f, ws, k) == Val(f, ws', k)
    ensures ws[WordPlace(f, i)] == ws'[WordPlace(f, i)]
    decreases k
  {
    hide Two, Offset, WordVal, CleanWord;
    var w, w' := ws[WordPlace(f, k - 1)], ws'[WordPlace(f, k - 1)];
    ValBound(f, ws, k - 1);
    ValBound(f, ws', k - 1);
    TopUnique(Val(f, ws, k - 1), WordVal(f, w, f.wordsize), Val(f, ws', k - 1), WordVal(f, w', f.wordsize),
              Two(Offset(f, k - 1)));
    if i < k - 1 {
      SameWords(f, ws, ws', k - 1, i);
    } else {
      forall t | 0 <= t < f.wordsize
        ensures w[t] == w'[t]
      {
        SameBytes(f, w, w', f.wordsize, Place(f, t));
      }
    }
  }

  lemma {:induction false} SameBytes(f: Format, w: Word, w': Word, n: nat, i: nat)
    requires Valid(f) && i < n <= f.wordsize == |w| == |w'| && CleanWord(f, w, n) && CleanWord(f, w', n)
    requires WordVal(f, w, n) == WordVal(f, w', n)
    ensures ByteAt(f, w, i) == ByteAt(f, w', i)
    decreases n
  {
    hide Two, BitPos;
    WordValBound(f, w, n - 1);
    WordValBound(f, w', n - 1);
    TopUnique(WordVal(f, w, n - 1), ByteAt(f, w, n - 1), WordVal(f, w', n - 1), ByteAt(f, w', n - 1),
              Two(BitPos(f, n - 1)));
    if i < n - 1 { SameBytes(f, w, w', n - 1, i); }
  }
}
