/** Numbers as sequences of bytes: digits, words and buffers seen through their bytes. */
module PackBytes {
  import opened Arith
  import opened BDigits
  import opened Bits
  import opened PackFormat
  import opened Pack

  /** Byte j of v, counted from the least significant one */
  function ByteOf(v: nat, j: nat): Byte {
    v / Two(8 * j) % 256
  }

  /** The value of the first n bytes, least significant byte first */
  function LE(bs: seq<Byte>, n: nat): nat
    requires n <= |bs|
  {
    if n == 0 then 0 else LE(bs, n - 1) + Scaled(bs[n - 1], 8 * (n - 1))
  }

  lemma {:induction false} LEBound(bs: seq<Byte>, n: nat)
    requires n <= |bs|
    ensures LE(bs, n) < Two(8 * n)
  {
    hide Two;
    TwoOne();
    if n > 0 {
      LEBound(bs, n - 1);
      TwoAdd(8 * (n - 1), 8);
      TwoEight();
      TopDigit(LE(bs, n - 1), bs[n - 1], Two(8 * (n - 1)), 256);
      Commute(Two(8 * (n - 1)), 256);
    }
  }

  /** Bytes of v, put together, are v. */
  lemma {:induction false} LEOf(bs: seq<Byte>, n: nat, v: nat)
    requires n <= |bs| && forall j :: 0 <= j < n ==> bs[j] == ByteOf(v, j)
    ensures LE(bs, n) == v % Two(8 * n)
    decreases n
  {
    hide Two;
    if n == 0 {
      NoBits(v);
    } else {
      LEOf(bs, n - 1, v);
      BitsJoin(v, 8 * (n - 1), 8);
      TwoEight();
    }
  }

  /** What is added above a byte does not change it. */
  lemma ByteLow(a: nat, d: nat, m: nat, j: nat)
    requires j < m
    ensures ByteOf(a + Scaled(d, 8 * m), j) == ByteOf(a, j)
  {
    hide Two;
    TwoAdd(8 * j, 8 * (m - j));
    TwoAdd(8, 8 * (m - j - 1));
    TwoEight();
    LowAlgebra(a, d, Two(8 * j), 256, Two(8 * (m - j - 1)));
  }

  lemma LowAlgebra(a: nat, d: nat, s: nat, b: nat, r: nat)
    requires s > 0 && b > 0
    ensures (a + d * (s * (b * r))) / s % b == a / s % b
  {
    var q, e := a / s, a % s;
    var t := d * (b * r);
    assert d * (s * (b * r)) == t * s;
    Distrib(q, t, s);
    DivNat(a, s);
    DivUnique(a + t * s, s, q + t, e);
    var u := d * r;
    assert t == u * b;
    var q1, e1 := q / b, q % b;
    Distrib(q1, u, b);
    DivUnique(q + u * b, b, q1 + u, e1);
  }

  /** The bytes of the number that bytes stand for are those bytes. */
  lemma {:induction false} LEBytes(bs: seq<Byte>, n: nat, j: nat)
    requires j < n <= |bs|
    ensures ByteOf(LE(bs, n), j) == bs[j]
    decreases n
  {
    hide Two;
    if j < n - 1 {
      LEBytes(bs, n - 1, j);
      ByteLow(LE(bs, n - 1), bs[n - 1], n - 1, j);
    } else {
      LEBound(bs, j);
      DivUnique(LE(bs, n), Two(8 * j), bs[j], LE(bs, j));
      DivUnique(bs[j], 256, 0, bs[j]);
    }
  }

  /** Numbers below 2^8j have no byte j. */
  lemma ByteBeyond(v: nat, j: nat)
    requires v < Two(8 * j)
    ensures ByteOf(v, j) == 0
  {
    hide Two;
    DivUnique(v, Two(8 * j), 0, v);
  }

  /** Byte m + j of v is byte j of v without its m low bytes. */
  lemma ByteHigh(v: nat, m: nat, j: nat)
    ensures ByteOf(High(v, 8 * m), j) == ByteOf(v, m + j)
  {
    hide Two;
    BitsJoin(v, 8 * m, 8 * j);
  }

  /** SIZEOF_BDIGIT: the digits have size bytes. */
  predicate DigitSize(size: nat) {
    BITS == 8 * size
  }

  /** The bytes of a number are those of its digits. */
  lemma {:induction false} ByteOfDigit(c: seq<Digit>, p: nat, n: nat, size: nat, q: nat, r: nat)
    requires DigitSize(size) && p + n <= |c| && q < n && r < size
    ensures ByteOf(W(c, p, n), Times(size, q) + r) == ByteOf(c[p + q], r)
    decreases n
  {
    hide Two, W, Times, ByteOf;
    var m := n - 1;
    WNext(c, p, m);
    DigitPower(size, m);
    ShIs(c[p + m], m);
    if q < m {
      ByteOfDigit(c, p, m, size, q, r);
      InDigit(size, q, r, m);
      ByteLow(W(c, p, m), c[p + m], Times(size, m), Times(size, q) + r);
    } else {
      ByteHigh(W(c, p, n), Times(size, m), r);
      TopPart(W(c, p, m), c[p + m], P(m));
    }
  }

  lemma DigitPower(size: nat, m: nat)
    requires DigitSize(size)
    ensures P(m) == Two(8 * Times(size, m)) && P(m) >= 1
  {
    hide Two, P;
    PIsTwo(m);
    EightTimes(size, m);
  }

  lemma EightTimes(size: nat, m: nat)
    ensures 8 * size * m == 8 * Times(size, m)
  {
  }

  lemma InDigit(size: nat, q: nat, r: nat, m: nat)
    requires q < m && r < size
    ensures Times(size, q) + r < Times(size, m)
  {
    MulLe(q + 1, m, size);
    Distrib(q, 1, size);
    Commute(q, size);
    Commute(m, size);
  }

  lemma TopPart(low: nat, d: nat, p: nat)
    requires low < p
    ensures (low + d * p) / p == d
  {
    DivUnique(low + d * p, p, d, low);
  }

  /** A word without nails whose bytes are those of r */
  lemma {:induction false} WordOf(f: Format, w: Word, i: nat, r: nat)
    requires Valid(f) && f.nails == 0 && i <= f.wordsize == |w|
    requires forall t :: 0 <= t < i ==> ByteAt(f, w, t) == ByteOf(r, t)
    ensures Packed(f, w, i, r)
    decreases i
  {
    hide Two;
    TwoEight();
    if i == 0 {
      NonePacked(f, w, r);
    } else {
      WordOf(f, w, i - 1, r);
      BitsJoin(r, 8 * (i - 1), 8);
    }
  }

  /** Words without nails whose bytes are those of v */
  lemma {:induction false} WordsOf(f: Format, ws: Words, k: nat, v: nat)
    requires Valid(f) && f.nails == 0 && Fits(f, ws) && k <= f.numwords
    requires forall g, t :: 0 <= g < k && 0 <= t < f.wordsize ==>
                              ByteAt(f, ws[WordPlace(f, g)], t) == ByteOf(v, Times(f.wordsize, g) + t)
    ensures PackedWords(f, ws, k, v)
    decreases k
  {
    hide Two, Offset, ByteOf, Packed, PackedWords, Times;
    if k == 0 {
      NoWords(f, ws, v);
    } else {
      WordsOf(f, ws, k - 1, v);
      var w := ws[WordPlace(f, k - 1)];
      OffsetIs(f, k - 1);
      forall t | 0 <= t < f.wordsize
        ensures ByteAt(f, w, t) == ByteOf(High(v, Offset(f, k - 1)), t)
      {
        ByteHigh(v, Times(f.wordsize, k - 1), t);
      }
      WordOf(f, w, f.wordsize, High(v, Offset(f, k - 1)));
      PackWordStep(f, ws, k - 1, v, w);
      assert ws[WordPlace(f, k - 1) := w] == ws;
    }
  }

  lemma OffsetIs(f: Format, k: nat)
    requires Valid(f) && f.nails == 0
    ensures Offset(f, k) == 8 * Times(f.wordsize, k)
  {
    assert 8 * f.wordsize * k == 8 * (f.wordsize * k);
  }

  /** The bytes of u as the host stores them, least or most significant byte first */
  function NativeStore(u: nat, n: nat, bigEndian: bool): Word {
    seq(n, i requires 0 <= i < n => ByteOf(u, if bigEndian then n - 1 - i else i))
  }

  /** swap16 and so on */
  function SwapBytes(u: nat, n: nat): nat {
    LE(NativeStore(u, n, true), n)
  }

  lemma SwapByte(u: nat, n: nat, j: nat)
    requires j < n
    ensures ByteOf(SwapBytes(u, n), j) == ByteOf(u, n - 1 - j)
  {
    hide ByteOf;
    LEBytes(NativeStore(u, n, true), n, j);
  }

  lemma IndexParts(size: nat, n: nat, j: nat)
    requires size > 0 && j < Times(size, n)
    ensures 0 <= j / size < n && 0 <= j % size < size && j == Times(size, j / size) + j % size
  {
    var q := j / size;
    DivNat(j, size);
    Commute(size, q);
    Commute(size, n);
    if q >= n { MulLe(n, q, size); }
  }
}
