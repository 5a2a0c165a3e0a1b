/** Digits rearranged for the word and byte orders of a format: bytes swapped within digits, digits
    within words, and all digits. */
module DigitOrder {
  import opened Arith
  import opened BDigits
  import opened Bits
  import opened PackFormat
  import opened PackBytes

  /** swap_bdigit */
  function SwapDigit(d: Digit, size: nat): Digit
    requires DigitSize(size)
  {
    BitsPerDigit();
    LEBound(NativeStore(d, size, true), size);
    SwapBytes(d, size)
  }

  /** The place of digit r of word g, with m digits in a word */
  function Slot(m: nat, g: nat, r: nat): nat {
    Times(m, g) + r
  }

  lemma SlotBelow(m: nat, g: nat, r: nat, n: nat)
    requires r < m && g < n
    ensures Slot(m, g, r) < Times(m, n)
  {
    InDigit(m, g, r, n);
  }

  /** Words that come earlier stand before. */
  lemma SlotBefore(m: nat, g: nat, r: nat, h: nat)
    requires r < m && g < h
    ensures Slot(m, g, r) < Slot(m, h, 0)
  {
    InDigit(m, g, r, h);
  }

  /** Seen from the other end */
  lemma SlotMirror(m: nat, g: nat, r: nat, n: nat)
    requires r < m && g < n
    ensures Times(m, n) - 1 - Slot(m, g, r) == Slot(m, n - 1 - g, m - 1 - r)
  {
    assert m * (n - 1 - g) == m * n - m - m * g;
  }

  /** The n digits at p stand in the opposite order; the others are as before. */
  ghost predicate Turned(c: seq<Digit>, c': seq<Digit>, p: nat, n: nat) {
    && |c'| == |c| && p + n <= |c|
    && (forall k :: 0 <= k < |c| && !(p <= k < p + n) ==> c'[k] == c[k])
    && (forall k :: p <= k < p + n ==> c'[k] == c[2 * p + n - 1 - k])
  }

  /** bary_swap */
  method BarySwap(mem: Memory, p: nat, n: nat)
    requires p + n <= |mem.cells|
    modifies mem
    ensures Turned(old(mem.cells), mem.cells, p, n)
  {
    ghost var c0 := mem.cells;
    var i, j: int := p, p + n - 1;
    while i < j
      invariant p <= i && i + j == 2 * p + n - 1 && i <= j + 2 && |mem.cells| == |c0|
      invariant forall k :: 0 <= k < |c0| && !(p <= k < p + n) ==> mem.cells[k] == c0[k]
      invariant forall k :: i <= k <= j ==> mem.cells[k] == c0[k]
      invariant forall k :: p <= k < i ==> mem.cells[k] == c0[2 * p + n - 1 - k]
      invariant forall k :: j < k < p + n ==> mem.cells[k] == c0[2 * p + n - 1 - k]
      decreases j - i
    {
      var tmp := mem.cells[i];
      mem.cells := mem.cells[i := mem.cells[j]];
      mem.cells := mem.cells[j := tmp];
      i, j := i + 1, j - 1;
    }
  }

  /** The loop that swaps the bytes of every digit */
  method SwapEach(mem: Memory, p: nat, n: nat, size: nat)
    requires DigitSize(size) && p + n <= |mem.cells|
    modifies mem
    ensures |mem.cells| == |old(mem.cells)|
    ensures forall k :: 0 <= k < |mem.cells| ==>
              mem.cells[k] == if p <= k < p + n then SwapDigit(old(mem.cells)[k], size) else old(mem.cells)[k]
  {
    hide SwapDigit;
    ghost var c0 := mem.cells;
    var i := p;
    while i < p + n
      invariant p <= i <= p + n && |mem.cells| == |c0|
      invariant forall k :: 0 <= k < |c0| ==> mem.cells[k] == if p <= k < i then SwapDigit(c0[k], size) else c0[k]
    {
      mem.cells := mem.cells[i := SwapDigit(mem.cells[i], size)];
      i := i + 1;
    }
  }

  /** In the first h of n words of m digits the digits stand in the opposite order; nothing else has
      changed. */
  ghost predicate Mirrored(c: seq<Digit>, c': seq<Digit>, p: nat, m: nat, h: nat, n: nat) {
    && h <= n && |c'| == |c| && p + Times(m, n) <= |c|
    && (forall g, r :: 0 <= g < n && 0 <= r < m ==> Slot(m, g, r) < Times(m, n))
    && (forall g, r :: 0 <= g < n && 0 <= r < m ==>
          c'[p + Slot(m, g, r)] == if g < h then c[p + Slot(m, g, m - 1 - r)] else c[p + Slot(m, g, r)])
    && (forall k :: 0 <= k < |c| && !(p <= k < p + Times(m, n)) ==> c'[k] == c[k])
  }

  lemma MirroredStep(c: seq<Digit>, c1: seq<Digit>, c2: seq<Digit>, p: nat, m: nat, h: nat, n: nat)
    requires Mirrored(c, c1, p, m, h, n) && h < n && Turned(c1, c2, p + Slot(m, h, 0), m)
    ensures Mirrored(c, c2, p, m, h + 1, n)
  {
    hide Times, Slot;
    GroupIn(m, h, n);
    forall g, r | 0 <= g < n && 0 <= r < m
      ensures c2[p + Slot(m, g, r)] == if g < h + 1 then c[p + Slot(m, g, m - 1 - r)] else c[p + Slot(m, g, r)]
    {
      SlotFrom(m, g, r);
      SlotFrom(m, h, m - 1 - r);
      if g < h {
        SlotBefore(m, g, r, h);
      } else if g > h {
        SlotBefore(m, h, m - 1, g);
        SlotFrom(m, h, m - 1);
      }
    }
  }

  lemma SlotFrom(m: nat, g: nat, r: nat)
    ensures Slot(m, g, r) == Slot(m, g, 0) + r
  {
  }

  lemma AllSlots(m: nat, n: nat)
    ensures forall g, r :: 0 <= g < n && 0 <= r < m ==> Slot(m, g, r) < Times(m, n)
  {
    hide Slot;
    forall g, r | 0 <= g < n && 0 <= r < m
      ensures Slot(m, g, r) < Times(m, n)
    {
      SlotBelow(m, g, r, n);
    }
  }

  /** The loop that turns the digits of every word around */
  method SwapGroups(mem: Memory, p: nat, m: nat, n: nat)
    requires p + Times(m, n) <= |mem.cells|
    modifies mem
    ensures Mirrored(old(mem.cells), mem.cells, p, m, n, n)
  {
    hide Times, Mirrored, Slot, Turned;
    ghost var c0 := mem.cells;
    var i, q := 0, p;
    NoneMirrored(c0, p, m, n);
    while i < n
      invariant 0 <= i <= n && q == p + Slot(m, i, 0) && |mem.cells| == |c0| && Mirrored(c0, mem.cells, p, m, i, n)
    {
      GroupIn(m, i, n);
      ghost var c1 := mem.cells;
      BarySwap(mem, q, m);
      SameSize(c1, mem.cells, q, m);
      MirroredStep(c0, c1, mem.cells, p, m, i, n);
      i, q := i + 1, q + m;
    }
  }

  lemma SameSize(c: seq<Digit>, c': seq<Digit>, p: nat, n: nat)
    requires Turned(c, c', p, n)
    ensures |c'| == |c|
  {
  }

  lemma NoneMirrored(c: seq<Digit>, p: nat, m: nat, n: nat)
    requires p + Times(m, n) <= |c|
    ensures Mirrored(c, c, p, m, 0, n) && Slot(m, 0, 0) == 0
  {
    hide Times, Slot;
    AllSlots(m, n);
    SlotZero(m);
  }

  lemma SlotZero(m: nat)
    ensures Slot(m, 0, 0) == 0
  {
  }

  lemma GroupIn(m: nat, g: nat, n: nat)
    requires g < n
    ensures Slot(m, g, 0) + m == Slot(m, g + 1, 0) <= Times(m, n)
  {
    TimesNext(m, g);
    MulLe(g + 1, n, m);
    Commute(m, n);
    Commute(m, g + 1);
  }

  /** Where a digit of a word comes from */
  function Inner(f: Format, m: nat, r: nat): nat
    requires r < m
  {
    if f.msByteFirst then m - 1 - r else r
  }

  function Swapped(swap: bool, d: Digit, size: nat): Digit
    requires DigitSize(size)
  {
    if swap then SwapDigit(d, size) else d
  }

  /** The digits have changed places, and their bytes if asked for, as the format wants it. */
  ghost predicate Rearranged(c: seq<Digit>, c': seq<Digit>, p: nat, f: Format, m: nat, size: nat, swap: bool)
    requires DigitSize(size)
  {
    && |c'| == |c| && p + Times(m, f.numwords) <= |c|
    && (forall g, r :: 0 <= g < f.numwords && 0 <= r < m ==> Slot(m, g, r) < Times(m, f.numwords))
    && (forall g, r :: 0 <= g < f.numwords && 0 <= r < m ==>
          c'[p + Slot(m, g, r)] == Swapped(swap, c[p + Slot(m, WordPlace(f, g), Inner(f, m, r))], size))
  }

  /** The digits of every word turned around, if needed, and then all digits, if needed */
  lemma Reordered(c: seq<Digit>, c1: seq<Digit>, c2: seq<Digit>, p: nat, f: Format, m: nat)
    requires p + Times(m, f.numwords) <= |c|
    requires if f.msWordFirst != f.msByteFirst then Mirrored(c, c1, p, m, f.numwords, f.numwords) else c1 == c
    requires if f.msWordFirst then Turned(c1, c2, p, Times(m, f.numwords)) else c2 == c1
    ensures |c2| == |c| && forall g, r :: 0 <= g < f.numwords && 0 <= r < m ==> Slot(m, g, r) < Times(m, f.numwords)
    ensures forall g, r :: 0 <= g < f.numwords && 0 <= r < m ==>
                             c2[p + Slot(m, g, r)] == c[p + Slot(m, WordPlace(f, g), Inner(f, m, r))]
  {
    hide Times, Slot;
    AllSlots(m, f.numwords);
    forall g, r | 0 <= g < f.numwords && 0 <= r < m
      ensures c2[p + Slot(m, g, r)] == c[p + Slot(m, WordPlace(f, g), Inner(f, m, r))]
    {
      SlotMirror(m, g, r, f.numwords);
    }
  }

  /** All digits turned around, if needed, and then the digits of every word, if needed */
  lemma ReorderedBack(c: seq<Digit>, c1: seq<Digit>, c2: seq<Digit>, p: nat, f: Format, m: nat)
    requires p + Times(m, f.numwords) <= |c|
    requires if f.msWordFirst then Turned(c, c1, p, Times(m, f.numwords)) else c1 == c
    requires if f.msWordFirst != f.msByteFirst then Mirrored(c1, c2, p, m, f.numwords, f.numwords) else c2 == c1
    ensures |c2| == |c| && forall g, r :: 0 <= g < f.numwords && 0 <= r < m ==> Slot(m, g, r) < Times(m, f.numwords)
    ensures forall g, r :: 0 <= g < f.numwords && 0 <= r < m ==>
                             c2[p + Slot(m, g, r)] == c[p + Slot(m, WordPlace(f, g), Inner(f, m, r))]
  {
    hide Times, Slot;
    AllSlots(m, f.numwords);
    forall g, r | 0 <= g < f.numwords && 0 <= r < m
      ensures c2[p + Slot(m, g, r)] == c[p + Slot(m, WordPlace(f, g), Inner(f, m, r))]
    {
      SlotMirror(m, g, r, f.numwords);
      SlotMirror(m, g, m - 1 - r, f.numwords);
    }
  }

  /** The order of bary_pack: bytes, then the digits of the words, then all digits */
  method Rearrange(mem: Memory, p: nat, f: Format, m: nat, size: nat, swap: bool)
    requires DigitSize(size) && p + Times(m, f.numwords) <= |mem.cells|
    modifies mem
    ensures Rearranged(old(mem.cells), mem.cells, p, f, m, size, swap)
  {
    hide Times, Slot, SwapDigit, Mirrored, Turned, Rearranged;
    ghost var c0 := mem.cells;
    if swap { SwapEach(mem, p, Times(m, f.numwords), size); }
    ghost var c1 := mem.cells;
    assert forall k :: p <= k < p + Times(m, f.numwords) ==> c1[k] == Swapped(swap, c0[k], size);
    if f.msWordFirst != f.msByteFirst { SwapGroups(mem, p, m, f.numwords); }
    ghost var c2 := mem.cells;
    SizeIs(c1, c2, p, m, f.numwords);
    if f.msWordFirst { BarySwap(mem, p, Times(m, f.numwords)); }
    Reordered(c1, c2, mem.cells, p, f, m);
    SwappedFirst(c0, c1, mem.cells, p, f, m, size, swap);
  }

  lemma SwappedFirst(c0: seq<Digit>, c1: seq<Digit>, c2: seq<Digit>, p: nat, f: Format, m: nat, size: nat, swap: bool)
    requires DigitSize(size) && p + Times(m, f.numwords) <= |c0| && |c2| == |c1| == |c0|
    requires forall k :: p <= k < p + Times(m, f.numwords) ==> c1[k] == Swapped(swap, c0[k], size)
    requires forall g, r :: 0 <= g < f.numwords && 0 <= r < m ==> Slot(m, g, r) < Times(m, f.numwords)
    requires forall g, r :: 0 <= g < f.numwords && 0 <= r < m ==>
                              c2[p + Slot(m, g, r)] == c1[p + Slot(m, WordPlace(f, g), Inner(f, m, r))]
    ensures Rearranged(c0, c2, p, f, m, size, swap)
  {
    hide Times, Slot, Swapped;
  }

  /** The order of bary_unpack_internal: all digits, then the digits of the words, then bytes */
  method RearrangeBack(mem: Memory, p: nat, f: Format, m: nat, size: nat, swap: bool)
    requires DigitSize(size) && p + Times(m, f.numwords) <= |mem.cells|
    modifies mem
    ensures Rearranged(old(mem.cells), mem.cells, p, f, m, size, swap)
    ensures forall k :: 0 <= k < |mem.cells| && !(p <= k < p + Times(m, f.numwords)) ==>
                          mem.cells[k] == old(mem.cells)[k]
  {
    hide Times, Slot, SwapDigit, Mirrored, Turned;
    ghost var c0 := mem.cells;
    if f.msWordFirst { BarySwap(mem, p, Times(m, f.numwords)); }
    ghost var c1 := mem.cells;
    TurnedSize(c0, c1, p, Times(m, f.numwords));
    if f.msWordFirst != f.msByteFirst { SwapGroups(mem, p, m, f.numwords); }
    ghost var c2 := mem.cells;
    SizeIs(c1, c2, p, m, f.numwords);
    ReorderedBack(c0, c1, c2, p, f, m);
    if swap { SwapEach(mem, p, Times(m, f.numwords), size); }
  }

  lemma SizeIs(c: seq<Digit>, c': seq<Digit>, p: nat, m: nat, n: nat)
    requires c' == c || Mirrored(c, c', p, m, n, n)
    ensures |c'| == |c| && forall k :: 0 <= k < |c| && !(p <= k < p + Times(m, n)) ==> c'[k] == c[k]
  {
  }

  lemma TurnedSize(c: seq<Digit>, c': seq<Digit>, p: nat, n: nat)
    requires c' == c || Turned(c, c', p, n)
    ensures |c'| == |c| && forall k :: 0 <= k < |c| && !(p <= k < p + n) ==> c'[k] == c[k]
  {
  }

  /** A byte of a digit as the host stores it */
  function NativeByte(d: Digit, i: nat, size: nat, bigEndian: bool): Byte
    requires i < size
  {
    ByteOf(d, if bigEndian then size - 1 - i else i)
  }

  /** Digits seen as words: word g is made of m digits. */
  function ViewWord(c: seq<Digit>, p: nat, f: Format, m: nat, size: nat, bigEndian: bool, g: nat): (w: Word)
    requires size > 0 && f.wordsize == Times(size, m) && g < f.numwords && p + Times(m, f.numwords) <= |c|
    ensures |w| == f.wordsize
  {
    seq(f.wordsize, t requires 0 <= t < f.wordsize =>
      IndexParts(size, m, t);
      SlotBelow(m, g, t / size, f.numwords);
      NativeByte(c[p + Slot(m, g, t / size)], t % size, size, bigEndian))
  }

  function ViewWords(c: seq<Digit>, p: nat, f: Format, m: nat, size: nat, bigEndian: bool): (ws: Words)
    requires size > 0 && f.wordsize == Times(size, m) && p + Times(m, f.numwords) <= |c|
    ensures Fits(f, ws)
  {
    seq(f.numwords, g requires 0 <= g < f.numwords => ViewWord(c, p, f, m, size, bigEndian, g))
  }

  /** Byte t of a word is byte t % size of its digit t / size, from either end. */
  lemma MirrorParts(size: nat, m: nat, t: nat)
    requires size > 0 && t < Times(size, m)
    ensures var u := Times(size, m) - 1 - t;
            t / size < m && 0 <= u < Times(size, m) && u / size == m - 1 - t / size && u % size == size - 1 - t % size
  {
    IndexParts(size, m, t);
    var q, b := t / size, t % size;
    var u := Times(size, m) - 1 - t;
    SlotMirror(size, q, b, m);
    Commute(size, m - 1 - q);
    DivUnique(u, size, m - 1 - q, size - 1 - b);
  }

  lemma SwapsByte(d: Digit, size: nat, swap: bool, i: nat)
    requires DigitSize(size) && i < size
    ensures ByteOf(Swapped(swap, d, size), i) == ByteOf(d, if swap then size - 1 - i else i)
  {
    hide ByteOf;
    SwapByte(d, size, i);
  }

  lemma RearrangedAt(c: seq<Digit>, c': seq<Digit>, p: nat, f: Format, m: nat, size: nat, swap: bool, g: nat, r: nat)
    requires DigitSize(size) && Rearranged(c, c', p, f, m, size, swap) && g < f.numwords && r < m
    ensures Slot(m, g, Inner(f, m, r)) < Times(m, f.numwords) && Slot(m, WordPlace(f, g), r) < Times(m, f.numwords)
    ensures c'[p + Slot(m, WordPlace(f, g), r)] == Swapped(swap, c[p + Slot(m, g, Inner(f, m, r))], size)
  {
    hide Times, Slot, SwapDigit, Swapped;
    var h := WordPlace(f, g);
    assert WordPlace(f, h) == g;
    SlotBelow(m, h, r, f.numwords);
    SlotBelow(m, g, Inner(f, m, r), f.numwords);
  }

  /** Rearranged digits, seen as words, have the bytes of the number in the places of the format. */
  lemma ViewByte(c: seq<Digit>, c': seq<Digit>, p: nat, f: Format, m: nat, size: nat, bigEndian: bool, g: nat, t: nat)
    requires DigitSize(size) && f.wordsize == Times(size, m) && size > 0
    requires Rearranged(c, c', p, f, m, size, f.msByteFirst != bigEndian) && g < f.numwords && t < f.wordsize
    ensures ByteAt(f, ViewWords(c', p, f, m, size, bigEndian)[WordPlace(f, g)], t)
         == ByteOf(W(c, p, Times(m, f.numwords)), Times(f.wordsize, g) + t)
  {
    hide ByteOf, Times, Slot, W, SwapDigit, Swapped;
    var h, u := WordPlace(f, g), Place(f, t);
    MirrorParts(size, m, t);
    IndexParts(size, m, t);
    IndexParts(size, m, u);
    var r, i := u / size, u % size;
    var q, b := t / size, t % size;
    RearrangedAt(c, c', p, f, m, size, f.msByteFirst != bigEndian, g, r);
    var d := c[p + Slot(m, g, q)];
    SwapsByte(d, size, f.msByteFirst != bigEndian, if bigEndian then size - 1 - i else i);
    ByteOfDigit(c, p, Times(m, f.numwords), size, Slot(m, g, q), b);
    SlotBytes(size, m, g, q);
  }

  lemma SlotBytes(size: nat, m: nat, g: nat, q: nat)
    ensures Times(size, Slot(m, g, q)) == Times(Times(size, m), g) + Times(size, q)
  {
    assert size * (m * g + q) == size * m * g + size * q;
  }

  /** Numbers of n bytes with the same bytes are the same. */
  lemma SameByBytes(u: nat, v: nat, n: nat)
    requires u < Two(8 * n) && v < Two(8 * n) && forall j :: 0 <= j < n ==> ByteOf(u, j) == ByteOf(v, j)
    ensures u == v
  {
    hide Two, ByteOf;
    var bs := NativeStore(u, n, false);
    LEOf(bs, n, u);
    LEOf(bs, n, v);
    DivUnique(u, Two(8 * n), 0, u);
    DivUnique(v, Two(8 * n), 0, v);
  }

  lemma SwapTwice(d: Digit, size: nat)
    requires DigitSize(size)
    ensures SwapDigit(SwapDigit(d, size), size) == d
  {
    hide ByteOf, Two, SwapBytes;
    BitsPerDigit();
    var e := SwapDigit(d, size);
    forall j | 0 <= j < size
      ensures ByteOf(SwapDigit(e, size), j) == ByteOf(d, j)
    {
      SwapByte(e, size, j);
      SwapByte(d, size, size - 1 - j);
    }
    SameByBytes(SwapDigit(e, size), d, size);
  }

  /** Rearranging goes both ways. */
  lemma RearrangedBack(c: seq<Digit>, c': seq<Digit>, p: nat, f: Format, m: nat, size: nat, swap: bool)
    requires DigitSize(size) && Rearranged(c, c', p, f, m, size, swap)
    ensures Rearranged(c', c, p, f, m, size, swap)
  {
    hide Times, Slot, SwapDigit;
    forall g, r | 0 <= g < f.numwords && 0 <= r < m
      ensures Slot(m, WordPlace(f, g), Inner(f, m, r)) < Times(m, f.numwords)
      ensures c[p + Slot(m, g, r)] == Swapped(swap, c'[p + Slot(m, WordPlace(f, g), Inner(f, m, r))], size)
    {
      SlotBelow(m, g, r, f.numwords);
      SlotBelow(m, WordPlace(f, g), Inner(f, m, r), f.numwords);
      RearrangedAt(c, c', p, f, m, size, swap, g, Inner(f, m, r));
      assert Inner(f, m, Inner(f, m, r)) == r;
      SwapTwice(c[p + Slot(m, g, r)], size);
    }
  }
}
