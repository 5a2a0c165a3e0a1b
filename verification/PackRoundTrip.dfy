/** Packing and unpacking undo each other on the documented ranges; the number of digits that
    unpacking needs. */
module PackRoundTrip {
  import opened Arith
  import opened BDigits
  import opened Bits
  import opened PackFormat
  import opened Pack
  import opened Unpack
  import opened PackBytes
  import opened PackFast
  import opened UnpackFast

  lemma SmallMod(v: int, t: nat)
    requires t > 0
    ensures 0 <= v < t ==> v % t == v
    ensures 0 - t <= v < 0 ==> v % t == v + t
  {
    if 0 <= v < t { DivUnique(v, t, 0, v); }
    if 0 - t <= v < 0 { DivUnique(v, t, -1, v + t); }
  }

  /** The flags and ranges of the documentation: absolute values with the sign as a flag, two's
      complement with the sign in the top bit, and two's complement of numbers known to be negative */
  predicate InRange(v: int, n: nat, twocomp: bool, negative: bool) {
    if !twocomp then 0 - Two(n) < v < Two(n) && (v == 0 || negative == (v < 0))
    else if negative then 0 - Two(n) <= v < 0
    else if n == 0 then v == 0
    else 0 - Two(n - 1) <= v < Two(n - 1)
  }

  /** Unpacking gives back exactly the numbers in range. */
  lemma RoundTrip(v: int, n: nat, twocomp: bool, negative: bool)
    ensures UnpackedValue(PackedValue(v, n, twocomp), n, twocomp, negative) == v <==> InRange(v, n, twocomp, negative)
  {
    TwoOne();
    if n > 0 { TwoDouble(n - 1); }
    hide Two;
    if twocomp { SmallMod(v, Two(n)); } else { SmallMod(if v < 0 then 0 - v else v, Two(n)); }
  }

  /** Packing a number in one way and unpacking the words in any other gives the number, whatever the
      format. */
  method PackAndUnpack(mem: Memory, sign: int, ds: nat, num: nat, f: Format, twocomp: bool, negative: bool, ws0: Words,
                       size: nat, bigEndian: bool, genericPack: bool, genericUnpack: bool)
    returns (z: nat, zn: nat, sign': int)
    requires Valid(f) && Fits(f, ws0) && ds + num <= |mem.cells| && DigitSize(size)
    requires -1 <= sign <= 1 && (sign == 0 ==> W(mem.cells, ds, num) == 0)
    requires InRange(sign * W(mem.cells, ds, num), TotalBits(f), twocomp, negative)
    modifies mem
    ensures z + zn <= |mem.cells|
    ensures SignedValue(sign', W(mem.cells, z, zn), TotalBits(f)) == sign * old(W(mem.cells, ds, num))
  {
    hide Two, W, Val, Clean, Seen, Offset, PackedValue, UnpackedValue, SignedValue, InRange, PackCode;
    ghost var v := sign * W(mem.cells, ds, num);
    var ws, code := PackAnyWay(mem.cells, sign, ds, num, f, twocomp, ws0, size, bigEndian, genericPack);
    var nlp;
    zn, nlp := NumBdigitsGeneric(f);
    z := mem.Alloc(zn);
    sign' := UnpackAnyWay(mem, z, zn, f, ws, twocomp, negative, nlp, size, bigEndian, genericUnpack);
    CleanSeen(f, ws, f.numwords);
    RoundTrip(v, TotalBits(f), twocomp, negative);
  }

  /** integer_unpack_num_bdigits_small */
  method NumBdigitsSmall(f: Format) returns (nd: nat, nlp: nat)
    requires Valid(f)
    ensures BITS * nd == TotalBits(f) + nlp && nlp < BITS
  {
    BitsPerDigit();
    var numBits := TotalBits(f);
    CeilDiv(numBits, BITS);
    nd := (numBits + BITS - 1) / BITS;
    nlp := nd * BITS - numBits;
    Commute(nd, BITS);
  }

  lemma CeilDiv(a: nat, b: nat)
    requires b > 0
    ensures (a + b - 1) / b >= 0 && 0 <= (a + b - 1) / b * b - a < b
  {
    DivNat(a + b - 1, b);
  }

  /** integer_unpack_num_bdigits_generic: the same numbers without the product of all sizes */
  method NumBdigitsGeneric(f: Format) returns (nd: nat, nlp: nat)
    requires Valid(f)
    ensures BITS * nd == TotalBits(f) + nlp && nlp < BITS
  {
    hide Two;
    BitsPerDigit();
    var q1, r1 := f.numwords / 8, f.numwords % 8;
    var q2, r2 := f.nails / 8, f.nails % 8;
    BytesLeft(f.wordsize, f.nails, f.numwords, q1, r1, q2, r2);
    var bytes1 := f.wordsize * f.numwords;
    var bytes2 := bytes1 - f.nails * q1;
    var bytes3: nat := bytes2 - q2 * r1;
    DivNat(bytes3, BITS);
    var q3: nat, r3 := bytes3 / BITS, bytes3 % BITS;
    var digits1 := 8 * q3;
    Product(r1, r2);
    assert 8 * bytes3 == BITS * digits1 + 8 * r3 by { Commute(q3, BITS); Eightfold(BITS, q3); }
    assert TotalBits(f) == 8 * bytes3 - r1 * r2;
    if 8 * r3 >= r1 * r2 {
      var tmp: nat := 8 * BITS - (8 * r3 - r1 * r2);
      nd, nlp := Finish(digits1 + 8, tmp, TotalBits(f), BITS * digits1 + 8 * BITS);
    } else {
      var tmp: nat := r1 * r2 - 8 * r3;
      nd, nlp := Finish(digits1, tmp, TotalBits(f), BITS * digits1);
    }
  }

  lemma Eightfold(b: int, q: int)
    ensures 8 * (b * q) == b * (8 * q)
  {
  }

  lemma Product(a: nat, b: nat)
    ensures a * b >= 0
  {
  }

  /** q4, r4 and the last subtraction */
  method Finish(digits: nat, tmp: nat, ghost n: nat, ghost bits: nat) returns (nd: nat, nlp: nat)
    requires BITS * digits == bits && bits - tmp == n && BITS > 0
    ensures BITS * nd == n + nlp && nlp < BITS
  {
    DivNat(tmp, BITS);
    var q4: nat, r4 := tmp / BITS, tmp % BITS;
    FinishAlgebra(digits, q4, r4, BITS, n);
    nd, nlp := digits - q4, r4;
  }

  lemma FinishAlgebra(d: nat, q: nat, r: nat, b: nat, n: nat)
    requires b > 0 && b * d - (q * b + r) == n && r < b
    ensures d - q >= 0 && b * (d - q) == n + r
  {
    Commute(b, d);
    Commute(b, d - q);
    Distrib(d, q, b);
    if q > d { MulLe(d + 1, q, b); Distrib(d, 1, b); }
  }

  lemma BytesLeft(ws: nat, nails: nat, nw: nat, q1: nat, r1: nat, q2: nat, r2: nat)
    requires nw == 8 * q1 + r1 && nails == 8 * q2 + r2 && q2 < ws && r1 < 8 && r2 < 8
    ensures ws * nw - nails * q1 - q2 * r1 >= 0
    ensures (8 * ws - nails) * nw == 8 * (ws * nw - nails * q1 - q2 * r1) - r1 * r2
  {
    BytesAlgebra(ws, nails, q1, r1, q2, r2);
    assert ws * nw == ws * (8 * q1 + r1);
    MulLe(nails, 8 * ws, q1);
    MulLe(q2, ws, r1);
  }

  lemma BytesAlgebra(ws: int, nails: int, q1: int, r1: int, q2: int, r2: int)
    requires nails == 8 * q2 + r2
    ensures ws * (8 * q1 + r1) == 8 * ws * q1 + ws * r1
    ensures (8 * ws - nails) * (8 * q1 + r1) == 8 * (ws * (8 * q1 + r1) - nails * q1 - q2 * r1) - r1 * r2
  {
    assert ws * (8 * q1 + r1) == ws * (8 * q1) + ws * r1;
    Distrib(8 * ws, nails, 8 * q1 + r1);
    assert nails * (8 * q1 + r1) == nails * (8 * q1) + nails * r1;
    assert nails * r1 == 8 * q2 * r1 + r2 * r1 by { Distrib(8 * q2, r2, r1); }
  }

  /** Both ways of counting give the same numbers: there is only one answer. */
  lemma NumBdigitsAgree(n: nat, nd: nat, nlp: nat, nd': nat, nlp': nat)
    requires BITS * nd == n + nlp && nlp < BITS && BITS * nd' == n + nlp' && nlp' < BITS
    ensures nd == nd' && nlp == nlp'
  {
    BitsPerDigit();
    Commute(BITS, nd);
    Commute(BITS, nd');
    TopUnique(nlp', nd, nlp, nd', BITS);
  }
}
