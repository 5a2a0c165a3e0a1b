/** Reading bignums from digits: str2big_normal digit by digit, str2big_karatsuba by blocks. */
module Str2Big {
  import opened Arith
  import opened BDigits
  import opened Bary
  import opened RadixDigits

  /** conv_digit: the digit a character stands for, or -1 */
  function ConvDigit(c: char): int {
    if '0' <= c <= '9' then c as int - '0' as int
    else if 'a' <= c <= 'z' then c as int - 'a' as int + 10
    else if 'A' <= c <= 'Z' then c as int - 'A' as int + 10
    else -1
  }

  /** ruby_digitmap */
  function DigitChar(d: nat): char
    requires d < 36
  {
    if d < 10 then ('0' as int + d) as char else ('a' as int + d - 10) as char
  }

  /** The digits in a text; underscores and the like are passed over. */
  function Kept(cs: string): seq<nat> {
    if cs == [] then []
    else
      var c := ConvDigit(cs[|cs| - 1]);
      if c < 0 then Kept(cs[..|cs| - 1]) else Kept(cs[..|cs| - 1]) + [c]
  }

  function Text(b: Base, ds: seq<nat>): (cs: string)
    requires AreDigits(b, ds)
    ensures |cs| == |ds|
  {
    seq(|ds|, i requires 0 <= i < |ds| => DigitChar(ds[i]))
  }

  /** Writing digits as characters and reading them again gives the digits. */
  lemma {:induction false} TextKept(b: Base, ds: seq<nat>)
    requires AreDigits(b, ds)
    ensures Kept(Text(b, ds)) == ds
    decreases |ds|
  {
    if ds != [] {
      var d1 := ds[..|ds| - 1];
      TextKept(b, d1);
      assert Text(b, ds)[..|ds| - 1] == Text(b, d1);
      assert ds == d1 + [ds[|ds| - 1]];
    }
  }

  lemma {:induction false} KeptAppend(cs: string, es: string)
    ensures Kept(cs + es) == Kept(cs) + Kept(es)
    decreases |es|
  {
    if es == [] {
      assert cs + es == cs;
    } else {
      KeptAppend(cs, es[..|es| - 1]);
      assert (cs + es)[..|cs + es| - 1] == cs + es[..|es| - 1];
    }
  }

  lemma KeptSnoc(cs: string, t: nat)
    requires t < |cs|
    ensures Kept(cs[..t + 1]) == if ConvDigit(cs[t]) < 0 then Kept(cs[..t]) else Kept(cs[..t]) + [ConvDigit(cs[t])]
  {
    assert cs[..t + 1][..t] == cs[..t];
  }

  lemma KeptCons(cs: string, t: nat)
    requires t < |cs|
    ensures Kept(cs[t..])
         == if ConvDigit(cs[t]) < 0 then Kept(cs[t + 1..]) else [ConvDigit(cs[t]) as nat] + Kept(cs[t + 1..])
  {
    assert cs[t..] == [cs[t]] + cs[t + 1..];
    KeptAppend([cs[t]], cs[t + 1..]);
    assert [cs[t]][..0] == [];
    assert Kept([cs[t]]) == if ConvDigit(cs[t]) < 0 then [] else [ConvDigit(cs[t]) as nat];
  }

  // str2big_normal

  /** The digits from blen on are zero. */
  predicate Short(c: seq<Digit>, z: nat, zn: nat, blen: nat) {
    blen <= zn && z + zn <= |c| && forall i :: z + blen <= i < z + zn ==> c[i] == 0
  }

  lemma {:induction false} ShortValue(c: seq<Digit>, z: nat, zn: nat, blen: nat)
    requires Short(c, z, zn, blen)
    ensures W(c, z, blen) == W(c, z, zn)
    decreases zn - blen
  {
    hide W, Sh;
    if blen < zn {
      ShortValue(c, z, zn, blen + 1);
      WNext(c, z, blen);
      ShUnit(blen);
    }
  }

  /** One digit: it takes the low digit of the sum, and what is passed on is below the base again. */
  lemma DigitStep(c0: seq<Digit>, c: seq<Digit>, z: nat, i: nat, num: nat, b: Base, d: nat, dn: int, lo: Digit,
                  add: nat)
    requires z + i < |c| == |c0| && d == c0[z + i] && num < b && num + b * d == Up(dn) + lo
    requires W(c, z, i) + Sh(num, i) == Mul(b, W(c0, z, i)) + add
    ensures 0 <= dn < b && W(c[z + i := lo], z, i + 1) + Sh(dn, i + 1) == Mul(b, W(c0, z, i + 1)) + add
  {
    hide W, P, Sh, Up;
    SmallCarry(num, b, d, dn, lo);
    CarryStep(c, z, i, num, b * d, dn, lo, Mul(b, W(c0, z, i)) + add);
    WNext(c0, z, i);
    MulNext(b, W(c0, z, i), d, i);
    MulIs(b, d);
  }

  lemma SmallCarry(num: nat, b: Base, d: nat, dn: int, lo: Digit)
    requires num < b && d < B && num + b * d == Up(dn) + lo
    ensures 0 <= dn < b
  {
    if dn >= b { MulLe(b, dn, B); MulLe(d + 1, B, b); Distrib(d, 1, b); Commute(b, d); Commute(b, B); }
    if dn < 0 { MulLe(dn, -1, B); MulLe(0, d, b); Commute(b, d); }
  }

  /** The inner loops of str2big_normal: all digits times the base, plus one digit */
  method MulAdd(mem: Memory, z: nat, zn: nat, blen0: nat, b: Base, add: nat) returns (blen: nat)
    requires Short(mem.cells, z, zn, blen0) && add < b && Mul(b, W(mem.cells, z, zn)) + add < P(zn)
    modifies mem
    ensures |mem.cells| == |old(mem.cells)| && Keeps(old(mem.cells), mem.cells, z, zn)
    ensures Short(mem.cells, z, zn, blen) && W(mem.cells, z, zn) == Mul(b, old(W(mem.cells, z, zn))) + add
  {
    hide W, P, Sh, Up, Mul;
    ghost var c0 := mem.cells;
    NoDigitsYet(c0, z, b, add);
    var num: nat, i := add, 0;
    blen := blen0;
    while i < blen
      invariant 0 <= i <= blen && Untouched(c0, mem.cells, z, i) && num < b
      invariant W(mem.cells, z, i) + Sh(num, i) == Mul(b, W(c0, z, i)) + add
    {
      var d: nat := mem.cells[z + i];
      var dn, lo := Split(num + b * d);
      DigitStep(c0, mem.cells, z, i, num, b, d, dn, lo, add);
      mem.cells := mem.cells[z + i := lo];
      num, i := dn, i + 1;
    }
    while num != 0
      invariant i == blen <= zn && Untouched(c0, mem.cells, z, i) && num < b && Short(c0, z, zn, blen)
      invariant W(mem.cells, z, i) + Sh(num, i) == Mul(b, W(c0, z, i)) + add
      decreases zn - blen
    {
      StillRoom(c0, mem.cells, z, zn, blen, num, b, add);
      var d: nat := mem.cells[z + i];
      var dn, lo := Split(num + b * d);
      DigitStep(c0, mem.cells, z, i, num, b, d, dn, lo, add);
      mem.cells := mem.cells[z + i := lo];
      num, i, blen := dn, i + 1, blen + 1;
    }
    ShUnit(i);
    ShortValue(c0, z, zn, blen);
    ShortValue(mem.cells, z, zn, blen);
    KeepsIntro(c0, mem.cells, z, zn);
  }

  lemma NoDigitsYet(c: seq<Digit>, z: nat, b: int, add: int)
    requires z <= |c|
    ensures W(c, z, 0) + Sh(add, 0) == Mul(b, W(c, z, 0)) + add
  {
  }

  /** A carry out of the last digit would mean that the number does not fit. */
  lemma StillRoom(c0: seq<Digit>, c: seq<Digit>, z: nat, zn: nat, blen: nat, num: nat, b: Base, add: nat)
    requires Short(c0, z, zn, blen) && |c| == |c0| && num > 0 && Mul(b, W(c0, z, zn)) + add < P(zn)
    requires W(c, z, blen) + Sh(num, blen) == Mul(b, W(c0, z, blen)) + add
    ensures blen < zn
  {
    hide W, P, Mul;
    if blen == zn { MulLe(1, num, P(zn)); }
  }

  /** The digits of the text are below the base. */
  predicate Readable(b: Base, cs: string) {
    AreDigits(b, Kept(cs))
  }

  lemma ReadableSoFar(b: Base, cs: string, t: nat)
    requires Readable(b, cs) && t < |cs|
    ensures Readable(b, cs[..t + 1]) && (ConvDigit(cs[t]) >= 0 ==> ConvDigit(cs[t]) < b)
  {
    KeptAppend(cs[..t + 1], cs[t + 1..]);
    assert cs == cs[..t + 1] + cs[t + 1..];
    var ks := Kept(cs);
    assert Kept(cs[..t + 1]) == ks[..|Kept(cs[..t + 1])|];
    KeptSnoc(cs, t);
    if ConvDigit(cs[t]) >= 0 { assert Kept(cs[..t + 1])[|Kept(cs[..t])|] == ConvDigit(cs[t]); }
  }

  /** Part of a text stands for no more than the whole. */
  lemma NumberSoFar(b: Base, cs: string, t: nat)
    requires t <= |cs|
    ensures Number(b, Kept(cs[..t])) <= Number(b, Kept(cs))
  {
    hide Number, Pow;
    KeptAppend(cs[..t], cs[t..]);
    assert cs == cs[..t] + cs[t..];
    var x := Number(b, Kept(cs[..t]));
    NumberAppend(b, Kept(cs[..t]), Kept(cs[t..]));
    MulLe(1, Pow(b, |Kept(cs[t..])|), x);
    Commute(x, Pow(b, |Kept(cs[t..])|));
  }

  /** str2big_normal: the number that the digits of the text stand for, in zn digits at z */
  method Str2BigNormal(mem: Memory, z: nat, zn: nat, cs: string, b: Base)
    requires zn >= 1 && z + zn <= |mem.cells| && Readable(b, cs) && Number(b, Kept(cs)) < P(zn)
    modifies mem
    ensures |mem.cells| == |old(mem.cells)| && Keeps(old(mem.cells), mem.cells, z, zn)
    ensures W(mem.cells, z, zn) == Number(b, Kept(cs))
  {
    hide W, P, Number, Kept, Mul, ConvDigit, Readable;
    ghost var c0 := mem.cells;
    Zero(mem, z, zn);
    var blen := 1;
    NothingRead(b, cs);
    var t := 0;
    while t < |cs|
      invariant 0 <= t <= |cs| && |mem.cells| == |c0| && Keeps(c0, mem.cells, z, zn)
      invariant Short(mem.cells, z, zn, blen) && W(mem.cells, z, zn) == Number(b, Kept(cs[..t]))
    {
      var c := ConvDigit(cs[t]);
      KeptSnoc(cs, t);
      ReadableSoFar(b, cs, t);
      if c >= 0 {
        NumberSoFar(b, cs, t + 1);
        NumberSnoc(b, Kept(cs[..t]), c);
        MulIs(b, W(mem.cells, z, zn));
        ghost var c1 := mem.cells;
        blen := MulAdd(mem, z, zn, blen, b, c);
        KeepsIntro(c0, mem.cells, z, zn);
      }
      t := t + 1;
    }
    assert cs[..t] == cs;
  }

  lemma NothingRead(b: Base, cs: string)
    ensures Number(b, Kept(cs[..0])) == 0
  {
  }
}
