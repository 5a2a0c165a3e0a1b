/** Room for the number read, agreement of the two readers, and the round trip through text. */
module RadixRoundTrip {
  import opened Arith
  import opened BDigits
  import opened BitOps
  import opened RadixDigits
  import opened PowerCache
  import opened Big2Str
  import opened Str2Big
  import opened RadixBlocks

  /** Twice the number of blocks is enough digits for the number read. */
  lemma EnoughDigits(b: Base, k: nat, ds: seq<nat>, blocks: nat)
    requires k >= 1 && AreDigits(b, ds) && |ds| <= Times(k, blocks) && Pow(b, k) < B * B
    ensures Number(b, ds) < P(2 * blocks)
  {
    hide Pow, P, Times, Number;
    NumberBound(b, ds);
    PowMono(b, |ds|, Times(k, blocks));
    PowBlocks(b, k, blocks);
  }

  /** The part of rb_cstr_to_inum that reads the digits: str2big_normal or, for many digits,
      str2big_karatsuba; either reads the number, whichever is taken. */
  method ReadDigits(mem: Memory, b: Base, cs: string, numDigits: nat, table0: seq<Entry>, karatsuba: bool)
    returns (p: nat, n: nat, table: seq<Entry>)
    requires numDigits == |Kept(cs)| >= 1 && Readable(b, cs) && CacheOf(mem.cells, b, table0)
    modifies mem
    ensures Keeps(old(mem.cells), mem.cells, |old(mem.cells)|, 0) && CacheOf(mem.cells, b, table) && table0 <= table
    ensures p + n <= |mem.cells| && W(mem.cells, p, n) == Number(b, Kept(cs))
  {
    hide Pow, P, W, Number, Kept, Readable, Cached, Keeps;
    var maxpow, k := MaxPow(b);
    CeilBlocks(numDigits, k);
    var nb := 2 * ((numDigits + k - 1) / k);
    ghost var c0 := mem.cells;
    if karatsuba {
      p, n, table := Str2BigKaratsuba(mem, b, k, cs, numDigits, nb, table0);
      EveryCache(mem.cells, b, k, table);
    } else {
      table := table0;
      ReadableDigits(b, cs);
      EnoughDigits(b, k, Kept(cs), (numDigits + k - 1) / k);
      n := nb;
      p := mem.Alloc(n);
      ghost var c1 := mem.cells;
      FreshKept(c0, c1, p, n);
      Str2BigNormal(mem, p, n, cs, b);
      FreshChange(c0, c1, mem.cells, p, n);
      EveryCacheKept(c0, mem.cells, b, table);
    }
  }

  lemma ReadableDigits(b: Base, cs: string)
    requires Readable(b, cs)
    ensures AreDigits(b, Kept(cs))
  {
  }

  lemma CeilBlocks(n: nat, k: nat)
    requires k >= 1 && n >= 1
    ensures (n + k - 1) / k >= 1 && n <= Times(k, (n + k - 1) / k)
  {
    var q := (n + k - 1) / k;
    DivNat(n + k - 1, k);
    Commute(k, q);
    if q == 0 { DivUnique(n + k - 1, k, 0, n + k - 1); }
  }

  /** big2str_generic with the sign: a minus if the number is negative, and its digits */
  method WriteText(mem: Memory, x: Big, b: Base, table0: seq<Entry>) returns (text: string, table: seq<Entry>)
    requires x.p + x.n <= |mem.cells| && CacheOf(mem.cells, b, table0)
    modifies mem
    ensures Keeps(old(mem.cells), mem.cells, |old(mem.cells)|, 0) && CacheOf(mem.cells, b, table)
    ensures IsText(b, old(Value(mem.cells, x)), text)
  {
    hide W, Pow, P, Keeps, Digits, CacheOf, Text;
    ghost var xv := W(mem.cells, x.p, x.n);
    var ds, room;
    ds, room, table := Big2StrGeneric(mem, x.p, x.n, b, table0);
    DigitsNumber(b, xv);
    if ds == [0] { return "0", table; }
    text := (if x.positive then "" else "-") + Text(b, ds);
    if x.positive { assert text == Text(b, ds); }
  }

  /** What is written for v: 0 without a sign, otherwise the digits without a leading zero */
  ghost predicate IsText(b: Base, v: int, text: string) {
    if v == 0 then text == "0"
    else
      var ds := Digits(b, if v < 0 then 0 - v else v);
      AreDigits(b, ds) && text == (if v < 0 then "-" else "") + Text(b, ds)
  }

  function Unsigned(text: string): string {
    if text != [] && (text[0] == '+' || text[0] == '-') then text[1..] else text
  }

  /** The part of rb_cstr_to_inum that reads a sign and digits */
  method ReadText(mem: Memory, b: Base, text: string, table0: seq<Entry>, karatsuba: bool) returns (z: Big)
    requires Kept(Unsigned(text)) != [] && Readable(b, Unsigned(text)) && CacheOf(mem.cells, b, table0)
    modifies mem
    ensures z.p + z.n <= |mem.cells| && z.positive == !(text[0] == '-')
    ensures W(mem.cells, z.p, z.n) == Number(b, Kept(Unsigned(text)))
  {
    hide W, Pow, P, Keeps, Number, CacheOf, Kept;
    assert text != [] by { NothingKept(); }
    var cs, positive := text, true;
    if text[0] == '+' {
      cs := cs[1..];
    } else if text[0] == '-' {
      cs, positive := cs[1..], false;
    }
    var p, n, table := ReadDigits(mem, b, cs, |Kept(cs)|, table0, karatsuba);
    z := Big(positive, p, n);
  }

  lemma NothingKept()
    ensures Kept([]) == []
  {
  }

  /** The text of a number can be read, and its digits are the number. */
  lemma TextReads(b: Base, v: int, text: string)
    requires IsText(b, v, text)
    ensures Kept(Unsigned(text)) != [] && Readable(b, Unsigned(text)) && text != [] && (text[0] == '-' <==> v < 0)
    ensures Number(b, Kept(Unsigned(text))) == if v < 0 then 0 - v else v
  {
    hide Pow, Digits, Number;
    var m: nat := if v < 0 then 0 - v else v;
    DigitsNumber(b, m);
    var ds := if v == 0 then [0] else Digits(b, m);
    if v == 0 { OneDigitNumber(b, 0); }
    TextKept(b, ds);
    FirstIsDigit(b, ds);
    hide Text, Kept;
    SignStripped(Text(b, ds));
  }

  lemma SignStripped(cs: string)
    requires cs != [] && cs[0] != '-' && cs[0] != '+'
    ensures Unsigned("-" + cs) == Unsigned("" + cs) == Unsigned(cs) == cs && "" + cs == cs && ("-" + cs)[0] == '-'
  {
  }

  lemma FirstIsDigit(b: Base, ds: seq<nat>)
    requires AreDigits(b, ds) && ds != []
    ensures Text(b, ds)[0] != '-' && Text(b, ds)[0] != '+' && (ds == [0] ==> Text(b, ds) == "0")
  {
  }

  /** Writing a number and reading the text gives the number back, for every sign, every base and
      either reader. */
  method WriteAndRead(mem: Memory, x: Big, b: Base, karatsuba: bool) returns (text: string, z: Big)
    requires x.p + x.n <= |mem.cells|
    modifies mem
    ensures z.p + z.n <= |mem.cells| && Value(mem.cells, z) == old(Value(mem.cells, x))
    ensures IsText(b, old(Value(mem.cells, x)), text)
  {
    hide W, Pow, P, Keeps, Number, CacheOf, Kept, IsText, Readable;
    ghost var v := Value(mem.cells, x);
    EmptyCache(mem.cells, b);
    var table;
    text, table := WriteText(mem, x, b, []);
    TextReads(b, v, text);
    z := ReadText(mem, b, text, table, karatsuba);
  }

  lemma EmptyCache(c: seq<Digit>, b: Base)
    ensures CacheOf(c, b, [])
  {
  }
}
