/** iseq_set_sequence: from a list of instructions, labels and stack adjustments to words. */
module Layout {
  import opened Options

  datatype Operand = Offset(l: nat) | Word(v: int)

  /** An instruction with its operands and its effect on the stack height, a label, a stack
      adjustment down to the height at a label or to 0, or an element that is ignored.  Line -1
      marks an adjustment that only affects the bookkeeping. */
  datatype Item =
    | Insn(id: nat, line: int, operands: seq<Operand>, effect: int)
    | Label(l: nat)
    | Adjust(base: Option<nat>, line: int)
    | Ignored

  const ADJUSTSTACK: nat
  const NOP: nat

  /** The instruction table: how many operands each instruction has */
  type Table = nat -> nat

  /** insn_len: the operation code and the operands */
  function Length(t: Table, id: nat): nat {
    1 + t(id)
  }

  function Size(t: Table, e: Item): nat {
    match e
    case Insn(id, _, _, _) => Length(t, id)
    case Adjust(_, line) => if line == -1 then 0 else 2
    case Label(_) => 0
    case Ignored => 0
  }

  /** The address of element k */
  function At(t: Table, es: seq<Item>, k: nat): nat
    requires k <= |es|
  {
    if k == 0 then 0 else At(t, es, k - 1) + Size(t, es[k - 1])
  }

  lemma {:induction false} AtMonotone(t: Table, es: seq<Item>, j: nat, k: nat)
    requires j <= k <= |es|
    ensures At(t, es, j) <= At(t, es, k)
    decreases k
  {
    if j < k { AtMonotone(t, es, j, k - 1); }
  }

  predicate LabelsOnce(es: seq<Item>) {
    forall i, j {:trigger es[i], es[j]} :: 0 <= i < j < |es| && es[i].Label? ==> es[j] != es[i]
  }

  /** The positions are those of the labels among the first n elements. */
  ghost predicate Placed(t: Table, es: seq<Item>, n: nat, position: map<nat, nat>)
    requires n <= |es|
  {
    && (forall k {:trigger es[k]} :: 0 <= k < n && es[k].Label? ==>
                                       es[k].l in position && position[es[k].l] == At(t, es, k))
    && (forall l {:trigger l in position} :: l in position ==> exists k :: 0 <= k < n && es[k] == Label(l))
  }

  lemma PlacedStep(t: Table, es: seq<Item>, i: nat, position: map<nat, nat>)
    requires i < |es| && LabelsOnce(es) && Placed(t, es, i, position)
    ensures Placed(t, es, i + 1, if es[i].Label? then position[es[i].l := At(t, es, i)] else position)
  {
    hide At;
    var m := if es[i].Label? then position[es[i].l := At(t, es, i)] else position;
    forall k | 0 <= k < i + 1 && es[k].Label?
      ensures es[k].l in m && m[es[k].l] == At(t, es, k)
    {
      if k < i && es[i].Label? { assert es[i] != es[k]; }
    }
    forall l | l in m
      ensures exists k :: 0 <= k < i + 1 && es[k] == Label(l)
    {
      if es[i] == Label(l) {
        assert 0 <= i < i + 1 && es[i] == Label(l);
      } else {
        assert l in position;
        var k :| 0 <= k < i && es[k] == Label(l);
        assert 0 <= k < i + 1 && es[k] == Label(l);
      }
    }
  }

  /** The first pass */
  method SetLabelPositions(t: Table, es: seq<Item>) returns (pos: nat, position: map<nat, nat>, k: nat)
    requires LabelsOnce(es)
    ensures pos == At(t, es, |es|) && Placed(t, es, |es|, position) && k == Lines(es, |es|)
  {
    hide Placed, LabelsOnce;
    pos, position, k := 0, map[], 0;
    PlacedNone(t, es);
    for i := 0 to |es|
      invariant pos == At(t, es, i) && Placed(t, es, i, position) && k == Lines(es, i)
    {
      PlacedStep(t, es, i, position);
      match es[i]
      case Insn(id, _, _, _) =>
        pos := pos + Length(t, id);
        k := k + 1;
      case Label(l) =>
        position := position[l := pos];
      case Ignored =>
      case Adjust(_, line) =>
        if line != -1 {
          pos := pos + 2;
          k := k + 1;
        }
    }
  }

  lemma PlacedNone(t: Table, es: seq<Item>)
    ensures Placed(t, es, 0, map[])
  {
  }

  /** How many line entries the first pass makes room for */
  function Lines(es: seq<Item>, n: nat): nat
    requires n <= |es|
  {
    if n == 0 then 0 else Lines(es, n - 1) + (if Sized(es[n - 1]) then 1 else 0)
  }

  /** Element e is written. */
  predicate Sized(e: Item) {
    e.Insn? || (e.Adjust? && e.line != -1)
  }

  lemma {:induction false} LinesMonotone(es: seq<Item>, j: nat, k: nat)
    requires j <= k <= |es|
    ensures Lines(es, j) <= Lines(es, k)
    decreases k
  {
    if j < k { LinesMonotone(es, j, k - 1); }
  }

  datatype Line = Line(position: nat, line: int)

  /** The line of the last of the first n elements that are written, or 0 */
  function LastLine(es: seq<Item>, n: nat): int
    requires n <= |es|
  {
    if n == 0 then 0 else if Sized(es[n - 1]) then es[n - 1].line else LastLine(es, n - 1)
  }

  /** The line entries of the first n elements: one for each that has another line than the one before */
  function LineTable(t: Table, es: seq<Item>, n: nat): seq<Line>
    requires n <= |es|
  {
    if n == 0 then [] else LineTable(t, es, n - 1) + LineEntry(t, es, n - 1)
  }

  function LineEntry(t: Table, es: seq<Item>, k: nat): seq<Line>
    requires k < |es|
  {
    if Sized(es[k]) && LastLine(es, k) != es[k].line then [Line(At(t, es, k), es[k].line)] else []
  }

  lemma {:induction false} LineTableFits(t: Table, es: seq<Item>, n: nat)
    requires n <= |es|
    ensures |LineTable(t, es, n)| <= Lines(es, n)
  {
    if n > 0 { LineTableFits(t, es, n - 1); }
  }

  /** The stack height reached, and the heights known at labels */
  datatype Heights = Heights(sp: int, known: map<nat, int>, max: int)

  function Larger(a: int, b: int): int {
    if a > b then a else b
  }

  /** The height of a label is -1 until it is known, and counts as unknown when it is set to that. */
  predicate Unset(known: map<nat, int>, l: nat) {
    l !in known || known[l] == -1
  }

  /** Labels that operands refer to and whose height is not known get height sp. */
  function Noted(known: map<nat, int>, operands: seq<Operand>, sp: int): map<nat, int> {
    if operands == [] then known
    else
      var m := Noted(known, operands[..|operands| - 1], sp);
      var o := operands[|operands| - 1];
      if o.Offset? && Unset(m, o.l) then m[o.l := sp] else m
  }

  function HeightOf(h: Heights, base: Option<nat>): int {
    if base.None? then 0 else if base.value in h.known then h.known[base.value] else -1
  }

  function Next(h: Heights, e: Item): Heights {
    match e
    case Insn(_, _, ops, effect) =>
      Heights(h.sp + effect, Noted(h.known, ops, h.sp + effect), Larger(h.max, h.sp + effect))
    case Label(l) => if Unset(h.known, l) then h.(known := h.known[l := h.sp]) else h.(sp := h.known[l])
    case Adjust(base, _) => h.(sp := HeightOf(h, base))
    case Ignored => h
  }

  function HeightAt(es: seq<Item>, k: nat): Heights
    requires k <= |es|
  {
    if k == 0 then Heights(0, map[], 0) else Next(HeightAt(es, k - 1), es[k - 1])
  }

  /** Element k raises no error in the second pass. */
  predicate Acceptable(t: Table, es: seq<Item>, position: map<nat, nat>, k: nat)
    requires k < |es|
  {
    match es[k]
    case Insn(id, _, ops, _) => |ops| == Length(t, id) - 1 && Known(ops, position)
    case Adjust(_, line) => line == -1 || HeightAt(es, k).sp - HeightAt(es, k + 1).sp >= 0
    case Label(_) => true
    case Ignored => true
  }

  function OperandWord(o: Operand, position: map<nat, nat>, after: nat): int {
    if o.Word? then o.v else if o.l in position then position[o.l] - after else 0
  }

  /** The words of element k */
  function Words(t: Table, es: seq<Item>, position: map<nat, nat>, k: nat): seq<int>
    requires k < |es|
  {
    match es[k]
    case Insn(id, _, ops, _) =>
      [id] + OperandWords(ops, position, At(t, es, k) + Length(t, id))
    case Adjust(_, line) =>
      var d := HeightAt(es, k).sp - HeightAt(es, k + 1).sp;
      if line == -1 then [] else if d == 0 then [NOP, NOP] else [ADJUSTSTACK, d]
    case Label(_) => []
    case Ignored => []
  }

  datatype Outcome = Ok | UnknownLabel | OperandSizeMiss | AdjustBug

  /** The operand words of an instruction, which ends before address after */
  function OperandWords(ops: seq<Operand>, position: map<nat, nat>, after: nat): seq<int> {
    seq(|ops|, j requires 0 <= j < |ops| => OperandWord(ops[j], position, after))
  }

  predicate Known(ops: seq<Operand>, position: map<nat, nat>) {
    forall j :: 0 <= j < |ops| && ops[j].Offset? ==> ops[j].l in position
  }

  /** The loop over the operands */
  method PutOperands(ops: seq<Operand>, position: map<nat, nat>, gen: array<int>, pos: nat, after: nat)
    returns (ok: bool)
    requires pos + |ops| <= gen.Length
    modifies gen
    ensures gen[..pos] == old(gen[..pos])
    ensures ok <==> Known(ops, position)
    ensures ok ==> gen[pos..pos + |ops|] == OperandWords(ops, position, after)
  {
    for j := 0 to |ops|
      invariant gen[..pos] == old(gen[..pos])
      invariant forall i :: 0 <= i < j && ops[i].Offset? ==> ops[i].l in position
      invariant forall i :: pos <= i < pos + j ==> gen[i] == OperandWord(ops[i - pos], position, after)
    {
      match ops[j]
      case Offset(l) =>
        if l !in position { return false; }
        gen[pos + j] := position[l] - after;
      case Word(v) =>
        gen[pos + j] := v;
    }
    ok := true;
  }

  /** The second pass on one instruction: operation code and operands at pos and behind it */
  method PutInsn(t: Table, es: seq<Item>, position: map<nat, nat>, k: nat, gen: array<int>, pos: nat)
    returns (o: Outcome)
    requires k < |es| && es[k].Insn? && pos == At(t, es, k) && pos + Length(t, es[k].id) <= gen.Length
    modifies gen
    ensures gen[..pos] == old(gen[..pos])
    ensures o.Ok? <==> Acceptable(t, es, position, k)
    ensures o.Ok? ==> gen[pos..pos + Length(t, es[k].id)] == Words(t, es, position, k)
  {
    InsnIs(t, es, position, k);
    hide At, HeightAt, Known, OperandWord, OperandWords, Acceptable, Words;
    var e := es[k];
    var len := Length(t, e.id);
    gen[pos] := e.id;
    if |e.operands| != len - 1 { return OperandSizeMiss; }
    ghost var g := gen[..];
    var ok := PutOperands(e.operands, position, gen, pos + 1, pos + len);
    InsnWords(g, gen[..], pos, |e.operands|);
    o := if ok then Ok else UnknownLabel;
  }

  lemma InsnIs(t: Table, es: seq<Item>, position: map<nat, nat>, k: nat)
    requires k < |es| && es[k].Insn?
    ensures var id, ops := es[k].id, es[k].operands;
            && (Acceptable(t, es, position, k) <==> |ops| == Length(t, id) - 1 && Known(ops, position))
            && Words(t, es, position, k) == [id] + OperandWords(ops, position, At(t, es, k) + Length(t, id))
  {
  }

  /** What is written from a place on leaves what is before it. */
  lemma InsnWords(g: seq<int>, g': seq<int>, pos: nat, n: nat)
    requires |g'| == |g| && pos + 1 + n <= |g| && g'[..pos + 1] == g[..pos + 1]
    ensures g'[..pos] == g[..pos] && g'[pos..pos + 1 + n] == [g[pos]] + g'[pos + 1..pos + 1 + n]
  {
    assert g'[..pos] == g'[..pos + 1][..pos] == g[..pos + 1][..pos] == g[..pos];
    assert g'[pos] == g'[..pos + 1][pos] == g[..pos + 1][pos];
  }

  /** The words of the first n elements */
  function Encoded(t: Table, es: seq<Item>, position: map<nat, nat>, n: nat): seq<int>
    requires n <= |es|
  {
    if n == 0 then [] else Encoded(t, es, position, n - 1) + Words(t, es, position, n - 1)
  }

  ghost predicate AllAcceptable(t: Table, es: seq<Item>, position: map<nat, nat>, n: nat)
    requires n <= |es|
  {
    forall k: nat {:trigger Acceptable(t, es, position, k)} :: k < n ==> Acceptable(t, es, position, k)
  }

  lemma WordsSize(t: Table, es: seq<Item>, position: map<nat, nat>, k: nat)
    requires k < |es| && Acceptable(t, es, position, k)
    ensures |Words(t, es, position, k)| == Size(t, es[k])
  {
  }

  /** The words of accepted elements take exactly the room of the first pass. */
  lemma {:induction false} EncodedSize(t: Table, es: seq<Item>, position: map<nat, nat>, n: nat)
    requires n <= |es| && AllAcceptable(t, es, position, n)
    ensures |Encoded(t, es, position, n)| == At(t, es, n)
  {
    hide Words, Acceptable, Size;
    if n > 0 {
      EncodedSize(t, es, position, n - 1);
      assert Acceptable(t, es, position, n - 1);
      WordsSize(t, es, position, n - 1);
    }
  }

  /** The words of element k stand at its address. */
  lemma {:induction false} EncodedAt(t: Table, es: seq<Item>, position: map<nat, nat>, k: nat, n: nat)
    requires k < n <= |es| && AllAcceptable(t, es, position, n)
    ensures At(t, es, k + 1) <= At(t, es, n) == |Encoded(t, es, position, n)|
    ensures Encoded(t, es, position, n)[At(t, es, k)..At(t, es, k + 1)] == Words(t, es, position, k)
    decreases n
  {
    hide At, Encoded, Words, Acceptable;
    EncodedSize(t, es, position, n);
    EncodedSize(t, es, position, n - 1);
    AtMonotone(t, es, k + 1, n);
    var w, e := Encoded(t, es, position, n), Encoded(t, es, position, n - 1);
    EncodedSplit(t, es, position, n);
    if k + 1 < n {
      EncodedAt(t, es, position, k, n - 1);
      AtMonotone(t, es, k + 1, n - 1);
      AtMonotone(t, es, k, k + 1);
      SliceOfPrefix(w, e, At(t, es, k), At(t, es, k + 1));
    } else {
      SliceOfSuffix(e, Words(t, es, position, k));
    }
  }

  lemma SliceOfSuffix(e: seq<int>, words: seq<int>)
    ensures (e + words)[|e|..|e + words|] == words
  {
  }

  lemma EncodedSplit(t: Table, es: seq<Item>, position: map<nat, nat>, n: nat)
    requires 0 < n <= |es|
    ensures Encoded(t, es, position, n) == Encoded(t, es, position, n - 1) + Words(t, es, position, n - 1)
  {
  }

  lemma SliceOfPrefix(w: seq<int>, e: seq<int>, a: nat, b: nat)
    requires e <= w && a <= b <= |e|
    ensures w[a..b] == e[a..b]
  {
  }

  /** The law of layout: an encoded offset, added to the address behind its instruction, is the
      address of the element its label stands before, so an instruction boundary. */
  lemma OffsetsLand(t: Table, es: seq<Item>, position: map<nat, nat>, k: nat, j: nat)
    requires LabelsOnce(es) && Placed(t, es, |es|, position) && AllAcceptable(t, es, position, |es|)
    requires k < |es| && es[k].Insn? && j < |es[k].operands| && es[k].operands[j].Offset?
    ensures var code, after := Encoded(t, es, position, |es|), At(t, es, k + 1);
            var at := At(t, es, k) + 1 + j;
            && at < after <= |code| == At(t, es, |es|)
            && exists x :: 0 <= x < |es| && es[x] == Label(es[k].operands[j].l) && after + code[at] == At(t, es, x)
  {
    hide Encoded, Words;
    var l := es[k].operands[j].l;
    EncodedAt(t, es, position, k, |es|);
    assert Acceptable(t, es, position, k);
    var x :| 0 <= x < |es| && es[x] == Label(l);
    OffsetWord(t, es, position, k, j);
    var code := Encoded(t, es, position, |es|);
    assert code[At(t, es, k)..At(t, es, k + 1)][1 + j] == code[At(t, es, k) + 1 + j];
  }

  lemma OffsetWord(t: Table, es: seq<Item>, position: map<nat, nat>, k: nat, j: nat)
    requires k < |es| && es[k].Insn? && Acceptable(t, es, position, k)
    requires j < |es[k].operands| && es[k].operands[j].Offset?
    ensures es[k].operands[j].l in position && |Words(t, es, position, k)| == Length(t, es[k].id)
    ensures Words(t, es, position, k)[1 + j] == position[es[k].operands[j].l] - At(t, es, k + 1)
  {
    hide At, HeightAt, Words, Acceptable;
    AtNext(t, es, k);
    InsnIs(t, es, position, k);
    var id, ops := es[k].id, es[k].operands;
    var words := OperandWords(ops, position, At(t, es, k + 1));
    assert ([id] + words)[1 + j] == words[j];
  }

  /** The second pass on one element */
  method PutElem(t: Table, es: seq<Item>, position: map<nat, nat>, k: nat, gen: array<int>, pos: nat, h: Heights)
    returns (o: Outcome)
    requires k < |es| && pos == At(t, es, k) && pos + Size(t, es[k]) <= gen.Length && h == HeightAt(es, k)
    modifies gen
    ensures gen[..pos] == old(gen[..pos])
    ensures o.Ok? <==> Acceptable(t, es, position, k)
    ensures o.Ok? ==> gen[pos..pos + Size(t, es[k])] == Words(t, es, position, k)
  {
    o := Ok;
    if es[k].Insn? {
      hide At, HeightAt, Acceptable, Words;
      o := PutInsn(t, es, position, k, gen, pos);
    } else {
      OtherIs(t, es, position, k);
      hide At, HeightAt, Acceptable, Words, Next;
      if es[k].Adjust? && es[k].line != -1 {
        var h' := Next(h, es[k]);
        if h.sp - h'.sp < 0 { return AdjustBug; }
        gen[pos] := if h.sp == h'.sp then NOP else ADJUSTSTACK;
        gen[pos + 1] := if h.sp == h'.sp then NOP else h.sp - h'.sp;
        assert gen[pos..pos + 2] == [gen[pos], gen[pos + 1]];
      }
    }
  }

  lemma OtherIs(t: Table, es: seq<Item>, position: map<nat, nat>, k: nat)
    requires k < |es| && !es[k].Insn?
    ensures var d := HeightAt(es, k).sp - Next(HeightAt(es, k), es[k]).sp;
            if es[k].Adjust? && es[k].line != -1
            then
              && (Acceptable(t, es, position, k) <==> d >= 0)
              && Words(t, es, position, k) == if d == 0 then [NOP, NOP] else [ADJUSTSTACK, d]
            else Acceptable(t, es, position, k) && Words(t, es, position, k) == []
  {
    AtNext(t, es, k);
  }

  /** The second pass, with room for as many line entries as the first counted */
  method MakeSequence(t: Table, es: seq<Item>, position: map<nat, nat>, total: nat, room: nat)
    returns (o: Outcome, gen: array<int>, stackMax: int, lines: seq<Line>)
    requires total == At(t, es, |es|) && room == Lines(es, |es|)
    ensures fresh(gen) && gen.Length == total
    ensures o.Ok? <==> AllAcceptable(t, es, position, |es|)
    ensures o.Ok? ==> gen[..] == Encoded(t, es, position, |es|) && stackMax == HeightAt(es, |es|).max
    ensures o.Ok? ==> lines == LineTable(t, es, |es|)
  {
    hide Acceptable, Words, Size, Encoded, At, HeightAt, Lines, LastLine, LineTable, Sized;
    gen := new int[total](_ => 0);
    var table := new Line[room](_ => Line(0, 0));
    var pos, h, lastLine, k := 0, Heights(0, map[], 0), 0, 0;
    stackMax, o, lines := 0, Ok, [];
    var n := 0;
    NoneEncoded(t, es, position);
    while n < |es|
      invariant 0 <= n <= |es| && pos == At(t, es, n) && pos <= total && fresh(gen) && gen.Length == total
      invariant AllAcceptable(t, es, position, n) && gen[..pos] == Encoded(t, es, position, n)
      invariant h == HeightAt(es, n) && o.Ok? && fresh(table) && table.Length == room
      invariant 0 <= k <= room && table[..k] == LineTable(t, es, n) && lastLine == LastLine(es, n)
    {
      AtNext(t, es, n);
      AtMonotone(t, es, n + 1, |es|);
      o := PutElem(t, es, position, n, gen, pos, h);
      if !o.Ok? { return; }
      lastLine, k := PutLine(t, es, n, table, k, pos, lastLine);
      Grown(gen[..], t, es, position, n);
      pos, h, n := pos + Size(t, es[n]), Next(h, es[n]), n + 1;
    }
    assert gen[..pos] == gen[..];
    stackMax := h.max;
    lines := table[..k];
  }

  lemma AtNext(t: Table, es: seq<Item>, n: nat)
    requires n < |es|
    ensures At(t, es, n + 1) == At(t, es, n) + Size(t, es[n])
    ensures HeightAt(es, n + 1) == Next(HeightAt(es, n), es[n])
  {
  }

  /** The line entry of one element */
  method PutLine(t: Table, es: seq<Item>, n: nat, table: array<Line>, k: nat, pos: nat, last: int)
    returns (last': int, k': nat)
    requires n < |es| && pos == At(t, es, n) && table.Length == Lines(es, |es|) && last == LastLine(es, n)
    requires k <= table.Length && table[..k] == LineTable(t, es, n)
    modifies table
    ensures k' <= table.Length && table[..k'] == LineTable(t, es, n + 1) && last' == LastLine(es, n + 1)
  {
    hide At;
    LineTableFits(t, es, n + 1);
    LinesMonotone(es, n + 1, |es|);
    last', k' := last, k;
    if Sized(es[n]) && last != es[n].line {
      assert LineTable(t, es, n + 1) == LineTable(t, es, n) + [Line(pos, es[n].line)];
      table[k] := Line(pos, es[n].line);
      last', k' := es[n].line, k + 1;
    }
  }

  lemma NoneEncoded(t: Table, es: seq<Item>, position: map<nat, nat>)
    ensures Encoded(t, es, position, 0) == [] && At(t, es, 0) == 0 && HeightAt(es, 0) == Heights(0, map[], 0)
    ensures LineTable(t, es, 0) == [] && LastLine(es, 0) == 0
  {
  }

  lemma Grown(gen: seq<int>, t: Table, es: seq<Item>, position: map<nat, nat>, n: nat)
    requires n < |es| && At(t, es, n + 1) <= |gen|
    requires gen[..At(t, es, n)] == Encoded(t, es, position, n)
    requires gen[At(t, es, n)..At(t, es, n + 1)] == Words(t, es, position, n)
    ensures gen[..At(t, es, n + 1)] == Encoded(t, es, position, n + 1)
  {
    EncodedSplit(t, es, position, n + 1);
    AtNext(t, es, n);
    hide At, Size, Encoded, Words;
    PrefixSplit(gen, At(t, es, n), At(t, es, n + 1));
  }

  lemma PrefixSplit(gen: seq<int>, a: nat, b: nat)
    requires a <= b <= |gen|
    ensures gen[..b] == gen[..a] + gen[a..b]
  {
  }

  /** iseq_set_sequence */
  method SetSequence(t: Table, es: seq<Item>)
    returns (o: Outcome, gen: array<int>, stackMax: int, lines: seq<Line>, ghost position: map<nat, nat>)
    requires LabelsOnce(es)
    ensures Placed(t, es, |es|, position) && gen.Length == At(t, es, |es|)
    ensures o.Ok? <==> AllAcceptable(t, es, position, |es|)
    ensures o.Ok? ==> gen[..] == Encoded(t, es, position, |es|) && stackMax == HeightAt(es, |es|).max
    ensures o.Ok? ==> lines == LineTable(t, es, |es|)
  {
    var total, labels, room := SetLabelPositions(t, es);
    o, gen, stackMax, lines := MakeSequence(t, es, labels, total, room);
    position := labels;
  }
}
