/** The code of an if statement after the peephole pass. */
module IfPass {
  import opened Options
  import opened JumpCode
  import opened Peephole
  import opened JumpLoop
  import opened PeepholePass
  import opened PassLaws
  import opened ForwardPass
  import BranchCode

  /** How many jumps a run from p comes over at first: none, one, or two and more */
  function Depth(c: Code, p: nat): nat
    requires p <= |c|
  {
    var d := NextInsn(c, p);
    if !IsJump(c, d) then 0 else if !IsJump(c, Dest(c, d)) then 1 else 2
  }

  function OneDeeper(d: nat): nat {
    if d == 0 then 1 else 2
  }

  lemma DepthOfJump(c: Code, p: nat)
    requires IsJump(c, p)
    ensures Depth(c, p) == OneDeeper(Depth(c, Pos(c, c[p].insn.l)))
  {
    hide Pos;
    assert NextInsn(c, p) == p;
  }

  lemma DepthPastLabel(c: Code, p: nat)
    requires p < |c| && c[p].Label?
    ensures Depth(c, p) == Depth(c, p + 1)
  {
    hide Pos;
    assert NextInsn(c, p) == NextInsn(c, p + 1);
  }

  lemma DepthOfOther(c: Code, p: nat)
    requires p < |c| && !c[p].Label? && !IsJump(c, p)
    ensures Depth(c, p) == 0
  {
    assert NextInsn(c, p) == p;
  }

  lemma ShortIs(c: Code, j: nat)
    requires IsBranch(c, j)
    ensures Short(c, j) <==> Depth(c, Pos(c, c[j].insn.l)) <= 1
  {
    hide Pos, NextInsn;
  }

  /** The depth where the code of a condition begins, from those of its two labels */
  function FirstDepth(cond: BranchCode.Cond, dt: nat, de: nat): nat {
    match cond
    case Leaf(_) => 0
    case Literal(b) => OneDeeper(if b then dt else de)
    case And(x, y) => FirstDepth(x, FirstDepth(y, dt, de), de)
    case Or(x, y) => FirstDepth(x, dt, FirstDepth(y, dt, de))
  }

  /** No operand that is evaluated leads, when it is false, over two jumps. */
  predicate Fit(cond: BranchCode.Cond, dt: nat, de: nat) {
    match cond
    case Leaf(_) => de <= 1
    case Literal(_) => true
    case And(x, y) => Fit(x, FirstDepth(y, dt, de), de) && Fit(y, dt, de)
    case Or(x, y) => Fit(x, dt, FirstDepth(y, dt, de)) && Fit(y, dt, de)
  }

  /** Elements from a to b lead forward, and the branches among them over at most one jump. */
  predicate RangeOk(c: Code, a: nat, b: nat) {
    forall j :: a <= j < b && j < |c| ==> ElemOk(c, j)
  }

  predicate ElemOk(c: Code, j: nat)
    requires j < |c|
  {
    && (Target(c[j]).Some? ==> Pos(c, Target(c[j]).value) > j)
    && (IsBranch(c, j) ==> Short(c, j))
  }

  lemma RangeJoin(c: Code, a: nat, b: nat, e: nat)
    requires b < |c| && c[b].Label? && RangeOk(c, a, b) && RangeOk(c, b + 1, e)
    ensures RangeOk(c, a, e)
  {
    hide Pos, Short;
    assert ElemOk(c, b);
    hide ElemOk;
  }

  /** The code stands in the list from p on. */
  predicate Holds(c: Code, p: nat, code: Code) {
    p + |code| <= |c| && c[p..p + |code|] == code
  }

  lemma HoldsAt(c: Code, p: nat, code: Code, k: nat)
    requires Holds(c, p, code) && k < |code|
    ensures c[p + k] == code[k]
  {
    assert c[p..p + |code|][k] == c[p + k];
  }

  /** Two operands with a label between them */
  lemma HoldsPair(c: Code, p: nat, cx: Code, l: nat, cy: Code)
    requires LabelsOnce(c) && Holds(c, p, cx + [Label(l)] + cy)
    ensures Holds(c, p, cx) && Holds(c, p + |cx| + 1, cy)
    ensures c[p + |cx|] == Label(l) && Pos(c, l) == p + |cx|
  {
    var code, n := cx + [Label(l)] + cy, |cx|;
    assert code[..n] == cx && code[n] == Label(l) && code[n + 1..] == cy;
    HoldsAt(c, p, code, n);
    HoldsPart(c, p, code, 0, n);
    HoldsPart(c, p, code, n + 1, |code|);
    LabelStands(c, p + n);
  }

  lemma HoldsPart(c: Code, p: nat, code: Code, a: nat, b: nat)
    requires Holds(c, p, code) && a <= b <= |code|
    ensures Holds(c, p + a, code[a..b])
  {
    var part := c[p + a..p + b];
    forall k | 0 <= k < b - a
      ensures part[k] == code[a..b][k]
    {
      HoldsAt(c, p, code, a + k);
    }
  }

  /** The code of a condition */
  lemma {:induction false} EmitOk(c: Code, p: nat, cond: BranchCode.Cond, t: nat, e: nat, next: nat)
    requires LabelsOnce(c) && Holds(c, p, BranchCode.Emit(cond, t, e, next).0)
    requires var end := p + |BranchCode.Emit(cond, t, e, next).0|; Pos(c, t) >= end && Pos(c, e) >= end
    ensures CondOk(c, p, |BranchCode.Emit(cond, t, e, next).0|, cond, t, e)
    decreases cond, 1
  {
    match cond
    case Literal(b) =>
      HoldsAt(c, p, BranchCode.Emit(cond, t, e, next).0, 0);
      LiteralOk(c, p, if b then t else e);
    case Leaf(x) =>
      HoldsLeaf(c, p, x, t, e);
      LeafOk(c, p, x, t, e);
    case And(x, y) => EmitAndOk(c, p, cond, t, e, next);
    case Or(x, y) => EmitOrOk(c, p, cond, t, e, next);
  }

  lemma HoldsLeaf(c: Code, p: nat, x: nat, t: nat, e: nat)
    requires Holds(c, p, [Op(Other(x)), Op(BranchUnless(e)), Op(Jump(t))])
    ensures p + 3 <= |c| && c[p] == Op(Other(x)) && c[p + 1] == Op(BranchUnless(e)) && c[p + 2] == Op(Jump(t))
  {
    var code := [Op(Other(x)), Op(BranchUnless(e)), Op(Jump(t))];
    HoldsAt(c, p, code, 0);
    HoldsAt(c, p, code, 1);
    HoldsAt(c, p, code, 2);
  }

  lemma EmitAnd(cond: BranchCode.Cond, t: nat, e: nat, next: nat)
    requires cond.And?
    ensures var cx, n1 := BranchCode.Emit(cond.x, next, e, next + 1).0, BranchCode.Emit(cond.x, next, e, next + 1).1;
            BranchCode.Emit(cond, t, e, next).0 == cx + [Label(next)] + BranchCode.Emit(cond.y, t, e, n1).0
  {
  }

  lemma EmitOr(cond: BranchCode.Cond, t: nat, e: nat, next: nat)
    requires cond.Or?
    ensures var cx, n1 := BranchCode.Emit(cond.x, t, next, next + 1).0, BranchCode.Emit(cond.x, t, next, next + 1).1;
            BranchCode.Emit(cond, t, e, next).0 == cx + [Label(next)] + BranchCode.Emit(cond.y, t, e, n1).0
  {
  }

  lemma {:induction false} EmitAndOk(c: Code, p: nat, cond: BranchCode.Cond, t: nat, e: nat, next: nat)
    requires cond.And?
    requires LabelsOnce(c) && Holds(c, p, BranchCode.Emit(cond, t, e, next).0)
    requires var end := p + |BranchCode.Emit(cond, t, e, next).0|; Pos(c, t) >= end && Pos(c, e) >= end
    ensures CondOk(c, p, |BranchCode.Emit(cond, t, e, next).0|, cond, t, e)
    decreases cond, 0
  {
    hide Pos, CondOk, LabelsOnce, Holds, BranchCode.Emit;
    var cx, n1 := BranchCode.Emit(cond.x, next, e, next + 1).0, BranchCode.Emit(cond.x, next, e, next + 1).1;
    var cy := BranchCode.Emit(cond.y, t, e, n1).0;
    EmitAnd(cond, t, e, next);
    HoldsPair(c, p, cx, next, cy);
    EmitOk(c, p + |cx| + 1, cond.y, t, e, n1);
    EmitOk(c, p, cond.x, next, e, next + 1);
    AndOk(c, p, |cx|, |cy|, cond.x, cond.y, t, e, next);
  }

  lemma {:induction false} EmitOrOk(c: Code, p: nat, cond: BranchCode.Cond, t: nat, e: nat, next: nat)
    requires cond.Or?
    requires LabelsOnce(c) && Holds(c, p, BranchCode.Emit(cond, t, e, next).0)
    requires var end := p + |BranchCode.Emit(cond, t, e, next).0|; Pos(c, t) >= end && Pos(c, e) >= end
    ensures CondOk(c, p, |BranchCode.Emit(cond, t, e, next).0|, cond, t, e)
    decreases cond, 0
  {
    hide Pos, CondOk, LabelsOnce, Holds, BranchCode.Emit;
    var cx, n1 := BranchCode.Emit(cond.x, t, next, next + 1).0, BranchCode.Emit(cond.x, t, next, next + 1).1;
    var cy := BranchCode.Emit(cond.y, t, e, n1).0;
    EmitOr(cond, t, e, next);
    HoldsPair(c, p, cx, next, cy);
    EmitOk(c, p + |cx| + 1, cond.y, t, e, n1);
    EmitOk(c, p, cond.x, t, next, next + 1);
    OrOk(c, p, |cx|, |cy|, cond.x, cond.y, t, e, next);
  }

  /** The n elements from p on are right for a condition with labels t and e. */
  ghost predicate CondOk(c: Code, p: nat, n: nat, cond: BranchCode.Cond, t: nat, e: nat)
    requires p <= |c|
  {
    var dt, de := Depth(c, Pos(c, t)), Depth(c, Pos(c, e));
    Depth(c, p) == FirstDepth(cond, dt, de) && (Fit(cond, dt, de) ==> RangeOk(c, p, p + n))
  }

  lemma LiteralOk(c: Code, p: nat, l: nat)
    requires p < |c| && c[p] == Op(Jump(l)) && Pos(c, l) > p
    ensures Depth(c, p) == OneDeeper(Depth(c, Pos(c, l))) && RangeOk(c, p, p + 1)
  {
    hide Pos, NextInsn;
    DepthOfJump(c, p);
  }

  lemma LeafOk(c: Code, p: nat, x: nat, t: nat, e: nat)
    requires p + 3 <= |c| && c[p] == Op(Other(x)) && c[p + 1] == Op(BranchUnless(e)) && c[p + 2] == Op(Jump(t))
    requires Pos(c, t) >= p + 3 && Pos(c, e) >= p + 3
    ensures Depth(c, p) == 0 && (Depth(c, Pos(c, e)) <= 1 ==> RangeOk(c, p, p + 3))
  {
    hide Pos, Depth, Short;
    DepthOfOther(c, p);
    ShortIs(c, p + 1);
  }

  /** Two operands with label l between them */
  lemma AndOk(c: Code, p: nat, nx: nat, ny: nat, x: BranchCode.Cond, y: BranchCode.Cond, t: nat, e: nat, l: nat)
    requires p + nx < |c| && c[p + nx] == Label(l) && Pos(c, l) == p + nx
    requires CondOk(c, p, nx, x, l, e) && CondOk(c, p + nx + 1, ny, y, t, e)
    ensures CondOk(c, p, nx + 1 + ny, BranchCode.And(x, y), t, e)
  {
    hide Pos, Depth, RangeOk;
    DepthPastLabel(c, p + nx);
    var dt, de, d := Depth(c, Pos(c, t)), Depth(c, Pos(c, e)), Depth(c, Pos(c, l));
    if Fit(x, d, de) && Fit(y, dt, de) { RangeJoin(c, p, p + nx, p + (nx + 1 + ny)); }
  }

  lemma OrOk(c: Code, p: nat, nx: nat, ny: nat, x: BranchCode.Cond, y: BranchCode.Cond, t: nat, e: nat, l: nat)
    requires p + nx < |c| && c[p + nx] == Label(l) && Pos(c, l) == p + nx
    requires CondOk(c, p, nx, x, t, l) && CondOk(c, p + nx + 1, ny, y, t, e)
    ensures CondOk(c, p, nx + 1 + ny, BranchCode.Or(x, y), t, e)
  {
    hide Pos, Depth, RangeOk;
    DepthPastLabel(c, p + nx);
    var dt, de, d := Depth(c, Pos(c, t)), Depth(c, Pos(c, e)), Depth(c, Pos(c, l));
    if Fit(x, dt, d) && Fit(y, dt, de) { RangeJoin(c, p, p + nx, p + (nx + 1 + ny)); }
  }

  // The statement

  /** The condition of an if statement stands first, and its labels behind it. */
  lemma IfStarts(c: Code, cond: BranchCode.Cond, thenSeq: Code, elseSeq: Code, next: nat, post: Code)
    requires c == BranchCode.IfCode(cond, thenSeq, elseSeq, next) + post && LabelsOnce(c)
    ensures var code := BranchCode.Emit(cond, next, next + 1, next + 3).0;
            && c == [] + code + BranchCode.IfRest(thenSeq, elseSeq, next, post) && Holds(c, 0, code)
            && Pos(c, next) >= |code| && Pos(c, next + 1) >= |code|
  {
    hide BranchCode.Emit, LabelsOnce;
    var code := BranchCode.Emit(cond, next, next + 1, next + 3).0;
    BranchCode.IfSplit([], cond, thenSeq, elseSeq, next, post);
    assert [] + BranchCode.IfCode(cond, thenSeq, elseSeq, next) == BranchCode.IfCode(cond, thenSeq, elseSeq, next);
    assert [] + code == code;
    BranchCode.IfPlaces(c, code, thenSeq, elseSeq, next, post);
  }

  /** All elements are right: then the list leads forward, and branches over at most one jump. */
  lemma AllOk(c: Code)
    requires RangeOk(c, 0, |c|)
    ensures Forward(c) && ShortFrom(c, 0)
  {
    hide Pos, Short;
    forall j | 0 <= j < |c|
      ensures Target(c[j]).Some? ==> Pos(c, Target(c[j]).value) > j
      ensures IsBranch(c, j) ==> Short(c, j)
    {
      assert ElemOk(c, j);
    }
  }

  /** The parts of an if statement and what is behind it lead forward, and branches there over at most
      one jump; the condition fits the depths where the parts begin. */
  ghost predicate Orderly(c: Code, cond: BranchCode.Cond, next: nat) {
    && RangeOk(c, |BranchCode.Emit(cond, next, next + 1, next + 3).0|, |c|)
    && Fit(cond, Depth(c, Pos(c, next)), Depth(c, Pos(c, next + 1)))
  }

  lemma OrderlyOk(c: Code, cond: BranchCode.Cond, thenSeq: Code, elseSeq: Code, next: nat, post: Code)
    requires c == BranchCode.IfCode(cond, thenSeq, elseSeq, next) + post && LabelsOnce(c) && Orderly(c, cond, next)
    ensures Forward(c) && ShortFrom(c, 0)
  {
    var code := BranchCode.Emit(cond, next, next + 1, next + 3).0;
    IfStarts(c, cond, thenSeq, elseSeq, next, post);
    EmitOk(c, 0, cond, next, next + 1, next + 3);
    hide Pos, Depth, Fit, FirstDepth, ElemOk, BranchCode.Emit;
    assert RangeOk(c, 0, |code|) && RangeOk(c, |code|, |c|);
    AllOk(c);
  }

  /** The optimised code of an if statement shows the operands that short-circuit evaluation does, in
      the same order, and then what the part that they choose shows. */
  ghost predicate Enters(c: Code, c': Code, vm: Vm, m: Mach, r: BranchCode.Outcome, part: nat) {
    forall k: nat {:trigger Trace(c, vm, part, r.m, k)} ::
      Trace(c', vm, 0, m, k + |r.events|) == r.events + Trace(c, vm, part, r.m, k)
  }

  /** As long as no operand that is evaluated leads over two jumps when it is false, the pass over an if
      statement comes to an end and leaves it an if statement. */
  lemma OptimizedIf(c: Code, cond: BranchCode.Cond, thenSeq: Code, elseSeq: Code, next: nat, post: Code,
                    entries: set<nat>, vm: Vm, m: Mach)
    requires c == BranchCode.IfCode(cond, thenSeq, elseSeq, next) + post && Good(c, entries)
    requires Orderly(c, cond, next) && EntriesClear(c, entries)
    ensures PassEnds(c, 0) && SameRuns(c, PassCode(c, 0), entries)
    ensures var r := BranchCode.Eval(vm, cond, m);
            Enters(c, PassCode(c, 0), vm, m, r, Pos(c, if r.truth then next else next + 1))
  {
    hide BranchCode.Emit, BranchCode.Eval, BranchCode.IfCode, BranchCode.IfRest, BranchCode.Leads;
    hide Good, Orderly, Forward, ShortFrom, EntriesClear, PassEnds, PassCode, PassSafe, SameRuns, Pos, Enters;
    GoodClosed(c, entries);
    OrderlyOk(c, cond, thenSeq, elseSeq, next, post);
    ForwardPassed(c, entries);
    IfStarts(c, cond, thenSeq, elseSeq, next, post);
    var rest := BranchCode.IfRest(thenSeq, elseSeq, next, post);
    BranchCode.ConditionRuns(c, [], cond, next, next + 1, next + 3, rest, vm, m);
    var r := BranchCode.Eval(vm, cond, m);
    EntersIs(c, PassCode(c, 0), entries, vm, m, r, Pos(c, if r.truth then next else next + 1));
  }

  lemma EntersIs(c: Code, c': Code, entries: set<nat>, vm: Vm, m: Mach, r: BranchCode.Outcome, part: nat)
    requires SameRuns(c, c', entries) && BranchCode.Leads(c, vm, 0, m, r.events, part, r.m)
    ensures Enters(c, c', vm, m, r, part)
  {
    hide Trace, Pos;
    forall k: nat
      ensures Trace(c', vm, 0, m, k + |r.events|) == r.events + Trace(c, vm, part, r.m, k)
    {
      assert Trace(c, vm, part, r.m, k) == Trace(c, vm, part, r.m, k);
      assert Trace(c, vm, 0, m, k + |r.events|) == Trace(c', vm, 0, m, k + |r.events|);
    }
  }
}
