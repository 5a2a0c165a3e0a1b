/** Compilation of conditions to jump code (compile_branch_condition and the if statement). */
module BranchCode {
  import opened Options
  import opened JumpCode

  /** A condition: the operators that are compiled to jumps, literals, and any other expression,
      whose code is one opaque instruction here. */
  datatype Cond = And(x: Cond, y: Cond) | Or(x: Cond, y: Cond) | Literal(truth: bool) | Leaf(e: nat)

  datatype Outcome = Outcome(truth: bool, m: Mach, events: seq<Event>)

  /** Short-circuit evaluation: the answer, the machine afterwards, and what was evaluated */
  function Eval(vm: Vm, c: Cond, m: Mach): Outcome {
    match c
    case Literal(b) => Outcome(b, m, [])
    case Leaf(e) =>
      var m1 := vm.step(e, m);
      Outcome(Test(vm, m1), Dropped(m1), [Did(Op(Other(e)), m), Tested(m1)])
    case And(x, y) =>
      var r := Eval(vm, x, m);
      if r.truth then (var r' := Eval(vm, y, r.m); r'.(events := r.events + r'.events)) else r
    case Or(x, y) =>
      var r := Eval(vm, x, m);
      if r.truth then r else (var r' := Eval(vm, y, r.m); r'.(events := r.events + r'.events))
  }

  /** Every operand leaves exactly one value on the stack. */
  ghost predicate PushOne(vm: Vm, c: Cond) {
    match c
    case Literal(_) => true
    case Leaf(e) => forall m: Mach :: |vm.step(e, m).stack| == |m.stack| + 1 && m.stack <= vm.step(e, m).stack
    case And(x, y) => PushOne(vm, x) && PushOne(vm, y)
    case Or(x, y) => PushOne(vm, x) && PushOne(vm, y)
  }

  /** A condition leaves the stack as it was. */
  lemma {:induction false} StackKept(vm: Vm, c: Cond, m: Mach)
    requires PushOne(vm, c)
    ensures Eval(vm, c, m).m.stack == m.stack
  {
    match c
    case Literal(_) =>
    case Leaf(e) => assert |vm.step(e, m).stack| == |m.stack| + 1;
    case And(x, y) =>
      StackKept(vm, x, m);
      StackKept(vm, y, Eval(vm, x, m).m);
    case Or(x, y) =>
      StackKept(vm, x, m);
      StackKept(vm, y, Eval(vm, x, m).m);
  }

  /** The code for a condition, and the next unused label */
  function Emit(c: Cond, t: nat, e: nat, next: nat): (Code, nat) {
    match c
    case Literal(b) => ([Op(Jump(if b then t else e))], next)
    case Leaf(x) => ([Op(Other(x)), Op(BranchUnless(e)), Op(Jump(t))], next)
    case And(x, y) =>
      var (cx, n1) := Emit(x, next, e, next + 1);
      var (cy, n2) := Emit(y, t, e, n1);
      (cx + [Label(next)] + cy, n2)
    case Or(x, y) =>
      var (cx, n1) := Emit(x, t, next, next + 1);
      var (cy, n2) := Emit(y, t, e, n1);
      (cx + [Label(next)] + cy, n2)
  }

  /** The run from p with m shows the events and then goes on from p' with m'. */
  ghost predicate Leads(c: Code, vm: Vm, p: nat, m: Mach, events: seq<Event>, p': nat, m': Mach) {
    forall k: nat {:trigger Trace(c, vm, p', m', k)} ::
      Trace(c, vm, p, m, k + |events|) == events + Trace(c, vm, p', m', k)
  }

  lemma LeadsOn(c: Code, vm: Vm, p: nat, m: Mach, e1: seq<Event>, p1: nat, m1: Mach, e2: seq<Event>, p2: nat, m2: Mach)
    requires Leads(c, vm, p, m, e1, p1, m1) && Leads(c, vm, p1, m1, e2, p2, m2)
    ensures Leads(c, vm, p, m, e1 + e2, p2, m2)
  {
    hide Trace;
    forall k: nat
      ensures Trace(c, vm, p, m, k + |e1 + e2|) == e1 + e2 + Trace(c, vm, p2, m2, k)
    {
      assert Trace(c, vm, p2, m2, k) == Trace(c, vm, p2, m2, k);
      assert Trace(c, vm, p1, m1, k + |e2|) == e2 + Trace(c, vm, p2, m2, k);
      assert k + |e1 + e2| == (k + |e2|) + |e1|;
      assert e1 + (e2 + Trace(c, vm, p2, m2, k)) == e1 + e2 + Trace(c, vm, p2, m2, k);
    }
  }

  lemma LeadsQuietly(c: Code, vm: Vm, p: nat, p': nat, m: Mach)
    requires Land(c, p) == Land(c, p')
    ensures Leads(c, vm, p, m, [], p', m)
  {
    forall k: nat
      ensures Trace(c, vm, p, m, k) == [] + Trace(c, vm, p', m, k)
    {
      TraceLand(c, vm, p, p', m, k);
    }
  }

  lemma LeadsDid(c: Code, vm: Vm, q: nat, m: Mach)
    requires q < |c| && Quiet(c, q) == None && !IsBranch(c, q) && c[q] != Op(Leave)
    ensures Leads(c, vm, q, m, [Did(c[q], m)], q + 1, Do(vm, c[q], m))
  {
    var m' := Do(vm, c[q], m);
    var q' := q + 1;
    forall k: nat
      ensures Trace(c, vm, q, m, k + 1) == [Did(c[q], m)] + Trace(c, vm, q', m', k)
    {
      TraceDid(c, vm, q, m, k);
    }
  }

  lemma LeadsTested(c: Code, vm: Vm, q: nat, m: Mach)
    requires IsBranch(c, q)
    ensures Leads(c, vm, q, m, [Tested(m)], BranchTo(c, q, Test(vm, m)), Dropped(m))
  {
    var q', m' := BranchTo(c, q, Test(vm, m)), Dropped(m);
    forall k: nat
      ensures Trace(c, vm, q, m, k + 1) == [Tested(m)] + Trace(c, vm, q', m', k)
    {
      TraceTested(c, vm, q, m, k);
    }
  }

  /** The central law of condition code: it evaluates the operands as short-circuit evaluation does,
      in the same order, and goes to the one label when the condition is true and to the other when
      it is false. */
  lemma {:induction false} ConditionRuns(c: Code, pre: Code, cond: Cond, t: nat, e: nat, next: nat, post: Code, vm: Vm,
                                         m: Mach)
    requires c == pre + Emit(cond, t, e, next).0 + post && LabelsOnce(c)
    ensures var r := Eval(vm, cond, m);
            Leads(c, vm, |pre|, m, r.events, Pos(c, if r.truth then t else e), r.m)
    decreases cond, 0
  {
    match cond
    case Literal(b) =>
      LandStep(c, |pre|);
      LeadsQuietly(c, vm, |pre|, Pos(c, if b then t else e), m);
    case Leaf(x) =>
      LeafRuns(c, |pre|, x, t, e, vm, m);
    case And(x, y) =>
      var (cx, n1) := Emit(x, next, e, next + 1);
      var cy := Emit(y, t, e, n1).0;
      ConditionRuns(c, pre, x, next, e, next + 1, [Label(next)] + cy + post, vm, m);
      var r := Eval(vm, x, m);
      if r.truth {
        SecondRuns(c, pre, cx, y, t, e, next, n1, post, vm, m, r);
      }
    case Or(x, y) =>
      var (cx, n1) := Emit(x, t, next, next + 1);
      var cy := Emit(y, t, e, n1).0;
      ConditionRuns(c, pre, x, t, next, next + 1, [Label(next)] + cy + post, vm, m);
      var r := Eval(vm, x, m);
      if !r.truth {
        SecondRuns(c, pre, cx, y, t, e, next, n1, post, vm, m, r);
      }
  }

  lemma LeafRuns(c: Code, p: nat, x: nat, t: nat, e: nat, vm: Vm, m: Mach)
    requires p + 3 <= |c| && c[p] == Op(Other(x)) && c[p + 1] == Op(BranchUnless(e)) && c[p + 2] == Op(Jump(t))
    ensures var r := Eval(vm, Leaf(x), m); Leads(c, vm, p, m, r.events, Pos(c, if r.truth then t else e), r.m)
  {
    hide Trace, Land;
    var r, m1 := Eval(vm, Leaf(x), m), vm.step(x, m);
    var q := BranchTo(c, p + 1, r.truth);
    LeadsDid(c, vm, p, m);
    LeadsTested(c, vm, p + 1, m1);
    LeadsOn(c, vm, p, m, [Did(c[p], m)], p + 1, m1, [Tested(m1)], q, r.m);
    assert [Did(c[p], m)] + [Tested(m1)] == r.events;
    if r.truth {
      LandStep(c, p + 2);
      LeadsQuietly(c, vm, p + 2, Pos(c, t), r.m);
      LeadsOn(c, vm, p, m, r.events, q, r.m, [], Pos(c, t), r.m);
      assert r.events + [] == r.events;
    }
  }

  /** The second operand of && or ||, entered at its label */
  lemma {:induction false} SecondRuns(c: Code, pre: Code, cx: Code, y: Cond, t: nat, e: nat, l: nat, n1: nat,
                                      post: Code, vm: Vm, m: Mach, r: Outcome)
    requires c == pre + (cx + [Label(l)] + Emit(y, t, e, n1).0) + post && LabelsOnce(c)
    requires Leads(c, vm, |pre|, m, r.events, Pos(c, l), r.m)
    ensures var r' := Eval(vm, y, r.m);
            Leads(c, vm, |pre|, m, r.events + r'.events, Pos(c, if r'.truth then t else e), r'.m)
    decreases y, 1
  {
    hide Emit, Eval, Trace, Land, Leads;
    var r' := Eval(vm, y, r.m);
    var pre' := pre + cx + [Label(l)];
    assert c == pre' + Emit(y, t, e, n1).0 + post;
    LabelStands(c, |pre| + |cx|);
    LeadsPast(c, vm, |pre|, m, r.events, Pos(c, l), r.m);
    ConditionRuns(c, pre', y, t, e, n1, post, vm, r.m);
    LeadsOn(c, vm, |pre|, m, r.events, |pre'|, r.m, r'.events, Pos(c, if r'.truth then t else e), r'.m);
  }

  /** Labels of emitted code are new, each stands once, and the counter moves past them. */
  lemma {:induction false} EmitLabels(cond: Cond, t: nat, e: nat, next: nat)
    ensures next <= Emit(cond, t, e, next).1 && LabelsOnce(Emit(cond, t, e, next).0)
    ensures forall i :: 0 <= i < |Emit(cond, t, e, next).0| && Emit(cond, t, e, next).0[i].Label? ==>
                          next <= Emit(cond, t, e, next).0[i].name < Emit(cond, t, e, next).1
  {
    if cond.And? || cond.Or? {
      var (tx, ex) := if cond.And? then (next, e) else (t, next);
      EmitLabels(cond.x, tx, ex, next + 1);
      var (cx, n1) := Emit(cond.x, tx, ex, next + 1);
      EmitLabels(cond.y, t, e, n1);
    }
  }

  /** The if statement: condition, then label and part, jump to the end, else label and part, end label */
  function IfCode(cond: Cond, thenSeq: Code, elseSeq: Code, next: nat): Code {
    Emit(cond, next, next + 1, next + 3).0
    + [Label(next)] + thenSeq + [Op(Jump(next + 2)), Label(next + 1)] + elseSeq + [Label(next + 2)]
  }

  function IfRest(thenSeq: Code, elseSeq: Code, next: nat, post: Code): Code {
    [Label(next)] + thenSeq + [Op(Jump(next + 2)), Label(next + 1)] + elseSeq + [Label(next + 2)] + post
  }

  lemma IfSplit(pre: Code, cond: Cond, thenSeq: Code, elseSeq: Code, next: nat, post: Code)
    ensures pre + IfCode(cond, thenSeq, elseSeq, next) + post
         == pre + Emit(cond, next, next + 1, next + 3).0 + IfRest(thenSeq, elseSeq, next, post)
  {
    hide Emit;
    var x := [Label(next)] + thenSeq + [Op(Jump(next + 2)), Label(next + 1)] + elseSeq + [Label(next + 2)];
    assert IfCode(cond, thenSeq, elseSeq, next) == Emit(cond, next, next + 1, next + 3).0 + x;
    assert IfRest(thenSeq, elseSeq, next, post) == x + post;
  }

  /** The if statement evaluates its condition and enters the part chosen by it; from the end of
      either part it goes on behind the whole statement. */
  lemma IfRuns(c: Code, pre: Code, cond: Cond, thenSeq: Code, elseSeq: Code, next: nat, post: Code, vm: Vm, m: Mach)
    requires c == pre + IfCode(cond, thenSeq, elseSeq, next) + post && LabelsOnce(c)
    ensures var thenAt := |pre| + |Emit(cond, next, next + 1, next + 3).0| + 1;
            IfEntered(c, vm, |pre|, m, Eval(vm, cond, m), thenAt, thenSeq, elseSeq)
  {
    hide Trace, Land, Eval, Emit, Leads, IfCode, LabelsOnce, IfRest;
    var r, code := Eval(vm, cond, m), Emit(cond, next, next + 1, next + 3).0;
    var rest := IfRest(thenSeq, elseSeq, next, post);
    IfSplit(pre, cond, thenSeq, elseSeq, next, post);
    IfPlaces(c, pre + code, thenSeq, elseSeq, next, post);
    ConditionRuns(c, pre, cond, next, next + 1, next + 3, rest, vm, m);
    IfFrom(c, vm, |pre|, m, r, |pre| + |code| + 1, thenSeq, elseSeq, next);
  }

  /** From start the condition is evaluated and its part is entered; both parts are in place, and
      lead behind the statement. */
  ghost predicate IfEntered(c: Code, vm: Vm, start: nat, m: Mach, r: Outcome, thenAt: nat, thenSeq: Code,
                            elseSeq: Code) {
    var elseAt := thenAt + |thenSeq| + 2;
    var end := elseAt + |elseSeq| + 1;
    && end <= |c| && c[thenAt..thenAt + |thenSeq|] == thenSeq && c[elseAt..elseAt + |elseSeq|] == elseSeq
    && Leads(c, vm, start, m, r.events, if r.truth then thenAt else elseAt, r.m)
    && (forall m': Mach :: GoBehind(c, vm, thenAt, thenSeq, elseSeq, m'))
  }

  /** From the end of either part the run goes on behind the statement. */
  ghost predicate GoBehind(c: Code, vm: Vm, thenAt: nat, thenSeq: Code, elseSeq: Code, m: Mach) {
    var elseAt := thenAt + |thenSeq| + 2;
    var end := elseAt + |elseSeq| + 1;
    Leads(c, vm, thenAt + |thenSeq|, m, [], end, m) && Leads(c, vm, elseAt + |elseSeq|, m, [], end, m)
  }

  ghost predicate InPlace(c: Code, thenAt: nat, thenSeq: Code, elseSeq: Code, next: nat) {
    var elseAt := thenAt + |thenSeq| + 2;
    && 0 < thenAt && elseAt + |elseSeq| < |c|
    && c[thenAt - 1] == Label(next) && Pos(c, next) == thenAt - 1
    && c[thenAt + |thenSeq|] == Op(Jump(next + 2))
    && c[elseAt - 1] == Label(next + 1) && Pos(c, next + 1) == elseAt - 1
    && c[elseAt + |elseSeq|] == Label(next + 2) && Pos(c, next + 2) == elseAt + |elseSeq|
    && c[thenAt..thenAt + |thenSeq|] == thenSeq && c[elseAt..elseAt + |elseSeq|] == elseSeq
  }

  lemma IfFrom(c: Code, vm: Vm, start: nat, m: Mach, r: Outcome, thenAt: nat, thenSeq: Code, elseSeq: Code, next: nat)
    requires InPlace(c, thenAt, thenSeq, elseSeq, next)
    requires Leads(c, vm, start, m, r.events, Pos(c, if r.truth then next else next + 1), r.m)
    ensures IfEntered(c, vm, start, m, r, thenAt, thenSeq, elseSeq)
  {
    hide Leads, Trace, Land;
    LeadsPast(c, vm, start, m, r.events, Pos(c, if r.truth then next else next + 1), r.m);
    var thenEnd := thenAt + |thenSeq|;
    var elseEnd := thenEnd + 2 + |elseSeq|;
    forall m': Mach
      ensures GoBehind(c, vm, thenAt, thenSeq, elseSeq, m')
    {
      LeadsToEnd(c, vm, thenEnd, elseEnd, m');
    }
  }

  lemma LeadsPast(c: Code, vm: Vm, p: nat, m: Mach, events: seq<Event>, p': nat, m': Mach)
    requires Leads(c, vm, p, m, events, p', m') && p' < |c| && c[p'].Label?
    ensures Leads(c, vm, p, m, events, p' + 1, m')
  {
    LandStep(c, p');
    hide Trace, Land;
    LeadsQuietly(c, vm, p', p' + 1, m');
    LeadsOn(c, vm, p, m, events, p', m', [], p' + 1, m');
    assert events + [] == events;
  }

  lemma LeadsToEnd(c: Code, vm: Vm, p: nat, e: nat, m: Mach)
    requires p < |c| && IsJump(c, p) && e < |c| && c[e] == Label(c[p].insn.l) && Pos(c, c[p].insn.l) == e
    ensures Leads(c, vm, p, m, [], e + 1, m) && Leads(c, vm, e, m, [], e + 1, m)
  {
    LandStep(c, p);
    LandStep(c, e);
    LeadsQuietly(c, vm, p, e + 1, m);
    LeadsQuietly(c, vm, e, e + 1, m);
  }

  lemma IfPlaces(c: Code, before: Code, thenSeq: Code, elseSeq: Code, next: nat, post: Code)
    requires LabelsOnce(c)
    requires c == before + IfRest(thenSeq, elseSeq, next, post)
    ensures InPlace(c, |before| + 1, thenSeq, elseSeq, next)
  {
    IfElements(before, thenSeq, elseSeq, next, post);
    hide IfRest;
    var thenAt := |before| + 1;
    var elseAt := thenAt + |thenSeq| + 2;
    LabelStands(c, thenAt - 1);
    LabelStands(c, elseAt - 1);
    LabelStands(c, elseAt + |elseSeq|);
  }

  lemma IfElements(before: Code, thenSeq: Code, elseSeq: Code, next: nat, post: Code)
    ensures var c, thenAt := before + IfRest(thenSeq, elseSeq, next, post), |before| + 1;
            var elseAt := thenAt + |thenSeq| + 2;
            && elseAt + |elseSeq| < |c|
            && c[thenAt - 1] == Label(next) && c[thenAt..thenAt + |thenSeq|] == thenSeq
            && c[thenAt + |thenSeq|] == Op(Jump(next + 2)) && c[elseAt - 1] == Label(next + 1)
            && c[elseAt..elseAt + |elseSeq|] == elseSeq && c[elseAt + |elseSeq|] == Label(next + 2)
  {
  }

  /** The list being built, and the label counter of the compilation */
  class Compiler {
    var ret: Code
    var next: nat

    constructor ()
      ensures ret == [] && next == 0
    {
      ret, next := [], 0;
    }

    method NewLabel() returns (l: nat)
      modifies this`next
      ensures l == old(next) && next == old(next) + 1
    {
      l := next;
      next := next + 1;
    }

    /** compile_branch_condition */
    method CompileBranchCondition(cond: Cond, t: nat, e: nat)
      modifies this
      ensures ret == old(ret) + Emit(cond, t, e, old(next)).0
      ensures next == Emit(cond, t, e, old(next)).1
      decreases cond, 0
    {
      match cond
      case And(x, y) =>
        var l := NewLabel();
        CompileBranchCondition(x, l, e);
        AddLabelAndRest(l, y, t, e, old(ret), Emit(x, l, e, l + 1).0);
      case Or(x, y) =>
        var l := NewLabel();
        CompileBranchCondition(x, t, l);
        AddLabelAndRest(l, y, t, e, old(ret), Emit(x, t, l, l + 1).0);
      case Literal(b) =>
        ret := ret + [Op(Jump(if b then t else e))];
      case Leaf(x) =>
        ret := ret + [Op(Other(x))];
        ret := ret + [Op(BranchUnless(e))];
        ret := ret + [Op(Jump(t))];
        assert ret == old(ret) + [Op(Other(x)), Op(BranchUnless(e)), Op(Jump(t))];
    }

    /** The label between the operands, and the second operand */
    method AddLabelAndRest(l: nat, y: Cond, t: nat, e: nat, ghost before: Code, ghost first: Code)
      requires ret == before + first
      modifies this
      ensures ret == before + (first + [Label(l)] + Emit(y, t, e, old(next)).0)
      ensures next == Emit(y, t, e, old(next)).1
      decreases y, 1
    {
      hide Emit;
      ret := ret + [Label(l)];
      CompileBranchCondition(y, t, e);
      ghost var second := Emit(y, t, e, old(next)).0;
      assert before + first + [Label(l)] + second == before + (first + [Label(l)] + second);
    }

    /** The NODE_IF case of iseq_compile_each, given the code of its two parts */
    method CompileIf(cond: Cond, thenSeq: Code, elseSeq: Code)
      modifies this
      ensures ret == old(ret) + IfCode(cond, thenSeq, elseSeq, old(next))
      ensures next == Emit(cond, old(next), old(next) + 1, old(next) + 3).1
    {
      var thenLabel := NewLabel();
      var elseLabel := NewLabel();
      var endLabel := NewLabel();
      CompileBranchCondition(cond, thenLabel, elseLabel);
      ret := ret + [Label(thenLabel)] + thenSeq + [Op(Jump(endLabel))];
      ret := ret + [Label(elseLabel)] + elseSeq + [Label(endLabel)];
    }
  }
}
