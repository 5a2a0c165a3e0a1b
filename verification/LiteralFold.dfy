/** A condition whose code the peephole pass changes: q || true || a, with nothing to do when it is
    true.  When q is false, the pass makes the statement enter its other part. */
module LiteralFold {
  import opened Options
  import opened JumpCode
  import opened Peephole
  import opened PeepholeLists
  import opened JumpLoop
  import opened PeepholePass
  import BranchCode
  import IfPass

  // Single steps of the pass

  /** The pass from i on is the pass over c' from j on. */
  ghost predicate GoesOn(c: Code, i: nat, c': Code, j: nat)
    requires i <= |c| && j <= |c'|
  {
    PassCode(c, i) == PassCode(c', j) && PassEnds(c, i) == PassEnds(c', j)
  }

  lemma PassOver(c: Code, i: nat)
    requires i < |c| && !IsJump(c, i) && (IsBranch(c, i) ==> !IsJump(c, Dest(c, i)))
    ensures GoesOn(c, i, c, i + 1)
  {
    hide Pos, NextInsn, PrevInsn;
  }

  lemma PassBranch(c: Code, i: nat)
    requires IsBranch(c, i) && IsJump(c, Dest(c, i))
    ensures GoesOn(c, i, Rebranched(c, i), i + 1)
  {
    hide Pos, NextInsn, PrevInsn;
  }

  /** The loop takes one turn, and then nothing is to be done. */
  lemma PassThreaded(c: Code, i: nat)
    requires IsJump(c, i) && Again(c, i, c[i].insn.l)
    requires var l := c[Reached(c, c[i].insn.l)].insn.l;
             !Again(c, i, l) && CaseOf(WithLabel(c, i, l), i) == Stay
    ensures GoesOn(c, i, WithLabel(c, i, c[Reached(c, c[i].insn.l)].insn.l), i + 1)
  {
    hide Pos, NextInsn, PrevInsn, Reached, CaseOf;
    assert Chain(c, i, c[i].insn.l, 2) == Chain(c, i, c[Reached(c, c[i].insn.l)].insn.l, 1);
    assert Last(c, i, c[i].insn.l, |c| + 1) == Last(c, i, c[Reached(c, c[i].insn.l)].insn.l, |c|);
  }

  lemma PassUnthreaded(c: Code, i: nat)
    requires IsJump(c, i) && !Again(c, i, c[i].insn.l) && |Rewritten(c, i)| < |c| && NextIndex(c, i) == i
    ensures GoesOn(c, i, Rewritten(c, i), i)
  {
    hide Pos, NextInsn, PrevInsn, Reached, CaseOf, Rewritten;
    assert Chain(c, i, c[i].insn.l, 1) == None;
    assert Settled(c, i) == c;
  }

  lemma PassEnded(c: Code)
    ensures PassCode(c, |c|) == c && PassEnds(c, |c|)
  {
  }

  lemma PassLabel(c: Code, i: nat)
    requires i < |c| && c[i].Label?
    ensures GoesOn(c, i, c, i + 1)
  {
  }

  // The list

  lemma StandsAt(c: Code, l: nat, p: nat)
    requires p < |c| && c[p] == Label(l) && forall k :: 0 <= k < p ==> c[k] != Label(l)
    ensures Pos(c, l) == p
  {
    hide Pos;
    assert c[p] == Label(l);
  }

  /** The code with labels k, l and n in its first three jumps */
  function Stage(q: nat, a: nat, x: nat, y: nat, k: nat, l: nat, n: nat): Code {
    [Op(Other(q)), Op(BranchUnless(k)), Op(Jump(l)), Label(3), Op(Jump(n)), Label(4), Op(Other(a)), Op(BranchUnless(1)),
     Op(Jump(0)), Label(0), Op(Jump(2)), Label(1), Op(Other(x)), Label(2), Op(Other(y))]
  }

  function Condition(q: nat, a: nat): BranchCode.Cond {
    BranchCode.Or(BranchCode.Leaf(q), BranchCode.Or(BranchCode.Literal(true), BranchCode.Leaf(a)))
  }

  lemma StageIs(q: nat, a: nat, x: nat, y: nat)
    ensures BranchCode.IfCode(Condition(q, a), [], [Op(Other(x))], 0) + [Op(Other(y))] == Stage(q, a, x, y, 3, 0, 0)
  {
    var second := BranchCode.Or(BranchCode.Literal(true), BranchCode.Leaf(a));
    assert BranchCode.Emit(second, 0, 1, 4).0
        == [Op(Jump(0)), Label(4), Op(Other(a)), Op(BranchUnless(1)), Op(Jump(0))];
    assert BranchCode.Emit(Condition(q, a), 0, 1, 3).0
        == [Op(Other(q)), Op(BranchUnless(3)), Op(Jump(0)), Label(3)] + BranchCode.Emit(second, 0, 1, 4).0;
  }

  lemma StageLabels(q: nat, a: nat, x: nat, y: nat, k: nat, l: nat, n: nat)
    ensures var c := Stage(q, a, x, y, k, l, n);
            && Pos(c, 0) == 9 && Pos(c, 1) == 11 && Pos(c, 2) == 13 && Pos(c, 3) == 3
            && NextInsn(c, 3) == 4 && NextInsn(c, 5) == 6 && NextInsn(c, 9) == 10
            && NextInsn(c, 11) == 12 && NextInsn(c, 13) == 14
  {
    hide Pos, NextInsn;
    var c := Stage(q, a, x, y, k, l, n);
    StandsAt(c, 0, 9);
    StandsAt(c, 1, 11);
    StandsAt(c, 2, 13);
    StandsAt(c, 3, 3);
    assert c[4].Op? && c[6].Op? && c[10].Op? && c[12].Op? && c[14].Op?;
  }

  lemma StageBranch(q: nat, a: nat, x: nat, y: nat)
    ensures var c := Stage(q, a, x, y, 3, 0, 0);
            |c| == 15 && c[0] == Op(Other(q)) && IsBranch(c, 1) && Dest(c, 1) == 4 && c[4] == Op(Jump(0))
    ensures Stage(q, a, x, y, 3, 0, 0)[1 := Op(BranchUnless(0))] == Stage(q, a, x, y, 0, 0, 0)
  {
    StageLabels(q, a, x, y, 3, 0, 0);
    hide Pos, NextInsn;
    StageAt(q, a, x, y, 3, 0, 0);
  }

  lemma StageAt(q: nat, a: nat, x: nat, y: nat, k: nat, l: nat, n: nat)
    ensures var c := Stage(q, a, x, y, k, l, n);
            && |c| == 15 && c[0] == Op(Other(q)) && c[1] == Op(BranchUnless(k)) && c[2] == Op(Jump(l))
            && c[3] == Label(3) && c[4] == Op(Jump(n)) && c[5] == Label(4) && c[6] == Op(Other(a))
            && c[7] == Op(BranchUnless(1)) && c[8] == Op(Jump(0)) && c[9] == Label(0) && c[10] == Op(Jump(2))
            && c[11] == Label(1) && c[12] == Op(Other(x)) && c[13] == Label(2) && c[14] == Op(Other(y))
  {
  }

  lemma FirstBranch(q: nat, a: nat, x: nat, y: nat)
    ensures GoesOn(Stage(q, a, x, y, 3, 0, 0), 0, Stage(q, a, x, y, 0, 0, 0), 2)
  {
    var c := Stage(q, a, x, y, 3, 0, 0);
    StageBranch(q, a, x, y);
    assert c[1] == Op(BranchUnless(3));
    hide Dest, Stage, PassCode, PassEnds;
    PassOver(c, 0);
    PassBranch(c, 1);
  }

  lemma FirstJump(q: nat, a: nat, x: nat, y: nat)
    ensures GoesOn(Stage(q, a, x, y, 0, 0, 0), 2, Stage(q, a, x, y, 0, 2, 0), 4)
  {
    var c, c' := Stage(q, a, x, y, 0, 0, 0), Stage(q, a, x, y, 0, 2, 0);
    StageLabels(q, a, x, y, 0, 0, 0);
    StageLabels(q, a, x, y, 0, 2, 0);
    StageAt(q, a, x, y, 0, 0, 0);
    StageAt(q, a, x, y, 0, 2, 0);
    assert WithLabel(c, 2, 2) == c';
    hide Stage;
    assert PrevInsn(c', 2) == Some(1);
    hide Pos, NextInsn, PrevInsn, PassCode, PassEnds;
    assert CaseOf(c', 2) == Stay;
    PassThreaded(c, 2);
    PassLabel(c', 3);
  }

  lemma SecondJump(q: nat, a: nat, x: nat, y: nat)
    ensures GoesOn(Stage(q, a, x, y, 0, 2, 0), 4, Stage(q, a, x, y, 0, 2, 2), 8)
  {
    var c, c' := Stage(q, a, x, y, 0, 2, 0), Stage(q, a, x, y, 0, 2, 2);
    StageLabels(q, a, x, y, 0, 2, 0);
    StageLabels(q, a, x, y, 0, 2, 2);
    StageAt(q, a, x, y, 0, 2, 0);
    StageAt(q, a, x, y, 0, 2, 2);
    assert WithLabel(c, 4, 2) == c';
    hide Stage;
    assert PrevInsn(c', 3) == Some(2);
    assert PrevInsn(c', 4) == Some(2);
    hide Pos, NextInsn, PrevInsn, PassCode, PassEnds;
    assert CaseOf(c', 4) == Stay;
    PassThreaded(c, 4);
    PassLabel(c', 5);
    PassOver(c', 6);
    PassOver(c', 7);
  }

  function Shortened(q: nat, a: nat, x: nat, y: nat): Code {
    [Op(Other(q)), Op(BranchUnless(0)), Op(Jump(2)), Label(3), Op(Jump(2)), Label(4), Op(Other(a)), Op(BranchUnless(1)),
     Label(0), Op(Jump(2)), Label(1), Op(Other(x)), Label(2), Op(Other(y))]
  }

  function Folded(q: nat, a: nat, x: nat, y: nat): Code {
    [Op(Other(q)), Op(BranchUnless(0)), Op(Jump(2)), Label(3), Op(Jump(2)), Label(4), Op(Other(a)), Op(BranchIf(2)),
     Label(0), Label(1), Op(Other(x)), Label(2), Op(Other(y))]
  }

  lemma ThirdJump(q: nat, a: nat, x: nat, y: nat)
    ensures GoesOn(Stage(q, a, x, y, 0, 2, 2), 8, Shortened(q, a, x, y), 9)
  {
    var c := Stage(q, a, x, y, 0, 2, 2);
    StageLabels(q, a, x, y, 0, 2, 2);
    hide Pos, NextInsn, PrevInsn, PassCode, PassEnds;
    assert CaseOf(c, 8) == Drop;
    assert Removed(c, 8) == Shortened(q, a, x, y);
    PassUnthreaded(c, 8);
    PassLabel(Shortened(q, a, x, y), 8);
  }

  lemma ShortenedCase(q: nat, a: nat, x: nat, y: nat)
    ensures var c := Shortened(q, a, x, y);
            CaseOf(c, 9) == Fold(7) && !Again(c, 9, 2) && Rewritten(c, 9) == Folded(q, a, x, y)
  {
    var c := Shortened(q, a, x, y);
    assert c[11].Op? && c[9].Op? && c[13].Op?;
    StandsAt(c, 1, 10);
    StandsAt(c, 2, 12);
    assert NextInsn(c, 10) == 11 && NextInsn(c, 12) == 13;
    assert PrevInsn(c, 8) == Some(7);
    assert PrevInsn(c, 9) == Some(7);
    hide Pos, NextInsn, PrevInsn;
    assert Folds(c, 9) == Some(7);
    assert CaseOf(c, 9) == Fold(7);
    assert Removed(Swapped(c, 7, 9), 9) == Folded(q, a, x, y);
  }

  lemma FourthJump(q: nat, a: nat, x: nat, y: nat)
    ensures PassCode(Shortened(q, a, x, y), 9) == Folded(q, a, x, y) && PassEnds(Shortened(q, a, x, y), 9)
  {
    hide Pos, NextInsn, PrevInsn, PassCode, PassEnds, CaseOf, Rewritten, Again;
    var c, c' := Shortened(q, a, x, y), Folded(q, a, x, y);
    ShortenedCase(q, a, x, y);
    PassEnded(c');
    PassUnthreaded(c, 9);
    PassLabel(c', 9);
    PassOver(c', 10);
    PassLabel(c', 11);
    PassOver(c', 12);
  }

  lemma PassIs(q: nat, a: nat, x: nat, y: nat)
    ensures PassCode(Stage(q, a, x, y, 3, 0, 0), 0) == Folded(q, a, x, y) && PassEnds(Stage(q, a, x, y, 3, 0, 0), 0)
  {
    hide PassCode, PassEnds;
    FirstBranch(q, a, x, y);
    FirstJump(q, a, x, y);
    SecondJump(q, a, x, y);
    ThirdJump(q, a, x, y);
    FourthJump(q, a, x, y);
  }

  // What it does

  lemma StageEnds(q: nat, a: nat, x: nat, y: nat)
    ensures var c := Stage(q, a, x, y, 3, 0, 0); |c| == 15 && Pos(c, 3) == 3 && Land(c, 3) == Some(14)
  {
    var c := Stage(q, a, x, y, 3, 0, 0);
    StageLabels(q, a, x, y, 3, 0, 0);
    StageAt(q, a, x, y, 3, 0, 0);
    hide Pos, NextInsn, Land, Stage;
    LandStep(c, 3);
    LandStep(c, 4);
    LandStep(c, 9);
    LandStep(c, 10);
    LandStep(c, 13);
    LandHere(c, 14);
  }

  lemma RunBefore(q: nat, a: nat, x: nat, y: nat, vm: Vm, m: Mach)
    requires !Test(vm, vm.step(q, m))
    ensures var c, m1 := Stage(q, a, x, y, 3, 0, 0), vm.step(q, m);
            Trace(c, vm, 0, m, 3) == [Did(Op(Other(q)), m), Tested(m1), Did(Op(Other(y)), Dropped(m1))]
  {
    var c, m1 := Stage(q, a, x, y, 3, 0, 0), vm.step(q, m);
    StageEnds(q, a, x, y);
    StageAt(q, a, x, y, 3, 0, 0);
    hide Pos, NextInsn, Land, Dropped, Test, Stage;
    TraceDid(c, vm, 0, m, 2);
    TraceTested(c, vm, 1, m1, 1);
    assert Trace(c, vm, 3, Dropped(m1), 1) == [Did(Op(Other(y)), Dropped(m1))];
  }

  lemma RunAfter(q: nat, a: nat, x: nat, y: nat, vm: Vm, m: Mach)
    requires !Test(vm, vm.step(q, m))
    ensures var m1 := vm.step(q, m);
            Trace(Folded(q, a, x, y), vm, 0, m, 3) == [Did(Op(Other(q)), m), Tested(m1), Did(Op(Other(x)), Dropped(m1))]
  {
    var c := Folded(q, a, x, y);
    StandsAt(c, 0, 8);
    hide Pos, NextInsn, Land, Dropped, Test;
    LandHere(c, 0);
    LandHere(c, 1);
    LandStep(c, 8);
    LandStep(c, 9);
    LandHere(c, 10);
  }

  /** The operand q leads over two jumps when it is false. */
  lemma NotFit(q: nat, a: nat, x: nat, y: nat)
    ensures var c := Stage(q, a, x, y, 3, 0, 0);
            && IfPass.Depth(c, Pos(c, 0)) == 1 && IfPass.Depth(c, Pos(c, 1)) == 0
            && !IfPass.Fit(Condition(q, a), 1, 0)
  {
    StageLabels(q, a, x, y, 3, 0, 0);
    StageAt(q, a, x, y, 3, 0, 0);
    var c := Stage(q, a, x, y, 3, 0, 0);
    hide Pos, NextInsn, Stage;
    var second := BranchCode.Or(BranchCode.Literal(true), BranchCode.Leaf(a));
    assert IfPass.FirstDepth(second, 1, 0) == 2;
  }

  lemma AlwaysTrue(q: nat, a: nat, vm: Vm, m: Mach)
    ensures BranchCode.Eval(vm, Condition(q, a), m).truth
  {
    var y := BranchCode.Or(BranchCode.Literal(true), BranchCode.Leaf(a));
    assert forall m': Mach :: BranchCode.Eval(vm, y, m').truth;
  }

  /** The condition is true whatever q is, so that the code goes on with y behind the statement; after
      the pass the other part x is run when q is false. */
  lemma LiteralMisled(q: nat, a: nat, x: nat, y: nat, vm: Vm, m: Mach)
    requires !Test(vm, vm.step(q, m))
    ensures var c, m1 := BranchCode.IfCode(Condition(q, a), [], [Op(Other(x))], 0) + [Op(Other(y))], vm.step(q, m);
            && BranchCode.Eval(vm, Condition(q, a), m).truth && PassEnds(c, 0)
            && IfPass.Depth(c, Pos(c, 0)) == 1 && IfPass.Depth(c, Pos(c, 1)) == 0 && !IfPass.Fit(Condition(q, a), 1, 0)
            && Trace(c, vm, 0, m, 3) == [Did(Op(Other(q)), m), Tested(m1), Did(Op(Other(y)), Dropped(m1))]
            && Trace(PassCode(c, 0), vm, 0, m, 3) == [Did(Op(Other(q)), m), Tested(m1), Did(Op(Other(x)), Dropped(m1))]
  {
    hide PassCode, PassEnds, Trace, Stage, Folded, Condition, BranchCode.Eval, BranchCode.IfCode, Test, Dropped;
    hide IfPass.Depth, IfPass.Fit, Pos;
    StageIs(q, a, x, y);
    PassIs(q, a, x, y);
    AlwaysTrue(q, a, vm, m);
    NotFit(q, a, x, y);
    RunBefore(q, a, x, y, vm, m);
    RunAfter(q, a, x, y, vm, m);
  }
}
