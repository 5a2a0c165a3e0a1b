/** iseq_peephole_optimize on one instruction, with its loop, and the pass over a whole list. */
module PeepholePass {
  import opened Options
  import opened JumpCode
  import opened Peephole
  import opened PeepholeLists
  import opened JumpLoop

  // The rewrites

  /** The branch that is folded with jump i: it stands right before, labels aside, and gets to the
      instruction behind the jump. */
  function Folds(c: Code, i: nat): (b: Option<nat>)
    requires i < |c|
    ensures b.Some? ==> b.value < i && IsBranch(c, b.value) && (forall k :: b.value < k < i ==> c[k].Label?)
                        && Dest(c, b.value) == NextInsn(c, i + 1)
  {
    var p := PrevInsn(c, i);
    if p.Some? && IsBranch(c, p.value) && Dest(c, p.value) == NextInsn(c, i + 1) then p else None
  }

  datatype Case = Drop | Stay | ToLeave | Fold(b: nat) | Retarget

  /** What is done about instruction i once the loop is over */
  function CaseOf(c: Code, i: nat): Case
    requires i < |c|
  {
    if IsJump(c, i) then
      if Dest(c, i) == NextInsn(c, i + 1) then Drop
      else if Dest(c, i) != i && IsJump(c, Dest(c, i)) then Stay
      else if JumpsToLeave(c, i) then ToLeave
      else if Folds(c, i).Some? then Fold(Folds(c, i).value)
      else Stay
    else if IsBranch(c, i) && IsJump(c, Dest(c, i)) then Retarget
    else Stay
  }

  function Rewritten(c: Code, i: nat): Code
    requires i < |c|
  {
    match CaseOf(c, i)
    case Drop => Removed(c, i)
    case Stay => c
    case ToLeave => WithPop(Leaving(c, i), i)
    case Fold(b) => Removed(Swapped(c, b, i), i)
    case Retarget => Rebranched(c, i)
  }

  /** A fold takes away a jump that nobody but the branch gets to. */
  predicate SafeFold(c: Code, i: nat, entries: set<nat>)
    requires i < |c|
  {
    CaseOf(c, i).Fold? ==> Unused(c, CaseOf(c, i).b, i, entries)
  }

  lemma {:induction false} NextKept(c: Code, c': Code, p: nat)
    requires SameLabels(c, c') && p <= |c|
    ensures NextInsn(c', p) == NextInsn(c, p)
    decreases |c| - p
  {
    if p < |c| && c[p].Label? { NextKept(c, c', p + 1); }
  }

  /** Every rewrite keeps the runs, as long as folds are safe. */
  lemma RewrittenRuns(c: Code, i: nat, entries: set<nat>)
    requires Good(c, entries) && i < |c| && SafeFold(c, i, entries)
    ensures SameRuns(c, Rewritten(c, i), entries)
  {
    hide SameRuns, Unused, Pos, NextInsn, PrevInsn;
    match CaseOf(c, i)
    case Drop =>
      RemovedRuns(c, i, entries);
    case Stay =>
      SameRunsSelf(c, entries);
    case ToLeave =>
      LeavingRuns(c, i, entries);
      WithPopRuns(Leaving(c, i), i, entries);
      SameRunsTrans(c, Leaving(c, i), Rewritten(c, i), entries);
    case Fold(b) =>
      FoldedRuns(c, b, i, entries);
    case Retarget =>
      RebranchedRuns(c, i, entries);
  }

  lemma SameRunsSelf(c: Code, entries: set<nat>)
    ensures SameRuns(c, c, entries)
  {
  }

  /** A fold is an exchange of labels, after which the jump leads to the next instruction. */
  lemma FoldedRuns(c: Code, b: nat, i: nat, entries: set<nat>)
    requires Good(c, entries) && i < |c| && CaseOf(c, i) == Fold(b) && Unused(c, b, i, entries)
    ensures SameRuns(c, Removed(Swapped(c, b, i), i), entries)
  {
    hide SameRuns, Unused, Pos, NextInsn, PrevInsn;
    var c1 := Swapped(c, b, i);
    SwappedRuns(c, b, i, entries);
    PosKept(c, c1, c1[i].insn.l);
    NextKept(c, c1, Pos(c, c1[i].insn.l));
    NextKept(c, c1, i + 1);
    RemovedRuns(c1, i, entries);
    SameRunsTrans(c, c1, Removed(c1, i), entries);
  }

  // Labels stay in place

  lemma InPlaceGood(c: Code, c': Code, entries: set<nat>)
    requires Good(c, entries) && SameLabels(c, c')
    requires forall k :: 0 <= k < |c| && Target(c'[k]).Some? ==>
                           exists j :: 0 <= j < |c| && Target(c[j]) == Target(c'[k])
    ensures Good(c', entries)
  {
    forall l
      ensures Pos(c', l) == Pos(c, l)
    {
      PosKept(c, c', l);
    }
  }

  lemma RemovedGood(c: Code, i: nat, entries: set<nat>)
    requires Good(c, entries) && i < |c| && !c[i].Label?
    ensures Good(Removed(c, i), entries)
  {
    var c' := Removed(c, i);
    forall l
      ensures Pos(c', l) == Closer(i, Pos(c, l)) && Pos(c, l) != i
    {
      RemovedPos(c, i, l);
    }
    forall k | 0 <= k < |c'|
      ensures c'[k] == c[Farther(i, k)]
    {
    }
  }

  lemma WithPopGood(c: Code, i: nat, entries: set<nat>)
    requires Good(c, entries) && i < |c| && c[i] == Op(Leave)
    ensures Good(WithPop(c, i), entries)
  {
    var c' := WithPop(c, i);
    WithPopOnce(c, i);
    assert forall k :: 0 <= k < |c'| ==> c'[k] == if k <= i then c[k] else if k == i + 1 then Op(Pop) else c[k - 1];
    hide WithPop, Pos, LabelsOnce;
    forall l
      ensures Pos(c', l) == Opened(i, Pos(c, l))
    {
      WithPopPos(c, i, l);
    }
  }

  lemma WithPopOnce(c: Code, i: nat)
    requires LabelsOnce(c) && i < |c| && c[i] == Op(Leave)
    ensures LabelsOnce(WithPop(c, i)) && |WithPop(c, i)| == |c| + 1
  {
    var c' := WithPop(c, i);
    assert forall k :: 0 <= k < |c'| ==> c'[k] == if k <= i then c[k] else if k == i + 1 then Op(Pop) else c[k - 1];
  }

  lemma RewrittenGood(c: Code, i: nat, entries: set<nat>)
    requires Good(c, entries) && i < |c|
    ensures Good(Rewritten(c, i), entries)
  {
    hide Good;
    match CaseOf(c, i)
    case Drop => RemovedGood(c, i, entries);
    case Stay =>
    case ToLeave =>
      InPlaceGood(c, Leaving(c, i), entries);
      WithPopGood(Leaving(c, i), i, entries);
    case Fold(b) =>
      var c1 := Swapped(c, b, i);
      assert Target(c1[b]) == Target(c[i]) && Target(c1[i]) == Target(c[b]);
      InPlaceGood(c, c1, entries);
      RemovedGood(c1, i, entries);
    case Retarget =>
      var c1 := Rebranched(c, i);
      assert Target(c1[i]) == Target(c[Dest(c, i)]);
      InPlaceGood(c, c1, entries);
  }

  // Jump i with another label

  function WithLabel(c: Code, i: nat, l: nat): Code
    requires i < |c|
  {
    c[i := Op(Jump(l))]
  }

  lemma WithLabelReached(c: Code, i: nat, l: nat, x: nat)
    requires IsJump(c, i)
    ensures Reached(WithLabel(c, i, l), x) == Reached(c, x)
    ensures NextInsn(WithLabel(c, i, l), i + 1) == NextInsn(c, i + 1)
  {
    var c' := WithLabel(c, i, l);
    PosKept(c, c', x);
    NextKept(c, c', Pos(c, x));
    NextKept(c, c', i + 1);
  }

  /** One more turn of the loop keeps the runs and the labels. */
  lemma TurnRuns(c: Code, i: nat, l: nat, entries: set<nat>)
    requires IsJump(c, i) && Good(WithLabel(c, i, l), entries) && Again(c, i, l)
    ensures var l' := c[Reached(c, l)].insn.l;
            SameRuns(WithLabel(c, i, l), WithLabel(c, i, l'), entries) && Good(WithLabel(c, i, l'), entries)
  {
    var c1, d := WithLabel(c, i, l), Reached(c, l);
    WithLabelReached(c, i, l, l);
    ThreadedRuns(c1, i, entries);
    var c2 := WithLabel(c, i, c[d].insn.l);
    assert Threaded(c1, i) == c2;
    assert Target(c2[i]) == Target(c1[d]);
    InPlaceGood(c1, c2, entries);
  }

  /** The label jump i ends up with, at most n turns away */
  function Last(c: Code, i: nat, l: nat, n: nat): nat
    requires i < |c|
    decreases n
  {
    if n == 0 || !Again(c, i, l) then l else Last(c, i, c[Reached(c, l)].insn.l, n - 1)
  }

  lemma LastTurn(c: Code, i: nat, l: nat, n: nat)
    requires i < |c| && Chain(c, i, l, n) == None
    ensures !Again(c, i, l) ==> Last(c, i, l, n) == l
    ensures Again(c, i, l) ==> var l' := c[Reached(c, l)].insn.l;
                               n > 0 && Chain(c, i, l', n - 1) == None && Last(c, i, l, n) == Last(c, i, l', n - 1)
  {
  }

  /** The list when the loop for instruction i is over */
  function Settled(c: Code, i: nat): (r: Code)
    requires i < |c|
    ensures |r| == |c|
  {
    if IsJump(c, i) then WithLabel(c, i, Last(c, i, c[i].insn.l, |c| + 1)) else c
  }

  /** Where the pass goes on after instruction i */
  function NextIndex(c: Code, i: nat): nat
    requires i < |c|
  {
    match CaseOf(c, i)
    case Drop => i
    case Fold(_) => i
    case ToLeave => i + 2
    case Stay => i + 1
    case Retarget => i + 1
  }

  lemma Progress(c: Code, i: nat)
    requires i < |c|
    ensures NextIndex(c, i) <= |Rewritten(c, i)| && |Rewritten(c, i)| - NextIndex(c, i) < |c| - i
  {
  }

  /** The pass from instruction i on comes to an end. */
  ghost predicate PassEnds(c: Code, i: nat)
    requires i <= |c|
    decreases |c| - i
  {
    if i == |c| then true
    else if !c[i].Op? then PassEnds(c, i + 1)
    else
      var c1 := Settled(c, i);
      Progress(c1, i);
      (IsJump(c, i) ==> Stops(c, i)) && PassEnds(Rewritten(c1, i), NextIndex(c1, i))
  }

  /** The list after the pass from instruction i on */
  function PassCode(c: Code, i: nat): Code
    requires i <= |c|
    decreases |c| - i
  {
    if i == |c| then c
    else if !c[i].Op? then PassCode(c, i + 1)
    else
      var c1 := Settled(c, i);
      Progress(c1, i);
      PassCode(Rewritten(c1, i), NextIndex(c1, i))
  }

  /** Every fold of the pass is safe. */
  predicate PassSafe(c: Code, i: nat, entries: set<nat>)
    requires i <= |c|
    decreases |c| - i
  {
    if i == |c| then true
    else if !c[i].Op? then PassSafe(c, i + 1, entries)
    else
      var c1 := Settled(c, i);
      Progress(c1, i);
      SafeFold(c1, i, entries) && PassSafe(Rewritten(c1, i), NextIndex(c1, i), entries)
  }

  lemma {:induction false} LastRuns(c: Code, i: nat, l: nat, n: nat, entries: set<nat>)
    requires IsJump(c, i) && Good(WithLabel(c, i, l), entries)
    ensures var c' := WithLabel(c, i, Last(c, i, l, n)); Good(c', entries) && SameRuns(WithLabel(c, i, l), c', entries)
    decreases n
  {
    hide Good, Reached;
    if n > 0 && Again(c, i, l) {
      var l' := c[Reached(c, l)].insn.l;
      TurnRuns(c, i, l, entries);
      LastRuns(c, i, l', n - 1, entries);
      SameRunsTrans(WithLabel(c, i, l), WithLabel(c, i, l'), WithLabel(c, i, Last(c, i, l', n - 1)), entries);
    }
  }

  lemma SettledRuns(c: Code, i: nat, entries: set<nat>)
    requires i < |c| && Good(c, entries)
    ensures Good(Settled(c, i), entries) && SameRuns(c, Settled(c, i), entries)
  {
    hide Good, Last;
    if IsJump(c, i) {
      assert WithLabel(c, i, c[i].insn.l) == c;
      LastRuns(c, i, c[i].insn.l, |c| + 1, entries);
    }
  }

  /** The whole pass keeps every run from the beginning and from every entry, as long as no fold
      takes away a jump behind a label that is still used. */
  lemma {:induction false} PassRuns(c: Code, i: nat, entries: set<nat>)
    requires i <= |c| && Good(c, entries) && PassSafe(c, i, entries)
    ensures Good(PassCode(c, i), entries) && SameRuns(c, PassCode(c, i), entries)
    decreases |c| - i
  {
    hide Good, Settled, Rewritten, NextIndex;
    if i < |c| {
      if c[i].Op? {
        var c1 := Settled(c, i);
        SettledRuns(c, i, entries);
        Progress(c1, i);
        RewrittenRuns(c1, i, entries);
        RewrittenGood(c1, i, entries);
        PassRuns(Rewritten(c1, i), NextIndex(c1, i), entries);
        SameRunsTrans(c, c1, Rewritten(c1, i), entries);
        SameRunsTrans(c, Rewritten(c1, i), PassCode(c, i), entries);
      } else {
        PassRuns(c, i + 1, entries);
      }
    }
  }

  class Iseq {
    var code: Code

    constructor (c: Code)
      ensures code == c
    {
      code := c;
    }

    /** The loop at again: the jump at i takes over labels of jumps as long as it can. */
    method ThreadJump(i: nat)
      requires IsJump(code, i) && Stops(code, i)
      modifies this
      ensures code == Settled(old(code), i)
    {
      hide Pos, NextInsn, Chain, Last, Stops;
      ghost var c := code;
      StopsSoon(c, i);
      ghost var l := c[i].insn.l;
      ghost var n: nat := |c| + 1;
      assert code == WithLabel(c, i, l);
      while true
        invariant IsJump(c, i) && code == WithLabel(c, i, l) && Chain(c, i, l, n) == None
        invariant Last(c, i, l, n) == Last(c, i, c[i].insn.l, |c| + 1)
        decreases n
      {
        var d := Reached(code, code[i].insn.l);
        WithLabelReached(c, i, l, l);
        LastTurn(c, i, l, n);
        if d == NextInsn(code, i + 1) || d == i || !IsJump(code, d) || code[i].insn.l == code[d].insn.l { return; }
        l, n := code[d].insn.l, n - 1;
        code := code[i := Op(Jump(code[d].insn.l))];
      }
    }

    /** iseq_peephole_optimize on the instruction at i; answers where the pass goes on. */
    method PeepholeOptimize(i: nat) returns (next: nat)
      requires i < |code| && (IsJump(code, i) ==> Stops(code, i))
      modifies this
      ensures var mid := Settled(old(code), i); code == Rewritten(mid, i) && next == NextIndex(mid, i)
    {
      if IsJump(code, i) { ThreadJump(i); }
      next := i + 1;
      if IsJump(code, i) {
        next := RewriteJump(i);
      } else if IsBranch(code, i) {
        var d := Dest(code, i);
        if IsJump(code, d) {
          var l := code[d].insn.l;
          code := code[i := Op(if code[i].insn.BranchIf? then BranchIf(l) else BranchUnless(l))];
        }
      }
    }

    /** The cases for a jump that stays as it is in the loop */
    method RewriteJump(i: nat) returns (next: nat)
      requires IsJump(code, i)
      modifies this
      ensures code == Rewritten(old(code), i) && next == NextIndex(old(code), i)
    {
      ghost var c := code;
      next := i + 1;
      var d, n := Reached(code, code[i].insn.l), NextInsn(code, i + 1);
      if d == n {
        code, next := Removed(code, i), i;
      } else if d != i && IsJump(code, d) {
      } else if d < |code| && code[d] == Op(Leave) {
        code, next := WithPop(Leaving(code, i), i), i + 2;
      } else {
        var p := PrevInsn(code, i);
        if p.Some? && IsBranch(code, p.value) && n == Dest(code, p.value) {
          var l := code[i].insn.l;
          code := code[p.value := Op(if code[p.value].insn.BranchIf? then BranchUnless(l) else BranchIf(l))];
          code, next := Removed(code, i), i;
          assert code == Removed(Swapped(c, p.value, i), i);
        }
      }
    }

    /** The pass over the whole list.  It answers whether it comes to an end. */
    method Optimize() returns (ends: bool)
      modifies this
      ensures ends == PassEnds(old(code), 0)
      ensures ends ==> code == PassCode(old(code), 0)
    {
      ghost var c := code;
      var i: nat := 0;
      while i < |code|
        invariant i <= |code| && PassEnds(c, 0) == PassEnds(code, i) && PassCode(c, 0) == PassCode(code, i)
        decreases |code| - i
      {
        if code[i].Op? {
          if IsJump(code, i) {
            StopsSoon(code, i);
            if Chain(code, i, code[i].insn.l, |code| + 1).Some? { return false; }
          }
          Progress(Settled(code, i), i);
          i := PeepholeOptimize(i);
        } else {
          i := i + 1;
        }
      }
      ends := true;
    }
  }
}
