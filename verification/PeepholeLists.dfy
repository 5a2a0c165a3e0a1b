/** Peephole rewrites that change the length of the list: removal of a jump to the next
    instruction, and replacement of a jump to a leave. */
module PeepholeLists {
  import opened Options
  import opened JumpCode
  import opened Peephole

  /** REMOVE_ELEM */
  function Removed(c: Code, i: nat): Code
    requires i < |c|
  {
    c[..i] + c[i + 1..]
  }

  /** Where the element at x, or the one behind it if it is removed, stands afterwards */
  function Closer(i: nat, x: nat): nat {
    if x <= i then x else x - 1
  }

  function Farther(i: nat, y: nat): nat {
    if y < i then y else y + 1
  }

  lemma {:induction false} RemovedPos(c: Code, i: nat, l: nat)
    requires i < |c| && !c[i].Label?
    ensures Pos(Removed(c, i), l) == Closer(i, Pos(c, l)) && Pos(c, l) != i
    decreases |c|
  {
    if c[0] != Label(l) {
      if i == 0 {
        assert Removed(c, i) == c[1..];
      } else {
        assert Removed(c, i)[1..] == Removed(c[1..], i - 1);
        RemovedPos(c[1..], i - 1, l);
      }
    }
  }

  lemma RemovedAt(c: Code, i: nat, x: nat)
    requires i < |c| && !c[i].Label? && x != i
    ensures var c', y := Removed(c, i), Closer(i, x);
            && (x < |c| <==> y < |c'|) && (x < |c| ==> c'[y] == c[x])
            && Quiet(c', y).Some? == Quiet(c, x).Some?
            && (Quiet(c, x).Some? ==> Quiet(c', y).value == Closer(i, Quiet(c, x).value))
  {
    if IsJump(c, x) { RemovedPos(c, i, c[x].insn.l); }
  }

  /** The jump that is removed and the position behind it land together, in both lists. */
  lemma RemovedLands(c: Code, i: nat)
    requires IsJump(c, i) && Dest(c, i) == NextInsn(c, i + 1)
    ensures var c', p := Removed(c, i), Pos(c, c[i].insn.l);
            && p > i && Land(c, i) == Land(c, i + 1) == Land(c, p) && Land(c', i) == Land(c', Closer(i, p))
  {
    hide Land, Pos, NextInsn, Quiet;
    var c', p, n := Removed(c, i), Pos(c, c[i].insn.l), NextInsn(c, i + 1);
    QuietJump(c, i);
    LandStep(c, i);
    LandPastLabels(c, p, n);
    LandPastLabels(c, i + 1, n);
    LabelsShifted(c, i, i, n);
    LabelsShifted(c, i, p - 1, n);
    LandPastLabels(c', i, n - 1);
    LandPastLabels(c', p - 1, n - 1);
  }

  lemma QuietJump(c: Code, i: nat)
    requires IsJump(c, i)
    ensures Quiet(c, i) == Some(Pos(c, c[i].insn.l))
  {
  }

  /** Labels behind the removed element move up by one. */
  lemma LabelsShifted(c: Code, i: nat, a: nat, n: nat)
    requires i < |c| && i <= a < n <= |c| && forall k :: a + 1 <= k < n ==> c[k].Label?
    ensures forall k :: a <= k < n - 1 ==> Removed(c, i)[k].Label?
  {
    forall k | a <= k < n - 1
      ensures Removed(c, i)[k].Label?
    {
      assert Removed(c, i)[k] == c[k + 1];
    }
  }

  lemma RemovedSteps(c: Code, i: nat)
    requires IsJump(c, i) && Dest(c, i) == NextInsn(c, i + 1)
    ensures StepsMapped(c, Removed(c, i), (x: nat) => true, (x: nat) => Closer(i, x))
  {
    var c' := Removed(c, i);
    forall x: nat | Quiet(c, x).Some?
      ensures Land(c', Closer(i, x)) == Land(c', Closer(i, Quiet(c, x).value))
    {
      if x == i {
        RemovedLands(c, i);
      } else {
        RemovedAt(c, i, x);
        LandStep(c', Closer(i, x));
      }
    }
  }

  lemma RemovedBackAt(c: Code, i: nat, y: nat)
    requires IsJump(c, i) && Land(c, i) == Land(c, i + 1)
    ensures var c', x := Removed(c, i), Farther(i, y);
            && (Quiet(c', y).Some? ==> Land(c, x) == Land(c, Farther(i, Quiet(c', y).value)))
            && (Quiet(c', y) == None ==> Land(c, x) == Some(x))
  {
    hide Land;
    var x := Farther(i, y);
    assert Closer(i, x) == y;
    RemovedAt(c, i, x);
    hide Removed;
    if Quiet(c, x).Some? {
      LandStep(c, x);
      if IsJump(c, x) { RemovedPos(c, i, c[x].insn.l); }
    } else {
      LandHere(c, x);
    }
  }

  lemma RemovedStepsBack(c: Code, i: nat)
    requires IsJump(c, i) && Dest(c, i) == NextInsn(c, i + 1)
    ensures StepsMapped(Removed(c, i), c, (x: nat) => true, (y: nat) => Farther(i, y))
    ensures forall y: nat {:trigger Quiet(Removed(c, i), y)} ::
              Quiet(Removed(c, i), y) == None ==> Land(c, Farther(i, y)).Some?
  {
    hide Land, Removed;
    var c' := Removed(c, i);
    RemovedLands(c, i);
    forall y: nat
      ensures Quiet(c', y).Some? ==> Land(c, Farther(i, y)) == Land(c, Farther(i, Quiet(c', y).value))
      ensures Quiet(c', y) == None ==> Land(c, Farther(i, y)).Some?
    {
      RemovedBackAt(c, i, y);
    }
  }

  /** The same is done at q and at its image, and the runs go on at images. */
  lemma AgreeAt(c: Code, c': Code, d: nat -> bool, f: nat -> nat, q: nat)
    requires forall x :: d(x)
    requires (q < |c| <==> f(q) < |c'|) && (q < |c| ==> c'[f(q)] == c[q] && f(q + 1) == f(q) + 1)
    requires q < |c| && Target(c[q]).Some? ==> Pos(c', Target(c[q]).value) == f(Pos(c, Target(c[q]).value))
    ensures Agree(c, c', d, f, Some(q), Some(f(q)))
  {
    hide Land, Pos;
    if IsBranch(c, q) {
      forall b
        ensures Related(c, c', d, f, BranchTo(c, q, b), BranchTo(c', f(q), b))
      {
        RelatedSelf(c, c', d, f, BranchTo(c, q, b));
      }
    } else {
      RelatedSelf(c, c', d, f, q + 1);
    }
  }

  lemma RemovedAgree(c: Code, i: nat, q: nat)
    requires i < |c| && !c[i].Label? && q != i && Quiet(c, q) == None
    ensures Agree(c, Removed(c, i), (x: nat) => true, (x: nat) => Closer(i, x), Some(q), Some(Closer(i, q)))
  {
    hide Agree, Land;
    RemovedAt(c, i, q);
    if q < |c| && Target(c[q]).Some? { RemovedPos(c, i, Target(c[q]).value); }
    AgreeAt(c, Removed(c, i), (x: nat) => true, (x: nat) => Closer(i, x), q);
  }

  lemma RemovedLandsAgree(c: Code, i: nat, x: nat)
    requires IsJump(c, i) && Dest(c, i) == NextInsn(c, i + 1)
    ensures var c' := Removed(c, i);
            Agree(c, c', (x: nat) => true, (x: nat) => Closer(i, x), Land(c, x), Land(c', Closer(i, x)))
  {
    hide Land;
    var c', d, f, g := Removed(c, i), (x: nat) => true, (x: nat) => Closer(i, x), (y: nat) => Farther(i, y);
    RemovedSteps(c, i);
    RemovedStepsBack(c, i);
    RemovedLands(c, i);
    assert x != i ==> g(f(x)) == x;
    Transport(c, c', d, f, d, g, x);
    if Land(c, x).Some? {
      var q := Land(c, x).value;
      RemovedAt(c, i, q);
      LandHere(c', f(q));
      RemovedAgree(c, i, q);
    }
  }

  /** Removing a jump to the next instruction keeps the run from everywhere. */
  lemma RemovedTrace(c: Code, i: nat, vm: Vm, x: nat, m: Mach, k: nat)
    requires IsJump(c, i) && Dest(c, i) == NextInsn(c, i + 1)
    ensures Trace(Removed(c, i), vm, Closer(i, x), m, k) == Trace(c, vm, x, m, k)
  {
    hide Land, Agree, Trace, Removed, Closer;
    var c', d, f := Removed(c, i), (x: nat) => true, (x: nat) => Closer(i, x);
    forall x: nat
      ensures Agree(c, c', d, f, Land(c, x), Land(c', f(x)))
    {
      RemovedLandsAgree(c, i, x);
    }
    RelatedSelf(c, c', d, f, x);
    SameTrace(c, c', d, f, vm, x, f(x), m, k);
  }

  /** So it keeps the runs from the beginning and from every label. */
  lemma RemovedRuns(c: Code, i: nat, entries: set<nat>)
    requires IsJump(c, i) && Dest(c, i) == NextInsn(c, i + 1)
    ensures SameRuns(c, Removed(c, i), entries)
  {
    hide Trace, Removed, Dest, Pos;
    var c' := Removed(c, i);
    forall vm, m, k
      ensures Trace(c, vm, 0, m, k) == Trace(c', vm, 0, m, k)
    {
      RemovedTrace(c, i, vm, 0, m, k);
    }
    forall vm, l, m, k | l in entries
      ensures Trace(c, vm, Pos(c, l), m, k) == Trace(c', vm, Pos(c', l), m, k)
    {
      RemovedPos(c, i, l);
      RemovedTrace(c, i, vm, Pos(c, l), m, k);
    }
  }

  // A jump to a leave

  /** Jump i, whose destination is a leave, becomes a leave itself. */
  function Leaving(c: Code, i: nat): Code
    requires i < |c|
  {
    c[i := Op(Leave)]
  }

  predicate JumpsToLeave(c: Code, i: nat) {
    IsJump(c, i) && Dest(c, i) < |c| && c[Dest(c, i)] == Op(Leave)
  }

  lemma LeavingAt(c: Code, i: nat, x: nat)
    requires JumpsToLeave(c, i) && x != i
    ensures Quiet(Leaving(c, i), x) == Quiet(c, x)
  {
    if IsJump(c, x) { PosKept(c, Leaving(c, i), c[x].insn.l); }
  }

  /** The landings are the same, or both are a leave. */
  ghost predicate BothLeave(c: Code, i: nat, x: nat)
    requires JumpsToLeave(c, i)
  {
    var c' := Leaving(c, i);
    Land(c', x) == Land(c, x) || (Land(c, x) == Some(Dest(c, i)) && Land(c', x) == Some(i))
  }

  lemma LeavingHere(c: Code, i: nat)
    requires JumpsToLeave(c, i)
    ensures Land(c, i) == Some(Dest(c, i)) && Land(Leaving(c, i), i) == Some(i)
  {
    LandStep(c, i);
    LandPastLabels(c, Pos(c, c[i].insn.l), Dest(c, i));
    LandHere(c, Dest(c, i));
    LandHere(Leaving(c, i), i);
  }

  lemma {:induction false} LeavingLands(c: Code, i: nat, x: nat, n: nat)
    requires JumpsToLeave(c, i)
    requires Quiet(c, After(c, x, n)) == None || Quiet(Leaving(c, i), After(Leaving(c, i), x, n)) == None
    ensures BothLeave(c, i, x) && Land(c, x).Some? && Quiet(c, Land(c, x).value) == None
    decreases n
  {
    hide Land;
    var c' := Leaving(c, i);
    if x == i {
      LeavingHere(c, i);
    } else {
      LeavingAt(c, i, x);
      if Quiet(c, x) == None {
        LandHere(c, x);
        LandHere(c', x);
      } else {
        LandStep(c, x);
        LandStep(c', x);
        LeavingLands(c, i, Quiet(c, x).value, n - 1);
      }
    }
  }

  lemma LeavingLand(c: Code, i: nat, x: nat)
    requires JumpsToLeave(c, i)
    ensures BothLeave(c, i, x) && (Land(c, x).Some? ==> Quiet(c, Land(c, x).value) == None)
  {
    if n: nat :| Quiet(c, After(c, x, n)) == None {
      LeavingLands(c, i, x, n);
    } else if n: nat :| Quiet(Leaving(c, i), After(Leaving(c, i), x, n)) == None {
      LeavingLands(c, i, x, n);
    }
  }

  lemma LeavingRuns(c: Code, i: nat, entries: set<nat>)
    requires JumpsToLeave(c, i)
    ensures SameRuns(c, Leaving(c, i), entries)
  {
    hide Land;
    var c', d, f := Leaving(c, i), (x: nat) => true, (x: nat) => x;
    forall l
      ensures Pos(c', l) == Pos(c, l)
    {
      PosKept(c, c', l);
    }
    forall x: nat
      ensures Agree(c, c', d, f, Land(c, x), Land(c', f(x)))
    {
      LeavingLand(c, i, x);
      if Land(c, x).Some? && Land(c', x) == Land(c, x) {
        var q := Land(c, x).value;
        if IsBranch(c, q) {
          forall b
            ensures Related(c, c', d, f, BranchTo(c, q, b), BranchTo(c', q, b))
          {
            RelatedSelf(c, c', d, f, BranchTo(c, q, b));
          }
        } else {
          RelatedSelf(c, c', d, f, q + 1);
        }
      }
    }
    RunsByAgreement(c, c', d, f, entries);
  }

  /** INSERT_ELEM_NEXT of a pop behind the leave at i, where no run comes */
  function WithPop(c: Code, i: nat): Code
    requires i < |c|
  {
    c[..i + 1] + [Op(Pop)] + c[i + 1..]
  }

  /** Removing the pop again gives the list back. */
  lemma WithPopRemoved(c: Code, i: nat)
    requires i < |c|
    ensures Removed(WithPop(c, i), i + 1) == c
  {
  }

  function Opened(i: nat, x: nat): nat {
    if x <= i then x else x + 1
  }

  lemma WithPopAt(c: Code, i: nat, x: nat)
    requires i < |c| && c[i] == Op(Leave)
    ensures var c', y := WithPop(c, i), Opened(i, x);
            && (x < |c| <==> y < |c'|) && (x < |c| ==> c'[y] == c[x])
            && Quiet(c', y).Some? == Quiet(c, x).Some?
            && (Quiet(c, x).Some? ==> Quiet(c', y).value == Opened(i, Quiet(c, x).value))
  {
    hide Pos;
    if IsJump(c, x) { WithPopPos(c, i, c[x].insn.l); }
  }

  lemma WithPopPos(c: Code, i: nat, l: nat)
    requires i < |c| && c[i] == Op(Leave)
    ensures Pos(WithPop(c, i), l) == Opened(i, Pos(c, l))
  {
    WithPopRemoved(c, i);
    RemovedPos(WithPop(c, i), i + 1, l);
  }

  lemma {:induction false} WithPopAfter(c: Code, i: nat, x: nat, n: nat)
    requires i < |c| && c[i] == Op(Leave)
    ensures After(WithPop(c, i), Opened(i, x), n) == Opened(i, After(c, x, n))
    decreases n
  {
    WithPopAt(c, i, x);
    if n > 0 && Quiet(c, x).Some? { WithPopAfter(c, i, Quiet(c, x).value, n - 1); }
  }

  lemma WithPopLand(c: Code, i: nat, x: nat)
    requires i < |c| && c[i] == Op(Leave)
    ensures Land(WithPop(c, i), Opened(i, x)) == (if Land(c, x).None? then None else Some(Opened(i, Land(c, x).value)))
    ensures Land(c, x).Some? ==> Quiet(c, Land(c, x).value) == None
  {
    var c', y := WithPop(c, i), Opened(i, x);
    forall n: nat
      ensures After(c', y, n) == Opened(i, After(c, x, n))
      ensures Quiet(c', After(c', y, n)).None? == Quiet(c, After(c, x, n)).None?
    {
      WithPopAfter(c, i, x, n);
      WithPopAt(c, i, After(c, x, n));
    }
    if n: nat :| Quiet(c, After(c, x, n)) == None {
      LandIs(c, x, n);
      LandIs(c', y, n);
    }
  }

  lemma WithPopRuns(c: Code, i: nat, entries: set<nat>)
    requires i < |c| && c[i] == Op(Leave)
    ensures SameRuns(c, WithPop(c, i), entries)
  {
    hide Land;
    var c', d, f := WithPop(c, i), (x: nat) => true, (x: nat) => Opened(i, x);
    forall x: nat
      ensures Agree(c, c', d, f, Land(c, x), Land(c', f(x)))
    {
      WithPopLand(c, i, x);
      if Land(c, x) == Some(i) {
        WithPopLeaves(c, i);
      } else if Land(c, x).Some? {
        WithPopAgree(c, i, Land(c, x).value);
      }
    }
    forall l
      ensures f(Pos(c, l)) == Pos(c', l)
    {
      WithPopPos(c, i, l);
    }
    RunsByAgreement(c, c', d, f, entries);
  }

  lemma WithPopAgree(c: Code, i: nat, q: nat)
    requires i < |c| && c[i] == Op(Leave) && q != i && Quiet(c, q) == None
    ensures Agree(c, WithPop(c, i), (x: nat) => true, (x: nat) => Opened(i, x), Some(q), Some(Opened(i, q)))
  {
    hide Agree, Land;
    WithPopAt(c, i, q);
    if q < |c| && Target(c[q]).Some? { WithPopPos(c, i, Target(c[q]).value); }
    AgreeAt(c, WithPop(c, i), (x: nat) => true, (x: nat) => Opened(i, x), q);
  }

  lemma WithPopLeaves(c: Code, i: nat)
    requires i < |c| && c[i] == Op(Leave)
    ensures Agree(c, WithPop(c, i), (x: nat) => true, (x: nat) => Opened(i, x), Some(i), Some(Opened(i, i)))
  {
    hide Land;
    WithPopAt(c, i, i);
  }
}
