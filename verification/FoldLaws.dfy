/** What folding a branch with the jump behind it does to runs that come in between the two. */
module FoldLaws {
  import opened Options
  import opened JumpCode
  import opened Peephole
  import opened PeepholeLists
  import opened JumpLoop
  import opened PeepholePass

  // Lists that differ in the quiet step from one position

  /** Quiet steps from x come to i. */
  ghost predicate ComesTo(c: Code, x: nat, i: nat) {
    exists n: nat :: After(c, x, n) == i
  }

  /** From x the lists part at i, or never. */
  lemma {:induction false} PartAt(c: Code, c': Code, i: nat, x: nat, n: nat)
    requires forall y: nat :: y != i ==> Quiet(c', y) == Quiet(c, y)
    requires After(c, x, n) == i
    ensures Land(c, x) == Land(c, i) && Land(c', x) == Land(c', i)
    decreases n
  {
    hide Land, Quiet;
    if x != i {
      assert n > 0 && Quiet(c, x).Some? && Quiet(c', x) == Quiet(c, x);
      LandStep(c, x);
      LandStep(c', x);
      PartAt(c, c', i, Quiet(c, x).value, n - 1);
    }
  }

  lemma {:induction false} NeverPart(c: Code, c': Code, i: nat, x: nat, n: nat)
    requires forall y: nat :: y != i ==> Quiet(c', y) == Quiet(c, y)
    requires !ComesTo(c, x, i)
    ensures After(c', x, n) == After(c, x, n) != i
    decreases n
  {
    hide Quiet;
    assert After(c, x, 0) == x && After(c, x, n) != i;
    if n > 0 && Quiet(c, x).Some? {
      var y := Quiet(c, x).value;
      forall k: nat
        ensures After(c, y, k) != i
      {
        assert After(c, x, k + 1) == After(c, y, k);
      }
      NeverPart(c, c', i, y, n - 1);
    }
  }

  lemma PartedLand(c: Code, c': Code, i: nat, x: nat)
    requires forall y: nat :: y != i ==> Quiet(c', y) == Quiet(c, y)
    ensures if ComesTo(c, x, i) then Land(c, x) == Land(c, i) && Land(c', x) == Land(c', i)
            else Land(c', x) == Land(c, x) && Land(c, x) != Some(i)
  {
    if n: nat :| After(c, x, n) == i {
      PartAt(c, c', i, x, n);
    } else {
      hide Quiet, After;
      forall n: nat
        ensures After(c', x, n) == After(c, x, n) != i && Quiet(c', After(c', x, n)) == Quiet(c, After(c, x, n))
      {
        NeverPart(c, c', i, x, n);
      }
      if n: nat :| Quiet(c, After(c, x, n)) == None {
        LandIs(c, x, n);
        LandIs(c', x, n);
      }
    }
  }

  // Quiet circles

  lemma {:induction false} AfterAdd(c: Code, x: nat, n: nat, k: nat)
    ensures After(c, x, n + k) == After(c, After(c, x, n), k)
    decreases n
  {
    if n > 0 {
      if Quiet(c, x).Some? { AfterAdd(c, Quiet(c, x).value, n - 1, k); }
    }
  }

  lemma {:induction false} AroundAgain(c: Code, x: nat, n: nat, k: nat)
    requires n > 0 && After(c, x, n) == x && Quiet(c, x).Some?
    ensures Quiet(c, After(c, x, k)).Some?
    decreases k
  {
    if k <= n {
      if Quiet(c, After(c, x, k)) == None { AfterStays(c, x, k, n - k); }
    } else {
      AfterAdd(c, x, n, k - n);
      AroundAgain(c, x, n, k - n);
    }
  }

  /** Quiet steps that come back to where they began never land. */
  lemma CircleNeverLands(c: Code, x: nat, n: nat)
    requires n > 0 && After(c, x, n) == x && Quiet(c, x).Some?
    ensures Land(c, x) == None
  {
    forall k: nat
      ensures Quiet(c, After(c, x, k)).Some?
    {
      AroundAgain(c, x, n, k);
    }
  }

  lemma {:induction false} PastLabels(c: Code, x: nat, q: nat)
    requires x <= q <= |c| && forall k :: x <= k < q ==> c[k].Label?
    ensures After(c, x, q - x) == q
    decreases q - x
  {
    if x < q { PastLabels(c, x + 1, q); }
  }

  /** Quiet steps that get to i come past the labels where they begin. */
  lemma {:induction false} BehindLabels(c: Code, x: nat, q: nat, i: nat, n: nat)
    requires x <= q <= |c| && (forall k :: x <= k < q ==> c[k].Label?) && i < x && After(c, x, n) == i
    ensures n > q - x && After(c, q, n - (q - x)) == i
    decreases q - x
  {
    assert n > 0;
    if x < q { BehindLabels(c, x + 1, q, i, n - 1); }
  }

  // The fold

  /** Branch b is folded with jump i. */
  predicate Folding(c: Code, b: nat, i: nat) {
    && b < i && IsBranch(c, b) && IsJump(c, i) && (forall k :: b < k < i ==> c[k].Label?)
    && Dest(c, b) == NextInsn(c, i + 1)
  }

  lemma CaseFolding(c: Code, i: nat)
    requires i < |c| && CaseOf(c, i).Fold?
    ensures Folding(c, CaseOf(c, i).b, i)
  {
    hide NextInsn, Pos, PrevInsn;
  }

  lemma SwappedQuiet(c: Code, b: nat, i: nat, y: nat)
    requires Folding(c, b, i) && y != i
    ensures Quiet(Swapped(c, b, i), y) == Quiet(c, y)
  {
    hide NextInsn, Pos;
    if IsJump(c, y) { PosKept(c, Swapped(c, b, i), c[y].insn.l); }
  }

  lemma SwappedDest(c: Code, b: nat, i: nat)
    requires Folding(c, b, i)
    ensures var c1 := Swapped(c, b, i);
            && IsJump(c1, i) && IsBranch(c1, b) && c1[i].insn.l == c[b].insn.l && c1[b].insn.l == c[i].insn.l
            && c1[b].insn.BranchIf? == !c[b].insn.BranchIf?
            && Dest(c1, i) == NextInsn(c1, i + 1) == NextInsn(c, i + 1)
    ensures forall l {:trigger Pos(c, l)} :: Pos(Swapped(c, b, i), l) == Pos(c, l)
  {
    hide NextInsn, Pos;
    var c1 := Swapped(c, b, i);
    forall l
      ensures Pos(c1, l) == Pos(c, l)
    {
      PosKept(c, c1, l);
    }
    NextKept(c, c1, Pos(c, c[b].insn.l));
    NextKept(c, c1, i + 1);
  }

  lemma SwappedBetween(c: Code, b: nat, i: nat)
    requires b < i && IsBranch(c, b) && IsJump(c, i) && (forall k :: b < k < i ==> c[k].Label?)
    ensures |Swapped(c, b, i)| == |c| && forall k :: b < k < i ==> Swapped(c, b, i)[k].Label?
  {
  }

  /** Where runs land that come to the branch or to the jump */
  lemma FoldLands(c: Code, b: nat, i: nat)
    requires Folding(c, b, i)
    ensures var c1 := Swapped(c, b, i);
            && Land(c, b + 1) == Land(c, i) == Land(c, Pos(c, c[i].insn.l))
            && Land(c1, b + 1) == Land(c1, i) == Land(c1, i + 1)
            && Land(c, Pos(c, c[b].insn.l)) == Land(c, i + 1)
  {
    hide NextInsn, Pos, Land, Quiet, Swapped;
    var c1, n := Swapped(c, b, i), NextInsn(c, i + 1);
    SwappedDest(c, b, i);
    SwappedBetween(c, b, i);
    LandPastLabels(c, b + 1, i);
    LandPastLabels(c1, b + 1, i);
    QuietJump(c, i);
    LandStep(c, i);
    RemovedLands(c1, i);
    LandPastLabels(c, i + 1, n);
    LandPastLabels(c, Pos(c, c[b].insn.l), n);
  }

  /** Steps from behind the jump that come back to it never land once the jump leads there. */
  lemma FoldCircle(c: Code, b: nat, i: nat)
    requires Folding(c, b, i) && ComesTo(c, i + 1, i)
    ensures Land(Swapped(c, b, i), i) == None
  {
    hide NextInsn, Pos, Land, Quiet, After;
    var c1, n, q := Swapped(c, b, i), NextInsn(c, i + 1), Pos(c, c[b].insn.l);
    SwappedDest(c, b, i);
    ComesBack(c, b, i);
    var k: nat :| After(c1, i + 1, k) == i;
    BehindLabels(c1, i + 1, n, i, k);
    PastLabels(c1, q, n);
    QuietJump(c1, i);
    FromJump(c1, i, q, n - q);
    AfterAdd(c1, i, n - q + 1, k - (n - (i + 1)));
    CircleNeverLands(c1, i, n - q + 1 + (k - (n - (i + 1))));
  }

  lemma FromJump(c: Code, i: nat, q: nat, k: nat)
    requires Quiet(c, i) == Some(q)
    ensures After(c, i, k + 1) == After(c, q, k)
  {
  }

  lemma ComesBack(c: Code, b: nat, i: nat)
    requires Folding(c, b, i) && ComesTo(c, i + 1, i)
    ensures ComesTo(Swapped(c, b, i), i + 1, i)
  {
    hide NextInsn, Pos, Quiet, After;
    var c1 := Swapped(c, b, i);
    forall y: nat | y != i
      ensures Quiet(c1, y) == Quiet(c, y)
    {
      SwappedQuiet(c, b, i, y);
    }
    var n: nat :| After(c, i + 1, n) == i;
    if !ComesTo(c1, i + 1, i) { NeverPart(c1, c, i, i + 1, n); }
  }

  lemma FoldPart(c: Code, b: nat, i: nat, x: nat)
    requires Folding(c, b, i)
    ensures var c1 := Swapped(c, b, i);
            if ComesTo(c, x, i) then Land(c, x) == Land(c, i) && Land(c1, x) == Land(c1, i)
            else Land(c1, x) == Land(c, x) && Land(c, x) != Some(i)
  {
    hide Quiet, Land, ComesTo;
    var c1 := Swapped(c, b, i);
    forall y: nat | y != i
      ensures Quiet(c1, y) == Quiet(c, y)
    {
      SwappedQuiet(c, b, i, y);
    }
    PartedLand(c, c1, i, x);
  }

  /** From x both lists show the same k events. */
  ghost predicate Level(c: Code, c': Code, vm: Vm, k: nat) {
    forall x: nat, m {:trigger Trace(c, vm, x, m, k)} :: Trace(c, vm, x, m, k) == Trace(c', vm, x, m, k)
  }

  lemma BranchLevel(c: Code, b: nat, i: nat, vm: Vm, m: Mach, k: nat, t: bool)
    requires Folding(c, b, i) && Level(c, Swapped(c, b, i), vm, k)
    ensures var c1 := Swapped(c, b, i);
            && IsBranch(c1, b)
            && Trace(c, vm, BranchTo(c, b, t), m, k) == Trace(c1, vm, BranchTo(c1, b, t), m, k)
  {
    hide NextInsn, Pos, Land, Trace;
    var c1, q := Swapped(c, b, i), Pos(c, c[i].insn.l);
    SwappedDest(c, b, i);
    FoldLands(c, b, i);
    if t == c[b].insn.BranchIf? {
      TraceLand(c, vm, BranchTo(c, b, t), i + 1, m, k);
      TraceLand(c1, vm, b + 1, i + 1, m, k);
    } else {
      TraceLand(c, vm, b + 1, q, m, k);
    }
  }

  /** One more event, from where the lists do not part */
  lemma StepLevel(c: Code, b: nat, i: nat, vm: Vm, x: nat, m: Mach, k: nat)
    requires Folding(c, b, i) && k > 0 && Level(c, Swapped(c, b, i), vm, k - 1) && !ComesTo(c, x, i)
    ensures Trace(c, vm, x, m, k) == Trace(Swapped(c, b, i), vm, x, m, k)
  {
    hide NextInsn, Pos, Land, ComesTo, Level;
    var c1 := Swapped(c, b, i);
    FoldPart(c, b, i, x);
    if Land(c, x).Some? {
      var q := Land(c, x).value;
      if q == b {
        BranchIsThere(c, b, i);
        BranchLevel(c, b, i, vm, Dropped(m), k - 1, Test(vm, m));
      } else {
        SameElem(c, b, i, q);
        NextLevel(c, b, i, vm, q, m, k - 1);
      }
    }
  }

  lemma BranchIsThere(c: Code, b: nat, i: nat)
    requires Folding(c, b, i)
    ensures IsBranch(c, b) && IsBranch(Swapped(c, b, i), b)
  {
    hide NextInsn, Pos;
  }

  lemma SameElem(c: Code, b: nat, i: nat, q: nat)
    requires Folding(c, b, i) && q != b && q != i
    ensures var c1 := Swapped(c, b, i); |c1| == |c| && (q < |c| ==> c1[q] == c[q])
  {
    hide NextInsn, Pos;
  }

  lemma NextLevel(c: Code, b: nat, i: nat, vm: Vm, q: nat, m: Mach, k: nat)
    requires Folding(c, b, i) && q != b && q != i && Level(c, Swapped(c, b, i), vm, k)
    ensures var c1 := Swapped(c, b, i);
            && IsBranch(c1, q) == IsBranch(c, q)
            && (IsBranch(c, q) ==> var p, p' := BranchTo(c, q, Test(vm, m)), BranchTo(c1, q, Test(vm, m));
                                   Trace(c, vm, p, Dropped(m), k) == Trace(c1, vm, p', Dropped(m), k))
            && (q < |c| ==> Trace(c, vm, q + 1, Do(vm, c[q], m), k) == Trace(c1, vm, q + 1, Do(vm, c[q], m), k))
  {
    hide NextInsn, Pos, Trace, Do, Test, Dropped;
    SwappedDest(c, b, i);
    SameElem(c, b, i, q);
  }

  /** Where jump i leads and what is behind it are alike: runs are the same from both, and if one gets
      from behind the jump to the jump unseen, then the jump leads nowhere. */
  ghost predicate Alike(c: Code, i: nat)
    requires IsJump(c, i)
  {
    && (forall vm, m, k {:trigger Trace(c, vm, i + 1, m, k)} ::
          Trace(c, vm, Pos(c, c[i].insn.l), m, k) == Trace(c, vm, i + 1, m, k))
    && (ComesTo(c, i + 1, i) ==> Land(c, i) == None)
  }

  lemma {:induction false} AlikeLevel(c: Code, b: nat, i: nat, vm: Vm, k: nat)
    requires Folding(c, b, i) && Alike(c, i)
    ensures Level(c, Swapped(c, b, i), vm, k)
    decreases k
  {
    hide NextInsn, Pos, Land, ComesTo, Trace;
    var c1 := Swapped(c, b, i);
    if k == 0 {
      NoEvents(c, c1, vm);
    } else {
      AlikeLevel(c, b, i, vm, k - 1);
      forall x: nat, m
        ensures Trace(c, vm, x, m, k) == Trace(c1, vm, x, m, k)
      {
        AlikeTrace(c, b, i, vm, x, m, k);
      }
    }
  }

  lemma NoEvents(c: Code, c': Code, vm: Vm)
    ensures Level(c, c', vm, 0)
  {
  }

  lemma AlikeTrace(c: Code, b: nat, i: nat, vm: Vm, x: nat, m: Mach, k: nat)
    requires Folding(c, b, i) && Alike(c, i) && k > 0 && Level(c, Swapped(c, b, i), vm, k - 1)
    ensures Trace(c, vm, x, m, k) == Trace(Swapped(c, b, i), vm, x, m, k)
  {
    hide NextInsn, Pos, Land, ComesTo, Trace, Level;
    var c1 := Swapped(c, b, i);
    if ComesTo(c, x, i) {
      FoldPart(c, b, i, x);
      FoldLands(c, b, i);
      TraceLand(c, vm, x, Pos(c, c[i].insn.l), m, k);
      TraceLand(c1, vm, x, i + 1, m, k);
      if ComesTo(c, i + 1, i) {
        FoldCircle(c, b, i);
        Diverges(c, c1, vm, x, m, k);
      } else {
        StepLevel(c, b, i, vm, i + 1, m, k);
      }
    } else {
      StepLevel(c, b, i, vm, x, m, k);
    }
  }

  lemma Diverges(c: Code, c': Code, vm: Vm, x: nat, m: Mach, k: nat)
    requires Land(c, x) == None && Land(c', x) == None
    ensures Trace(c, vm, x, m, k) == Trace(c', vm, x, m, k)
  {
  }

  /** Runs from where the jump leads are those from behind it in the list with the labels exchanged. */
  ghost predicate Joined(c: Code, b: nat, i: nat)
    requires IsBranch(c, b) && IsJump(c, i)
  {
    forall vm, m, k {:trigger Trace(c, vm, Pos(c, c[i].insn.l), m, k)} ::
      Trace(c, vm, Pos(c, c[i].insn.l), m, k) == Trace(Swapped(c, b, i), vm, i + 1, m, k)
  }

  lemma {:induction false} JoinedLevel(c: Code, b: nat, i: nat, vm: Vm, k: nat)
    requires Folding(c, b, i) && Joined(c, b, i)
    ensures Level(c, Swapped(c, b, i), vm, k)
    decreases k
  {
    hide NextInsn, Pos, Land, ComesTo, Trace;
    var c1 := Swapped(c, b, i);
    if k == 0 {
      NoEvents(c, c1, vm);
    } else {
      JoinedLevel(c, b, i, vm, k - 1);
      forall x: nat, m
        ensures Trace(c, vm, x, m, k) == Trace(c1, vm, x, m, k)
      {
        if ComesTo(c, x, i) {
          FoldPart(c, b, i, x);
          FoldLands(c, b, i);
          TraceLand(c, vm, x, Pos(c, c[i].insn.l), m, k);
          TraceLand(c1, vm, x, i + 1, m, k);
        } else {
          StepLevel(c, b, i, vm, x, m, k);
        }
      }
    }
  }

  lemma JoinedAlike(c: Code, b: nat, i: nat)
    requires Folding(c, b, i) && Joined(c, b, i)
    ensures Alike(c, i)
  {
    hide NextInsn, Pos, Land, ComesTo, Trace;
    var c1, q := Swapped(c, b, i), Pos(c, c[i].insn.l);
    forall vm, m, k
      ensures Trace(c, vm, q, m, k) == Trace(c, vm, i + 1, m, k)
    {
      JoinedLevel(c, b, i, vm, k);
    }
    if ComesTo(c, i + 1, i) {
      FoldCircle(c, b, i);
      FoldLands(c, b, i);
      var store: Store :| true;
      var m := Mach(store, []);
      var vm := Vm((id: nat, m: Mach) => m, (v: Value) => true);
      assert Trace(c, vm, q, m, 1) == Trace(c1, vm, i + 1, m, 1);
      DivergesOnly(c1, vm, i + 1, m);
      DivergesOnly(c, vm, q, m);
    }
  }

  lemma DivergesOnly(c: Code, vm: Vm, x: nat, m: Mach)
    ensures Trace(c, vm, x, m, 1) == [Diverged(m)] <==> Land(c, x) == None
  {
    var t := Trace(c, vm, x, m, 1);
    assert t != [] && (t[0] == Diverged(m) <==> Land(c, x) == None);
  }

  lemma AlikeRuns(c: Code, i: nat, entries: set<nat>)
    requires i < |c| && CaseOf(c, i).Fold? && Alike(c, i)
    ensures SameRuns(c, Rewritten(c, i), entries)
  {
    hide NextInsn, Pos, PrevInsn, Trace, Alike;
    var b := CaseOf(c, i).b;
    CaseFolding(c, i);
    var c1, c' := Swapped(c, b, i), Rewritten(c, i);
    SwappedDest(c, b, i);
    forall vm, m, k
      ensures Trace(c, vm, 0, m, k) == Trace(c1, vm, 0, m, k)
    {
      AlikeLevel(c, b, i, vm, k);
    }
    forall vm, l, m, k | l in entries
      ensures Trace(c, vm, Pos(c, l), m, k) == Trace(c1, vm, Pos(c1, l), m, k)
    {
      AlikeLevel(c, b, i, vm, k);
    }
    assert SameRuns(c, c1, entries);
    RemovedRuns(c1, i, entries);
    SameRunsTrans(c, c1, c', entries);
  }

  /** What a fold does to every label it passes: runs from there went where the jump leads, and then
      go on behind the jump. */
  lemma FoldedLabel(c: Code, i: nat, l: nat, vm: Vm, m: Mach, k: nat)
    requires i < |c| && CaseOf(c, i).Fold? && CaseOf(c, i).b < Pos(c, l) < i
    ensures var c' := Rewritten(c, i);
            && Trace(c, vm, Pos(c, l), m, k) == Trace(c, vm, Pos(c, c[i].insn.l), m, k)
            && Trace(c', vm, Pos(c', l), m, k) == Trace(c', vm, i, m, k)
  {
    hide Land, Trace, NextInsn, PrevInsn;
    var b, p, c' := CaseOf(c, i).b, Pos(c, l), Rewritten(c, i);
    assert forall x :: 0 <= x < i && x != b ==> c'[x] == c[x];
    assert c'[b].Op? && c'[p] == Label(l);
    assert Pos(c', l) == p;
    LandPastLabels(c, p, i);
    LandStep(c, i);
    TraceLand(c, vm, p, Pos(c, c[i].insn.l), m, k);
    LandPastLabels(c', p, i);
    TraceLand(c', vm, p, i, m, k);
  }

  lemma BehindFold(c: Code, i: nat, vm: Vm, m: Mach, k: nat)
    requires i < |c| && CaseOf(c, i).Fold? && Folding(c, CaseOf(c, i).b, i)
    ensures Trace(Rewritten(c, i), vm, i, m, k) == Trace(Swapped(c, CaseOf(c, i).b, i), vm, i + 1, m, k)
  {
    hide NextInsn, Pos, PrevInsn, Trace, Swapped, Removed, CaseOf;
    var b := CaseOf(c, i).b;
    SwappedDest(c, b, i);
    RemovedTrace(Swapped(c, b, i), i, vm, i + 1, m, k);
  }

  lemma EntryJoined(c: Code, i: nat, entries: set<nat>, l: nat)
    requires i < |c| && CaseOf(c, i).Fold? && SameRuns(c, Rewritten(c, i), entries)
    requires l in entries && CaseOf(c, i).b < Pos(c, l) < i
    ensures Folding(c, CaseOf(c, i).b, i) && Joined(c, CaseOf(c, i).b, i)
  {
    CaseFolding(c, i);
    hide NextInsn, Pos, PrevInsn, Trace, Rewritten, Dest, CaseOf;
    var b, c' := CaseOf(c, i).b, Rewritten(c, i);
    forall vm, m, k
      ensures Trace(c, vm, Pos(c, c[i].insn.l), m, k) == Trace(Swapped(c, b, i), vm, i + 1, m, k)
    {
      FoldedLabel(c, i, l, vm, m, k);
      BehindFold(c, i, vm, m, k);
      assert Trace(c, vm, Pos(c, l), m, k) == Trace(c', vm, Pos(c', l), m, k);
    }
  }

  /** Labels that jump i's fold passes and that something refers to are entries. */
  predicate UsesSeen(c: Code, i: nat, entries: set<nat>)
    requires i < |c| && CaseOf(c, i).Fold?
  {
    forall j, p :: 0 <= j < |c| && CaseOf(c, i).b < p < i && c[p].Label? && Target(c[j]) == Some(c[p].name) ==>
                     c[p].name in entries
  }

  /** Exactly when a fold keeps the runs: it passes no label that is used, or where the jump leads and
      what is behind it are alike. */
  lemma FoldRunsIff(c: Code, i: nat, entries: set<nat>)
    requires i < |c| && Good(c, entries) && CaseOf(c, i).Fold?
    ensures SafeFold(c, i, entries) || Alike(c, i) ==> SameRuns(c, Rewritten(c, i), entries)
    ensures UsesSeen(c, i, entries) && SameRuns(c, Rewritten(c, i), entries) ==> SafeFold(c, i, entries) || Alike(c, i)
  {
    hide NextInsn, Pos, PrevInsn, Alike, SameRuns, Joined, Rewritten;
    var b := CaseOf(c, i).b;
    CaseFolding(c, i);
    if SafeFold(c, i, entries) {
      RewrittenRuns(c, i, entries);
    } else if Alike(c, i) {
      AlikeRuns(c, i, entries);
    } else if UsesSeen(c, i, entries) && SameRuns(c, Rewritten(c, i), entries) {
      var p :| b < p < i && c[p].Label? && c[p].name in entries;
      LabelStands(c, p);
      EntryJoined(c, i, entries, c[p].name);
      JoinedAlike(c, b, i);
    }
  }

  // A fold that changes runs

  predicate FoldCode(c: Code) {
    && |c| == 8 && c[0] == Op(BranchUnless(1)) && c[1] == Label(0) && c[2] == Op(Jump(2)) && c[3] == Label(1)
    && c[4] == Op(Other(7)) && c[5] == Op(Jump(0)) && c[6] == Label(2) && c[7] == Op(Other(8))
  }

  lemma FoldPlaces(c: Code)
    requires FoldCode(c)
    ensures Pos(c, 0) == 1 && Pos(c, 1) == 3 && Pos(c, 2) == 6
    ensures Reached(c, 1) == 4 && Reached(c, 2) == 7 && NextInsn(c, 3) == 4 && PrevInsn(c, 2) == Some(0)
  {
    hide Pos, NextInsn;
    assert PrevInsn(c, 1) == Some(0);
  }

  lemma FoldGood(c: Code)
    requires FoldCode(c)
    ensures Good(c, {})
  {
    FoldPlaces(c);
    hide Pos, NextInsn, PrevInsn;
  }

  lemma FoldCase(c: Code)
    requires FoldCode(c)
    ensures CaseOf(c, 2) == Fold(0)
    ensures Rewritten(c, 2) ==
            [Op(BranchIf(2)), Label(0), Label(1), Op(Other(7)), Op(Jump(0)), Label(2), Op(Other(8))]
  {
    FoldPlaces(c);
    hide Pos, NextInsn, PrevInsn;
    assert c == [c[0], c[1], c[2], c[3], c[4], c[5], c[6], c[7]];
  }

  lemma BeforeFold(c: Code, vm: Vm, m: Mach)
    requires FoldCode(c) && !Test(vm, m)
    ensures var m1 := Dropped(m);
            Trace(c, vm, 0, m, 3) == [Tested(m), Did(Op(Other(7)), m1), Did(Op(Other(8)), Do(vm, Op(Other(7)), m1))]
  {
    FoldPlaces(c);
    hide Pos, NextInsn, PrevInsn, Land, Do, Dropped, Test;
    LandHere(c, 0);
    LandStep(c, 3);
    LandHere(c, 4);
    LandStep(c, 5);
    LandStep(c, 1);
    LandStep(c, 2);
    LandStep(c, 6);
    LandHere(c, 7);
  }

  lemma AfterFold(c: Code, vm: Vm, m: Mach)
    requires c == [Op(BranchIf(2)), Label(0), Label(1), Op(Other(7)), Op(Jump(0)), Label(2), Op(Other(8))]
    requires !Test(vm, m)
    ensures var m1 := Dropped(m);
            Trace(c, vm, 0, m, 3) == [Tested(m), Did(Op(Other(7)), m1), Did(Op(Other(7)), Do(vm, Op(Other(7)), m1))]
  {
    assert Pos(c, 0) == 1;
    hide Pos, NextInsn, PrevInsn, Land, Do, Dropped, Test;
    LandHere(c, 0);
    LandStep(c, 1);
    LandStep(c, 2);
    LandHere(c, 3);
    LandStep(c, 4);
  }

  lemma FoldDiffers(c: Code, vm: Vm, m: Mach)
    requires FoldCode(c) && !Test(vm, m)
    ensures Trace(c, vm, 0, m, 3) != Trace(Rewritten(c, 2), vm, 0, m, 3)
  {
    FoldCase(c);
    hide Pos, NextInsn, PrevInsn, Rewritten, CaseOf, Trace;
    BeforeFold(c, vm, m);
    AfterFold(Rewritten(c, 2), vm, m);
    assert Trace(c, vm, 0, m, 3)[2] != Trace(Rewritten(c, 2), vm, 0, m, 3)[2];
  }

  /** A jump behind a label that another jump leads to is folded all the same, and the list then runs
      the instruction behind it once more instead of the one the jump led to. */
  lemma UnsafeFold(c: Code)
    requires FoldCode(c)
    ensures Good(c, {}) && CaseOf(c, 2) == Fold(0) && !SafeFold(c, 2, {}) && !SameRuns(c, Rewritten(c, 2), {})
  {
    FoldGood(c);
    FoldCase(c);
    assert Target(c[5]) == Some(c[1].name);
    hide Good, Pos, NextInsn, PrevInsn, Rewritten, CaseOf, Trace;
    var store: Store :| true;
    var m := Mach(store, []);
    var vm := Vm((id: nat, m: Mach) => m, (v: Value) => true);
    FoldDiffers(c, vm, m);
  }
}
