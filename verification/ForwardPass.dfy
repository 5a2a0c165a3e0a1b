/** The peephole pass over a list in which all jumps and branches lead forward, as compiled conditions
    do: its folds are safe unless a branch leads over two jumps. */
module ForwardPass {
  import opened Options
  import opened JumpCode
  import opened Peephole
  import opened PeepholeLists
  import opened JumpLoop
  import opened PeepholePass
  import opened PassLaws
  import opened PassEnd

  /** Every label stands behind all elements that refer to it. */
  predicate Forward(c: Code) {
    forall j {:trigger c[j]} :: 0 <= j < |c| && Target(c[j]).Some? ==> Pos(c, Target(c[j]).value) > j
  }

  /** No branch before i leads to a jump. */
  predicate LandedBefore(c: Code, i: nat) {
    forall j :: 0 <= j < i && IsBranch(c, j) ==> !IsJump(c, Dest(c, j))
  }

  /** A branch leads over at most one jump. */
  predicate Short(c: Code, j: nat)
    requires IsBranch(c, j)
  {
    IsJump(c, Dest(c, j)) ==> !IsJump(c, Dest(c, Dest(c, j)))
  }

  predicate ShortFrom(c: Code, i: nat) {
    forall j :: i <= j < |c| && IsBranch(c, j) ==> Short(c, j)
  }

  /** No entry label stands before a jump. */
  predicate EntriesClear(c: Code, entries: set<nat>) {
    forall l :: l in entries ==> !IsJump(c, Reached(c, l))
  }

  lemma ForwardDest(c: Code, j: nat)
    requires Forward(c) && j < |c| && Target(c[j]).Some?
    ensures j < Pos(c, Target(c[j]).value) <= Dest(c, j)
  {
    hide Pos, NextInsn;
  }

  lemma {:induction false} ForwardHops(c: Code, q: nat, n: nat)
    requires Forward(c) && n > 0
    ensures Hops(c, q, n).Some? ==> Hops(c, q, n).value > q
    decreases n
  {
    hide Forward, Dest;
    if IsJump(c, q) {
      ForwardDest(c, q);
      if n > 1 { ForwardHops(c, Dest(c, q), n - 1); } else { NoHop(c, Dest(c, q)); }
    }
  }

  lemma ForwardNoCycle(c: Code)
    requires Forward(c)
    ensures NoJumpCycle(c)
  {
    hide Forward, Hops;
    forall q: nat, n: nat | n > 0
      ensures Hops(c, q, n) != Some(q)
    {
      ForwardHops(c, q, n);
    }
  }

  // The fold

  /** What holds when the pass comes to element i */
  ghost predicate Ready(c: Code, i: nat, entries: set<nat>) {
    && Good(c, entries) && Forward(c) && SettledBefore(c, i)
    && LandedBefore(c, i) && ShortFrom(c, i) && EntriesClear(c, entries)
  }

  /** Nothing that comes before jump i leads to it. */
  lemma NobodyBefore(c: Code, i: nat, entries: set<nat>, j: nat)
    requires Ready(c, i, entries) && IsJump(c, i) && j < |c| && Target(c[j]).Some?
    ensures Dest(c, j) != i
  {
    hide Pos, NextInsn, Good;
    ForwardDest(c, i);
    ForwardDest(c, j);
    if j < i && IsJump(c, j) { assert Resting(c, j); }
  }

  lemma ReadyFold(c: Code, i: nat, entries: set<nat>)
    requires i < |c| && Ready(c, i, entries)
    ensures SafeFold(c, i, entries)
  {
    hide Pos, NextInsn, PrevInsn;
    if CaseOf(c, i).Fold? {
      var b := CaseOf(c, i).b;
      forall p | b < p < i && c[p].Label?
        ensures c[p].name !in entries && forall j :: 0 <= j < |c| ==> Target(c[j]) != Some(c[p].name)
      {
        LabelStands(c, p);
        NextAcross(c, p, i);
        forall j | 0 <= j < |c|
          ensures Target(c[j]) != Some(c[p].name)
        {
          if Target(c[j]) == Some(c[p].name) { NobodyBefore(c, i, entries, j); }
        }
      }
    }
  }

  lemma NextAcross(c: Code, p: nat, i: nat)
    requires p <= i < |c| && (forall k :: p <= k < i ==> c[k].Label?) && !c[i].Label?
    ensures NextInsn(c, p) == i
  {
    hide NextInsn;
  }

  // The loop

  lemma {:induction false} LastForward(c: Code, i: nat, l: nat, n: nat)
    requires i < |c| && Forward(c) && Pos(c, l) > i
    ensures Pos(c, Last(c, i, l, n)) > i
    decreases n
  {
    hide Pos, NextInsn;
    if n > 0 && Again(c, i, l) { LastForward(c, i, c[Reached(c, l)].insn.l, n - 1); }
  }

  lemma InPlaceForward(c: Code, c': Code)
    requires Forward(c) && SameLabels(c, c')
    requires forall k :: 0 <= k < |c| && Target(c'[k]).Some? ==> c'[k] == c[k] || Pos(c, Target(c'[k]).value) > k
    ensures Forward(c')
  {
    hide Pos;
    forall k | 0 <= k < |c'| && Target(c'[k]).Some?
      ensures Pos(c', Target(c'[k]).value) > k
    {
      PosKept(c, c', Target(c'[k]).value);
    }
  }

  lemma InPlaceReached(c: Code, c': Code, l: nat)
    requires SameLabels(c, c')
    ensures Reached(c', l) == Reached(c, l)
  {
    hide Pos, NextInsn;
    PosKept(c, c', l);
    NextKept(c, c', Pos(c, l));
  }

  lemma InPlaceClear(c: Code, c': Code, entries: set<nat>)
    requires EntriesClear(c, entries) && SameLabels(c, c') && forall k: nat :: IsJump(c', k) ==> IsJump(c, k)
    ensures EntriesClear(c', entries)
  {
    hide Reached;
    forall l | l in entries
      ensures !IsJump(c', Reached(c', l))
    {
      InPlaceReached(c, c', l);
    }
  }

  /** Element i is replaced by one that is a jump only if it was one, and leads forward. */
  predicate Changed(c: Code, c': Code, i: nat) {
    && SameLabels(c, c') && i < |c| && (forall k :: 0 <= k < |c| && k != i ==> c'[k] == c[k])
    && (IsJump(c', i) ==> IsJump(c, i)) && (Target(c'[i]).Some? ==> Pos(c, Target(c'[i]).value) > i)
  }

  lemma ChangedKeeps(c: Code, c': Code, i: nat, entries: set<nat>)
    requires Changed(c, c', i) && Forward(c) && EntriesClear(c, entries)
    ensures Forward(c') && EntriesClear(c', entries)
  {
    hide Pos, NextInsn;
    InPlaceForward(c, c');
    InPlaceClear(c, c', entries);
  }

  lemma ChangedLanded(c: Code, c': Code, i: nat, j: nat)
    requires Changed(c, c', i) && j != i && IsBranch(c, j) && !IsJump(c, Dest(c, j))
    ensures IsBranch(c', j) && !IsJump(c', Dest(c', j))
  {
    hide Pos, NextInsn;
    InPlaceDest(c, c', j);
  }

  lemma ChangedShort(c: Code, c': Code, i: nat, j: nat)
    requires Changed(c, c', i) && Forward(c) && i < j && IsBranch(c, j) && Short(c, j)
    ensures IsBranch(c', j) && Short(c', j)
  {
    hide Pos, NextInsn;
    ForwardDest(c, j);
    InPlaceDest(c, c', j);
    var d := Dest(c, j);
    if IsJump(c, d) {
      ForwardDest(c, d);
      InPlaceDest(c, c', d);
    }
  }

  /** Forward, branches and entries: what the rewrites have to keep beside the rest */
  ghost predicate Ahead(c: Code, i: nat, entries: set<nat>) {
    Forward(c) && LandedBefore(c, i) && ShortFrom(c, i) && EntriesClear(c, entries)
  }

  lemma ChangedAhead(c: Code, c': Code, i: nat, entries: set<nat>)
    requires Changed(c, c', i) && Ahead(c, i, entries)
    ensures Forward(c') && LandedBefore(c', i) && ShortFrom(c', i + 1) && EntriesClear(c', entries)
  {
    hide Pos, NextInsn, Forward, EntriesClear, Dest, Short;
    ChangedKeeps(c, c', i, entries);
    forall j | 0 <= j < i && IsBranch(c', j)
      ensures !IsJump(c', Dest(c', j))
    {
      assert IsBranch(c, j);
      ChangedLanded(c, c', i, j);
    }
    forall j | i + 1 <= j < |c'| && IsBranch(c', j)
      ensures Short(c', j)
    {
      assert IsBranch(c, j);
      ChangedShort(c, c', i, j);
    }
  }

  lemma OneMore(c: Code, i: nat, entries: set<nat>)
    requires LandedBefore(c, i) && ShortFrom(c, i + 1)
    ensures (IsBranch(c, i) ==> !IsJump(c, Dest(c, i))) ==> LandedBefore(c, i + 1)
    ensures !IsBranch(c, i) ==> ShortFrom(c, i)
  {
    hide Dest, Short;
  }

  /** Jump i with another label that leads forward */
  lemma RelabelledAhead(c: Code, i: nat, l: nat, entries: set<nat>)
    requires Ahead(c, i, entries) && IsJump(c, i) && Pos(c, l) > i
    ensures Ahead(WithLabel(c, i, l), i, entries)
  {
    var c' := WithLabel(c, i, l);
    assert Changed(c, c', i) by { hide Pos; }
    hide Forward, LandedBefore, ShortFrom, EntriesClear, Changed;
    ChangedAhead(c, c', i, entries);
    OneMore(c', i, entries);
  }

  lemma ReadySettled(c: Code, i: nat, entries: set<nat>)
    requires i < |c| && Ready(c, i, entries)
    ensures Ready(Settled(c, i), i, entries)
    ensures IsJump(c, i) ==> Stops(c, i)
  {
    hide Pos, NextInsn, Last, Good, SettledBefore, Forward, LandedBefore, ShortFrom, EntriesClear;
    SettledRuns(c, i, entries);
    SettledKeeps(c, i);
    if IsJump(c, i) {
      ForwardNoCycle(c);
      NoCycleStops(c, i);
      ForwardDest(c, i);
      LastForward(c, i, c[i].insn.l, |c| + 1);
      RelabelledAhead(c, i, Last(c, i, c[i].insn.l, |c| + 1), entries);
    }
  }

  // The rewrites

  lemma ForwardRemoved(c: Code, i: nat)
    requires Forward(c) && i < |c| && !c[i].Label?
    ensures Forward(Removed(c, i))
  {
    hide Pos;
    var c' := Removed(c, i);
    forall k | 0 <= k < |c'| && Target(c'[k]).Some?
      ensures Pos(c', Target(c'[k]).value) > k
    {
      assert c'[k] == c[Farther(i, k)];
      RemovedPos(c, i, Target(c'[k]).value);
    }
  }

  /** Branches and entries when element i goes, to which nothing leads */
  lemma RemovedReady(c: Code, i: nat, entries: set<nat>)
    requires i < |c| && !c[i].Label? && Forward(c) && LandedBefore(c, i) && ShortFrom(c, i + 1)
    requires (forall j :: 0 <= j < |c| && Target(c[j]).Some? && j != i ==> Dest(c, j) != i)
    requires EntriesClear(c, entries) && forall l :: l in entries ==> Reached(c, l) != i
    ensures LandedBefore(Removed(c, i), i) && ShortFrom(Removed(c, i), i) && EntriesClear(Removed(c, i), entries)
  {
    hide Pos, NextInsn;
    var c' := Removed(c, i);
    assert forall k :: 0 <= k < |c'| ==> c'[k] == c[Farther(i, k)];
    forall j | 0 <= j < i && IsBranch(c', j)
      ensures !IsJump(c', Dest(c', j))
    {
      RemovedDest(c, i, j);
      RemovedKind(c, i, Dest(c, j));
    }
    forall j | i <= j < |c'| && IsBranch(c', j)
      ensures Short(c', j)
    {
      RemovedShort(c, i, j + 1);
    }
    forall l | l in entries
      ensures !IsJump(c', Reached(c', l))
    {
      RemovedReached(c, i, l);
      RemovedKind(c, i, Reached(c, l));
    }
  }

  lemma RemovedReached(c: Code, i: nat, l: nat)
    requires i < |c| && !c[i].Label? && Reached(c, l) != i
    ensures Reached(Removed(c, i), l) == Closer(i, Reached(c, l))
  {
    hide NextInsn, Pos;
    RemovedPos(c, i, l);
    RemovedNext(c, i, Pos(c, l));
  }

  lemma RemovedShort(c: Code, i: nat, j: nat)
    requires i < |c| && !c[i].Label? && Forward(c) && i < j && IsBranch(c, j) && Short(c, j)
    ensures IsBranch(Removed(c, i), j - 1) && Short(Removed(c, i), j - 1)
  {
    hide Pos, NextInsn, Removed;
    ForwardDest(c, j);
    RemovedDest(c, i, j);
    var d := Dest(c, j);
    RemovedKind(c, i, d);
    if IsJump(c, d) {
      ForwardDest(c, d);
      RemovedDest(c, i, d);
      RemovedKind(c, i, Dest(c, d));
    }
  }

  lemma DropAhead(c: Code, i: nat, entries: set<nat>)
    requires i < |c| && Ready(c, i, entries) && CaseOf(c, i).Drop?
    ensures Ahead(Removed(c, i), i, entries)
  {
    hide Pos, NextInsn, Good, SettledBefore, LandedBefore;
    forall j | 0 <= j < |c| && Target(c[j]).Some?
      ensures Dest(c, j) != i
    {
      NobodyBefore(c, i, entries, j);
    }
    ForwardRemoved(c, i);
    RemovedReady(c, i, entries);
  }

  /** The branch of a fold leads behind the jump by its label, too. */
  lemma FoldBehind(c: Code, b: nat, i: nat)
    requires i < |c| && CaseOf(c, i) == Fold(b)
    ensures Pos(c, c[b].insn.l) > i
  {
    hide Pos, NextInsn, PrevInsn;
    var p := Pos(c, c[b].insn.l);
    if p <= i { NextBefore(c, p, i); }
  }

  lemma NextBefore(c: Code, p: nat, i: nat)
    requires p <= i < |c| && !c[i].Label?
    ensures NextInsn(c, p) <= i
  {
    hide NextInsn;
  }

  lemma SwappedForward(c: Code, b: nat, i: nat)
    requires i < |c| && Forward(c) && CaseOf(c, i) == Fold(b)
    ensures Forward(Swapped(c, b, i))
  {
    hide Pos, NextInsn, PrevInsn;
    FoldBehind(c, b, i);
    ForwardDest(c, i);
    InPlaceForward(c, Swapped(c, b, i));
  }

  lemma SwappedTargets(c: Code, b: nat, i: nat, j: nat)
    requires b < i && IsBranch(c, b) && IsJump(c, i) && j < |c|
    ensures |Swapped(c, b, i)| == |c| && Target(Swapped(c, b, i)[j]).Some? == Target(c[j]).Some?
  {
  }

  lemma SwappedKinds(c: Code, b: nat, i: nat, x: nat)
    requires b < i && IsBranch(c, b) && IsJump(c, i)
    ensures IsJump(Swapped(c, b, i), x) == IsJump(c, x) && IsBranch(Swapped(c, b, i), x) == IsBranch(c, x)
  {
  }

  lemma SwappedLeads(c: Code, b: nat, i: nat, j: nat)
    requires b < i && IsBranch(c, b) && IsJump(c, i) && j < |c| && j != i && Target(c[j]).Some?
    ensures var c1 := Swapped(c, b, i);
            |c1| == |c| && Target(c1[j]).Some? && Dest(c1, j) == Dest(c, if j == b then i else j)
  {
    hide Pos, NextInsn;
    var c1 := Swapped(c, b, i);
    if j == b {
      InPlaceReached(c, c1, c[i].insn.l);
    } else {
      InPlaceDest(c, c1, j);
    }
  }

  lemma SwappedShort(c: Code, b: nat, i: nat, j: nat)
    requires Forward(c) && b < i < j && IsBranch(c, b) && IsJump(c, i) && IsBranch(c, j) && Short(c, j)
    ensures IsBranch(Swapped(c, b, i), j) && Short(Swapped(c, b, i), j)
  {
    hide Pos, NextInsn, Swapped;
    var d := Dest(c, j);
    ForwardDest(c, j);
    SwappedKinds(c, b, i, j);
    SwappedLeads(c, b, i, j);
    SwappedKinds(c, b, i, d);
    if IsJump(c, d) {
      SwappedLeads(c, b, i, d);
      SwappedKinds(c, b, i, Dest(c, d));
    }
  }

  /** After the exchange nothing leads to jump i, and the branches before it lead to no jump. */
  lemma SwappedAvoids(c: Code, b: nat, i: nat, entries: set<nat>, j: nat)
    requires i < |c| && Ready(c, i, entries) && CaseOf(c, i) == Fold(b) && j < |c| && j != i && Target(c[j]).Some?
    ensures var c1 := Swapped(c, b, i);
            && |c1| == |c| && Target(c1[j]).Some? && Dest(c1, j) != i
            && (j < i && IsBranch(c, j) ==> !IsJump(c1, Dest(c1, j)))
  {
    hide Pos, NextInsn, PrevInsn, Good, SettledBefore, EntriesClear, Swapped;
    ForwardDest(c, i);
    SwappedLeads(c, b, i, j);
    NobodyBefore(c, i, entries, j);
    SwappedKinds(c, b, i, Dest(c, if j == b then i else j));
  }

  lemma SwappedLanded(c: Code, b: nat, i: nat, entries: set<nat>)
    requires i < |c| && Ready(c, i, entries) && CaseOf(c, i) == Fold(b)
    ensures var c1 := Swapped(c, b, i);
            && |c1| == |c| && LandedBefore(c1, i) && ShortFrom(c1, i + 1)
            && forall j :: 0 <= j < |c| && Target(c1[j]).Some? && j != i ==> Dest(c1, j) != i
  {
    var c1 := Swapped(c, b, i);
    assert Forward(c) && b < i && IsBranch(c, b) && IsJump(c, i) && |c1| == |c| by { hide Pos, NextInsn, PrevInsn; }
    assert ShortFrom(c, i);
    hide Ready, Swapped, CaseOf, Dest, Short, Forward;
    forall j | 0 <= j < |c| && j != i && Target(c1[j]).Some?
      ensures Dest(c1, j) != i
    {
      SwappedTargets(c, b, i, j);
      SwappedAvoids(c, b, i, entries, j);
    }
    forall j | 0 <= j < i && IsBranch(c1, j)
      ensures !IsJump(c1, Dest(c1, j))
    {
      SwappedKinds(c, b, i, j);
      SwappedAvoids(c, b, i, entries, j);
    }
    forall j | i + 1 <= j < |c1| && IsBranch(c1, j)
      ensures Short(c1, j)
    {
      SwappedKinds(c, b, i, j);
      SwappedShort(c, b, i, j);
    }
  }

  lemma FoldAhead(c: Code, b: nat, i: nat, entries: set<nat>)
    requires i < |c| && Ready(c, i, entries) && CaseOf(c, i) == Fold(b)
    ensures Ahead(Removed(Swapped(c, b, i), i), i, entries)
  {
    var c1 := Swapped(c, b, i);
    assert IsJump(c1, i) && SameLabels(c, c1) && forall k: nat :: IsJump(c1, k) ==> IsJump(c, k);
    hide Pos, NextInsn, PrevInsn, Good, SettledBefore, LandedBefore, Swapped, ShortFrom, Forward;
    SwappedForward(c, b, i);
    SwappedLanded(c, b, i, entries);
    InPlaceClear(c, c1, entries);
    ForwardRemoved(c1, i);
    RemovedReady(c1, i, entries);
  }

  lemma LeavingAhead(c: Code, i: nat, entries: set<nat>)
    requires i < |c| && Ahead(c, i, entries) && CaseOf(c, i).ToLeave?
    ensures Ahead(Leaving(c, i), i + 1, entries)
  {
    var c' := Leaving(c, i);
    assert Changed(c, c', i) && !IsBranch(c', i) by { hide Pos, NextInsn, PrevInsn; }
    hide Forward, LandedBefore, ShortFrom, EntriesClear, Changed;
    ChangedAhead(c, c', i, entries);
    OneMore(c', i, entries);
  }

  lemma WithPopKinds(c: Code, i: nat, x: nat)
    requires i < |c| && c[i] == Op(Leave)
    ensures IsJump(WithPop(c, i), Opened(i, x)) == IsJump(c, x)
  {
    var c' := WithPop(c, i);
    if x < |c| { assert c'[Opened(i, x)] == c[x]; }
  }

  lemma WithPopForward(c: Code, i: nat)
    requires Forward(c) && i < |c| && c[i] == Op(Leave)
    ensures Forward(WithPop(c, i))
  {
    hide Pos;
    var c' := WithPop(c, i);
    forall k | 0 <= k < |c'| && Target(c'[k]).Some?
      ensures Pos(c', Target(c'[k]).value) > k
    {
      assert k != i + 1 && c'[k] == c[Closer(i + 1, k)];
      WithPopPos(c, i, Target(c'[k]).value);
    }
  }

  lemma WithPopReached(c: Code, i: nat, l: nat)
    requires i < |c| && c[i] == Op(Leave)
    ensures Reached(WithPop(c, i), l) == Opened(i, Reached(c, l))
  {
    hide NextInsn, Pos;
    var c' := WithPop(c, i);
    assert c'[i] == c[i] && c'[i + 1] == Op(Pop);
    WithPopPos(c, i, l);
    NotNext(c', i + 1, Pos(c', l));
    WithPopRemoved(c, i);
    RemovedReached(c', i + 1, l);
  }

  lemma WithPopShort(c: Code, i: nat, j: nat)
    requires i < |c| && c[i] == Op(Leave) && j != i && IsBranch(c, j) && Short(c, j)
    ensures IsBranch(WithPop(c, i), Opened(i, j)) && Short(WithPop(c, i), Opened(i, j))
  {
    hide Pos, NextInsn, WithPop;
    WithPopDest(c, i, j);
    var d := Dest(c, j);
    WithPopKinds(c, i, d);
    if IsJump(c, d) {
      WithPopDest(c, i, d);
      WithPopKinds(c, i, Dest(c, d));
    }
  }

  lemma WithPopAhead(c: Code, i: nat, entries: set<nat>)
    requires i < |c| && c[i] == Op(Leave) && Ahead(c, i + 1, entries)
    ensures Ahead(WithPop(c, i), i + 2, entries)
  {
    hide Pos, NextInsn, Forward, Short;
    var c' := WithPop(c, i);
    WithPopForward(c, i);
    assert forall k :: 0 <= k < |c'| && k != i + 1 ==> c'[k] == c[Closer(i + 1, k)];
    assert c'[i + 1] == Op(Pop) && c'[i] == Op(Leave);
    hide WithPop;
    forall j | 0 <= j < i + 2 && IsBranch(c', j)
      ensures !IsJump(c', Dest(c', j))
    {
      WithPopDest(c, i, j);
      WithPopKinds(c, i, Dest(c, j));
    }
    forall j | i + 2 <= j < |c'| && IsBranch(c', j)
      ensures Short(c', j)
    {
      assert IsBranch(c, j - 1) && Short(c, j - 1);
      WithPopShort(c, i, j - 1);
    }
    forall l | l in entries
      ensures !IsJump(c', Reached(c', l))
    {
      WithPopReached(c, i, l);
      WithPopKinds(c, i, Reached(c, l));
    }
  }

  lemma RetargetChanged(c: Code, i: nat)
    requires i < |c| && Forward(c) && CaseOf(c, i).Retarget? && Short(c, i)
    ensures var c' := Rebranched(c, i); Changed(c, c', i) && IsBranch(c', i) && !IsJump(c', Dest(c', i))
  {
    hide Pos, NextInsn, PrevInsn;
    var c', d := Rebranched(c, i), Dest(c, i);
    ForwardDest(c, i);
    ForwardDest(c, d);
    InPlaceReached(c, c', c[d].insn.l);
  }

  lemma RetargetAhead(c: Code, i: nat, entries: set<nat>)
    requires i < |c| && Ahead(c, i, entries) && CaseOf(c, i).Retarget?
    ensures Ahead(Rebranched(c, i), i + 1, entries)
  {
    var c' := Rebranched(c, i);
    assert Short(c, i);
    RetargetChanged(c, i);
    hide Forward, LandedBefore, ShortFrom, EntriesClear, Changed, CaseOf, Dest, Rebranched;
    ChangedAhead(c, c', i, entries);
    OneMore(c', i, entries);
  }

  lemma StayAhead(c: Code, i: nat, entries: set<nat>)
    requires i < |c| && Ready(c, i, entries) && CaseOf(c, i).Stay?
    ensures Ahead(c, i + 1, entries)
  {
    hide Pos, NextInsn, PrevInsn, Good, SettledBefore, Short;
  }

  lemma RewrittenAhead(c: Code, i: nat, entries: set<nat>)
    requires i < |c| && Ready(c, i, entries)
    ensures Ahead(Rewritten(c, i), NextIndex(c, i), entries)
  {
    assert Ahead(c, i, entries);
    hide Pos, NextInsn, PrevInsn, Ready, Ahead;
    match CaseOf(c, i)
    case Drop => DropAhead(c, i, entries);
    case Stay => StayAhead(c, i, entries);
    case ToLeave =>
      LeavingAhead(c, i, entries);
      WithPopAhead(Leaving(c, i), i, entries);
    case Fold(b) => FoldAhead(c, b, i, entries);
    case Retarget => RetargetAhead(c, i, entries);
  }

  // The pass

  lemma ReadyNext(c: Code, i: nat, entries: set<nat>)
    requires i < |c| && Ready(c, i, entries)
    ensures var c1 := Settled(c, i);
            SafeFold(c1, i, entries) && Ready(Rewritten(c1, i), NextIndex(c1, i), entries)
  {
    var c1 := Settled(c, i);
    ReadySettled(c, i, entries);
    ReadyFold(c1, i, entries);
    RewrittenAhead(c1, i, entries);
    hide Settled, Rewritten, NextIndex, SafeFold, Stops;
    TurnSettled(c, i, entries);
  }

  lemma PastOther(c: Code, i: nat, entries: set<nat>)
    requires i < |c| && !c[i].Op? && Ready(c, i, entries)
    ensures Ready(c, i + 1, entries)
  {
    hide Good, Forward, EntriesClear, Short, Resting, Dest;
  }

  lemma {:induction false} ReadySafe(c: Code, i: nat, entries: set<nat>)
    requires i <= |c| && Ready(c, i, entries)
    ensures PassSafe(c, i, entries)
    decreases |c| - i
  {
    hide Ready, Settled, Rewritten, NextIndex, SafeFold;
    if i < |c| {
      if c[i].Op? {
        ReadyNext(c, i, entries);
        Progress(Settled(c, i), i);
        ReadySafe(Rewritten(Settled(c, i), i), NextIndex(Settled(c, i), i), entries);
      } else {
        PastOther(c, i, entries);
        ReadySafe(c, i + 1, entries);
      }
    }
  }

  /** A list that leads forward only, in which no branch leads over two jumps and no entry stands
      before a jump, is passed to the end, and every run is kept. */
  lemma ForwardPassed(c: Code, entries: set<nat>)
    requires Good(c, entries) && Forward(c) && ShortFrom(c, 0) && EntriesClear(c, entries)
    ensures PassSafe(c, 0, entries) && PassEnds(c, 0)
    ensures Good(PassCode(c, 0), entries) && SameRuns(c, PassCode(c, 0), entries)
  {
    assert Ready(c, 0, entries);
    hide Ready, Good, Forward, ShortFrom, EntriesClear, PassSafe, PassEnds, PassCode, SameRuns;
    ReadySafe(c, 0, entries);
    ForwardNoCycle(c);
    PassRuns(c, 0, entries);
    PassStops(c, entries);
  }
}
