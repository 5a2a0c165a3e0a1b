/** When the peephole pass over a whole list comes to an end. */
module PassEnd {
  import opened Options
  import opened JumpCode
  import opened Peephole
  import opened PeepholeLists
  import opened JumpLoop
  import opened PeepholePass
  import opened PassLaws

  // Jumps that the pass has dealt with

  /** Jump j leads to itself, to no jump, or to a jump that leads to itself. */
  predicate Resting(c: Code, j: nat)
    requires IsJump(c, j)
  {
    var d := Dest(c, j);
    d == j || !IsJump(c, d) || Dest(c, d) == d
  }

  /** All jumps before i are at rest. */
  predicate SettledBefore(c: Code, i: nat) {
    forall j :: 0 <= j < i && IsJump(c, j) ==> Resting(c, j)
  }

  // The list from jump i on

  lemma {:induction false} SuffixNext(c: Code, i: nat, p: nat)
    requires i <= p <= |c|
    ensures NextInsn(c[i..], p - i) == NextInsn(c, p) - i
    decreases |c| - p
  {
    if p < |c| && c[p].Label? { SuffixNext(c, i, p + 1); }
  }

  lemma SuffixPos(c: Code, i: nat, l: nat)
    requires i <= |c| && LabelsOnce(c)
    ensures Pos(c, l) >= i ==> Pos(c[i..], l) == Pos(c, l) - i
    ensures Pos(c[i..], l) < |c| - i ==> Pos(c, l) == Pos(c[i..], l) + i
  {
    var s, p, q := c[i..], Pos(c, l), Pos(c[i..], l);
    assert forall k :: 0 <= k < |s| ==> s[k] == c[i + k];
    if p >= i && p < |c| { assert s[p - i] == Label(l); }
    if q < |s| { assert c[i + q] == Label(l); }
  }

  /** A jump of the suffix that leads somewhere in it leads there in the list. */
  lemma DestUp(c: Code, i: nat, x: nat)
    requires i <= |c| && LabelsOnce(c) && IsJump(c[i..], x) && Dest(c[i..], x) < |c| - i
    ensures IsJump(c, i + x) && Dest(c, i + x) == i + Dest(c[i..], x)
  {
    hide NextInsn, Pos;
    var l := c[i + x].insn.l;
    SuffixPos(c, i, l);
    SuffixNext(c, i, Pos(c, l));
  }

  /** A jump from i on that leads behind i leads there in the suffix. */
  lemma DestDown(c: Code, i: nat, x: nat)
    requires IsJump(c, i) && LabelsOnce(c) && i <= x && IsJump(c, x) && Dest(c, x) > i
    ensures IsJump(c[i..], x - i) && Dest(c[i..], x - i) == Dest(c, x) - i
  {
    hide NextInsn, Pos;
    var l := c[x].insn.l;
    assert Pos(c, l) > i;
    SuffixPos(c, i, l);
    SuffixNext(c, i, Pos(c, l));
  }

  lemma HopUp(c: Code, i: nat, d: nat, e: nat, k: nat, q: nat)
    requires i <= |c| && LabelsOnce(c) && IsJump(c[i..], q) && Dest(c[i..], q) < |c| - i
    requires Hops(c[i..], d, k) == Some(q) && Hops(c, e, k) == Some(i + q)
    ensures Hops(c[i..], d, k + 1) == Some(Dest(c[i..], q)) && Hops(c, e, k + 1) == Some(i + Dest(c[i..], q))
  {
    hide Dest, Hops;
    OneHop(c[i..], d, k);
    DestUp(c, i, q);
    OneHop(c, e, k);
  }

  lemma {:induction false} CircleUp(c: Code, i: nat, a: nat, p: nat, k: nat)
    requires IsJump(c, i) && LabelsOnce(c) && CircleAt(c[i..], 0, a, p) && k <= a + p
    ensures Hops(c[i..], Dest(c[i..], 0), k).Some?
    ensures Hops(c, Dest(c, i), k) == Some(i + Hops(c[i..], Dest(c[i..], 0), k).value)
    decreases k
  {
    hide NextInsn, Pos, CircleAt, Hops;
    var s := c[i..];
    OnTheWay(s, 0, a, p, k);
    if k == 0 {
      NoTurns(s, 0, 0);
      NoTurns(c, i, 0);
      DestUp(c, i, 0);
    } else {
      CircleUp(c, i, a, p, k - 1);
      OnTheWay(s, 0, a, p, k - 1);
      OneHop(s, Dest(s, 0), k - 1);
      HopUp(c, i, Dest(s, 0), Dest(c, i), k - 1, Hops(s, Dest(s, 0), k - 1).value);
    }
  }

  lemma SuffixCircle(c: Code, i: nat, a: nat, p: nat)
    requires IsJump(c, i) && LabelsOnce(c) && CircleAt(c[i..], 0, a, p)
    ensures CircleAt(c, i, a, p)
  {
    hide NextInsn, Pos, Hops;
    var s := c[i..];
    SuffixNext(c, i, i + 1);
    forall k: nat | k <= a + p
      ensures Hops(s, Dest(s, 0), k).Some? && Hops(c, Dest(c, i), k) == Some(i + Hops(s, Dest(s, 0), k).value)
      ensures Hops(c, Dest(c, i), k) != Some(i) && Hops(c, Dest(c, i), k) != Some(NextInsn(c, i + 1))
    {
      CircleUp(c, i, a, p, k);
    }
    OnTheWay(s, 0, a, p, a + 1);
    OneHop(s, Dest(s, 0), a);
    DestUp(c, i, Hops(s, Dest(s, 0), a).value);
  }

  /** No jump at rest is on the way into a circle. */
  lemma WayBehind(c: Code, i: nat, a: nat, p: nat, k: nat)
    requires IsJump(c, i) && SettledBefore(c, i) && CircleAt(c, i, a, p) && k <= a + p
    ensures Hops(c, Dest(c, i), k).Some? && IsJump(c, Hops(c, Dest(c, i), k).value) && Hops(c, Dest(c, i), k).value > i
  {
    hide NextInsn, Pos, Hops;
    var d := Dest(c, i);
    var j := if k == a + p then a else k;
    OnTheWay(c, i, a, p, k);
    OnTheWay(c, i, a, p, j);
    OnTheWay(c, i, a, p, j + 1);
    OneHop(c, d, j);
    CircleMisses(c, i, a, p, k);
  }

  lemma {:induction false} CircleDown(c: Code, i: nat, a: nat, p: nat, k: nat)
    requires IsJump(c, i) && LabelsOnce(c) && SettledBefore(c, i) && CircleAt(c, i, a, p) && k <= a + p
    ensures Hops(c, Dest(c, i), k).Some? && Hops(c, Dest(c, i), k).value > i
    ensures Hops(c[i..], Dest(c[i..], 0), k) == Some(Hops(c, Dest(c, i), k).value - i)
    decreases k
  {
    hide NextInsn, Pos, CircleAt, Hops, SettledBefore;
    var s := c[i..];
    WayBehind(c, i, a, p, k);
    if k == 0 {
      NoTurns(s, 0, 0);
      NoTurns(c, i, 0);
      DestDown(c, i, i);
    } else {
      CircleDown(c, i, a, p, k - 1);
      WayBehind(c, i, a, p, k - 1);
      var q := Hops(c, Dest(c, i), k - 1).value;
      OneHop(c, Dest(c, i), k - 1);
      DestDown(c, i, q);
      OneHop(s, Dest(s, 0), k - 1);
    }
  }

  lemma CircleSuffix(c: Code, i: nat, a: nat, p: nat)
    requires IsJump(c, i) && LabelsOnce(c) && SettledBefore(c, i) && CircleAt(c, i, a, p)
    ensures CircleAt(c[i..], 0, a, p)
  {
    hide NextInsn, Pos, Hops, SettledBefore;
    var s := c[i..];
    SuffixNext(c, i, i + 1);
    forall k: nat | k <= a + p
      ensures Hops(c, Dest(c, i), k).Some? && Hops(s, Dest(s, 0), k) == Some(Hops(c, Dest(c, i), k).value - i)
      ensures Hops(s, Dest(s, 0), k) != Some(0) && Hops(s, Dest(s, 0), k) != Some(NextInsn(s, 1))
    {
      CircleDown(c, i, a, p, k);
    }
    WayBehind(c, i, a, p, a);
    WayBehind(c, i, a, p, a + 1);
    OneHop(c, Dest(c, i), a);
    DestDown(c, i, Hops(c, Dest(c, i), a).value);
  }

  /** When the jumps before it are at rest, only the list from jump i on decides whether its loop stops. */
  lemma StopsHere(c: Code, i: nat)
    requires IsJump(c, i) && LabelsOnce(c) && SettledBefore(c, i)
    ensures IsJump(c[i..], 0) && (Stops(c, i) <==> !IntoCircle(c[i..], 0))
  {
    hide CircleAt, Stops, SettledBefore;
    StopsIff(c, i);
    if a: nat, p: nat :| CircleAt(c, i, a, p) { CircleSuffix(c, i, a, p); }
    if a: nat, p: nat :| CircleAt(c[i..], 0, a, p) { SuffixCircle(c, i, a, p); }
  }

  // The loop puts jump i to rest

  lemma {:induction false} LastEnds(c: Code, i: nat, l: nat, n: nat)
    requires i < |c| && Chain(c, i, l, n) == None
    ensures !Again(c, i, Last(c, i, l, n))
    decreases n
  {
    hide Reached;
    LastTurn(c, i, l, n);
    if Again(c, i, l) { LastEnds(c, i, c[Reached(c, l)].insn.l, n - 1); }
  }

  lemma InPlaceDest(c: Code, c': Code, j: nat)
    requires SameLabels(c, c') && j < |c| && Target(c[j]).Some? && Target(c'[j]) == Target(c[j])
    ensures Dest(c', j) == Dest(c, j)
  {
    hide NextInsn, Pos;
    var l := Target(c[j]).value;
    PosKept(c, c', l);
    NextKept(c, c', Pos(c, l));
  }

  /** A change of element i alone leaves a jump at rest that does not lead to i. */
  lemma InPlaceRests(c: Code, c': Code, i: nat, j: nat)
    requires SameLabels(c, c') && (forall k :: 0 <= k < |c| && k != i ==> c'[k] == c[k])
    requires j != i && IsJump(c, j) && Resting(c, j) && Dest(c, j) != i
    ensures IsJump(c', j) && Resting(c', j)
  {
    hide NextInsn, Pos;
    InPlaceDest(c, c', j);
    var d := Dest(c, j);
    if IsJump(c, d) { InPlaceDest(c, c', d); }
  }

  lemma SettledSelf(c: Code, i: nat)
    requires IsJump(c, i) && Dest(c, i) == i
    ensures Settled(c, i) == c
  {
    hide NextInsn, Pos;
    assert !Again(c, i, c[i].insn.l);
  }

  lemma SettledRests(c: Code, i: nat)
    requires IsJump(c, i) && Stops(c, i)
    ensures var c1 := Settled(c, i); IsJump(c1, i) && (Resting(c1, i) || Dest(c1, i) == NextInsn(c1, i + 1))
  {
    hide Pos, NextInsn, Chain, Last, Stops;
    var l0 := c[i].insn.l;
    var l := Last(c, i, l0, |c| + 1);
    var c1 := WithLabel(c, i, l);
    StopsSoon(c, i);
    LastEnds(c, i, l0, |c| + 1);
    WithLabelReached(c, i, l, l);
    var d := Reached(c, l);
    assert Dest(c1, i) == d;
    if d != i && IsJump(c, d) { InPlaceDest(c, c1, d); }
  }

  lemma SettledKeeps(c: Code, i: nat)
    requires i < |c| && SettledBefore(c, i)
    ensures SettledBefore(Settled(c, i), i)
  {
    hide NextInsn, Pos, Last;
    var c1 := Settled(c, i);
    if IsJump(c, i) {
      forall j | 0 <= j < i && IsJump(c1, j)
        ensures Resting(c1, j)
      {
        assert IsJump(c, j) && Resting(c, j);
        if Dest(c, j) == i { SettledSelf(c, i); } else { InPlaceRests(c, c1, i, j); }
      }
    }
  }

  // Rewrites keep jumps at rest

  lemma {:induction false} RemovedNext(c: Code, i: nat, p: nat)
    requires i < |c| && !c[i].Label? && p <= |c| && p != i && NextInsn(c, p) != i
    ensures NextInsn(Removed(c, i), Closer(i, p)) == Closer(i, NextInsn(c, p))
    decreases |c| - p
  {
    var c' := Removed(c, i);
    if p < |c| {
      assert c'[Closer(i, p)] == c[p];
      if c[p].Label? { RemovedNext(c, i, p + 1); }
    }
  }

  lemma RemovedDest(c: Code, i: nat, q: nat)
    requires i < |c| && !c[i].Label? && q < |c| && q != i && Target(c[q]).Some? && Dest(c, q) != i
    ensures var c', y := Removed(c, i), Closer(i, q);
            y < |c'| && c'[y] == c[q] && Dest(c', y) == Closer(i, Dest(c, q))
  {
    hide NextInsn, Pos;
    var l := Target(c[q]).value;
    RemovedPos(c, i, l);
    RemovedNext(c, i, Pos(c, l));
  }

  lemma RemovedRests(c: Code, i: nat, q: nat)
    requires i < |c| && !c[i].Label? && q != i && IsJump(c, q) && Resting(c, q) && Dest(c, q) != i
    ensures IsJump(Removed(c, i), Closer(i, q)) && Resting(Removed(c, i), Closer(i, q))
  {
    hide NextInsn, Pos, Removed;
    RemovedDest(c, i, q);
    var d, c' := Dest(c, q), Removed(c, i);
    if IsJump(c, d) { RemovedDest(c, i, d); } else { RemovedKind(c, i, d); }
  }

  lemma RemovedKind(c: Code, i: nat, d: nat)
    requires i < |c| && d != i
    ensures IsJump(Removed(c, i), Closer(i, d)) == IsJump(c, d)
  {
    var c' := Removed(c, i);
    assert d < |c| ==> c'[Closer(i, d)] == c[d];
  }

  lemma RemovedSettled(c: Code, i: nat)
    requires i < |c| && !c[i].Label? && SettledBefore(c, i)
    requires forall j :: 0 <= j < i && IsJump(c, j) ==> Dest(c, j) != i
    ensures SettledBefore(Removed(c, i), i)
  {
    hide Resting;
    var c' := Removed(c, i);
    forall j | 0 <= j < i && IsJump(c', j)
      ensures Resting(c', j)
    {
      assert c'[j] == c[j];
      RemovedRests(c, i, j);
    }
  }

  lemma DropSettled(c: Code, i: nat)
    requires i < |c| && CaseOf(c, i).Drop? && SettledBefore(c, i)
    ensures SettledBefore(Removed(c, i), i)
  {
    hide Pos, NextInsn;
    RemovedSettled(c, i);
  }

  /** What leads to instruction i refers to a label right before it. */
  lemma LedOver(c: Code, i: nat, b: nat, j: nat)
    requires IsJump(c, i) && Closed(c) && b < i && !c[b].Label?
    requires j < |c| && Target(c[j]).Some? && Dest(c, j) == i
    ensures var p := Pos(c, Target(c[j]).value); b < p < i && c[p] == Label(Target(c[j]).value)
  {
    hide NextInsn, Pos;
  }

  lemma NobodyLeads(c: Code, i: nat, b: nat, entries: set<nat>, j: nat)
    requires IsJump(c, i) && Closed(c) && b < i && !c[b].Label? && Unused(c, b, i, entries)
    requires j < |c| && Target(c[j]).Some?
    ensures Dest(c, j) != i
  {
    hide NextInsn, Pos, Closed;
    if Dest(c, j) == i { LedOver(c, i, b, j); }
  }

  lemma SwappedRests(c: Code, b: nat, i: nat, j: nat)
    requires b < i && IsBranch(c, b) && IsJump(c, i) && j < i && IsJump(c, j) && Resting(c, j) && Dest(c, j) != i
    ensures var c1 := Swapped(c, b, i); IsJump(c1, j) && Resting(c1, j) && Dest(c1, j) != i
  {
    hide Pos, NextInsn;
    var c1 := Swapped(c, b, i);
    assert c1[j] == c[j];
    InPlaceDest(c, c1, j);
    var d := Dest(c, j);
    if IsJump(c, d) { InPlaceDest(c, c1, d); }
  }

  lemma FoldSettled(c: Code, i: nat, b: nat, entries: set<nat>)
    requires i < |c| && CaseOf(c, i) == Fold(b) && Unused(c, b, i, entries) && Closed(c) && SettledBefore(c, i)
    ensures SettledBefore(Removed(Swapped(c, b, i), i), i)
  {
    hide Pos, NextInsn, PrevInsn, Unused, Resting, Closed;
    var c1 := Swapped(c, b, i);
    forall j | 0 <= j < i && IsJump(c1, j)
      ensures Resting(c1, j) && Dest(c1, j) != i
    {
      assert c1[j] == c[j];
      NobodyLeads(c, i, b, entries, j);
      SwappedRests(c, b, i, j);
    }
    RemovedSettled(c1, i);
  }

  lemma LeavingSettled(c: Code, i: nat)
    requires i < |c| && CaseOf(c, i).ToLeave? && SettledBefore(c, i)
    ensures SettledBefore(Leaving(c, i), i + 1)
  {
    hide Pos, NextInsn, PrevInsn;
    var c1 := Leaving(c, i);
    forall j | 0 <= j < i + 1 && IsJump(c1, j)
      ensures Resting(c1, j)
    {
      assert j < i && IsJump(c, j) && Resting(c, j);
      if Dest(c, j) == i { InPlaceDest(c, c1, j); } else { InPlaceRests(c, c1, i, j); }
    }
  }

  lemma NotNext(c: Code, x: nat, p: nat)
    requires 0 < x < |c| && !c[x - 1].Label? && p <= |c| && p != x
    ensures NextInsn(c, p) != x
  {
    hide NextInsn;
  }

  lemma WithPopElems(c: Code, i: nat, q: nat)
    requires i < |c| && q < |c|
    ensures var c' := WithPop(c, i);
            && |c'| == |c| + 1 && c'[Opened(i, q)] == c[q] && c'[i] == c[i] && c'[i + 1] == Op(Pop)
            && Opened(i, q) != i + 1 && Closer(i + 1, Opened(i, q)) == q
  {
  }

  lemma WithPopDest(c: Code, i: nat, q: nat)
    requires i < |c| && c[i] == Op(Leave) && q < |c| && q != i && Target(c[q]).Some?
    ensures var c', y := WithPop(c, i), Opened(i, q);
            y < |c'| && c'[y] == c[q] && Dest(c', y) == Opened(i, Dest(c, q))
  {
    hide NextInsn, Pos, WithPop, Removed;
    var c', y, l := WithPop(c, i), Opened(i, q), Target(c[q]).value;
    WithPopElems(c, i, q);
    WithPopPos(c, i, l);
    NotNext(c', i + 1, Pos(c', l));
    WithPopRemoved(c, i);
    RemovedDest(c', i + 1, y);
  }

  lemma WithPopSettled(c: Code, i: nat)
    requires i < |c| && c[i] == Op(Leave) && SettledBefore(c, i + 1)
    ensures SettledBefore(WithPop(c, i), i + 2)
  {
    hide NextInsn, Pos;
    var c' := WithPop(c, i);
    assert forall k :: 0 <= k < |c| ==> c'[Opened(i, k)] == c[k];
    assert c'[i + 1] == Op(Pop) && |c'| == |c| + 1;
    forall j | 0 <= j < i + 2 && IsJump(c', j)
      ensures Resting(c', j)
    {
      assert j < i && IsJump(c, j) && Resting(c, j);
      WithPopDest(c, i, j);
      var d := Dest(c, j);
      if IsJump(c, d) { WithPopDest(c, i, d); }
    }
  }

  lemma RewrittenSettled(c: Code, i: nat, entries: set<nat>)
    requires i < |c| && Closed(c) && SafeFold(c, i, entries) && SettledBefore(c, i)
    requires IsJump(c, i) ==> Resting(c, i) || CaseOf(c, i).Drop?
    ensures SettledBefore(Rewritten(c, i), NextIndex(c, i))
  {
    hide Pos, NextInsn, PrevInsn, Resting;
    match CaseOf(c, i)
    case Drop => DropSettled(c, i);
    case Stay =>
    case ToLeave =>
      LeavingSettled(c, i);
      WithPopSettled(Leaving(c, i), i);
    case Fold(b) => FoldSettled(c, i, b, entries);
    case Retarget =>
      var c1 := Rebranched(c, i);
      forall j | 0 <= j < i + 1 && IsJump(c1, j)
        ensures Resting(c1, j)
      {
        RebranchedRests(c, i, j);
      }
  }

  lemma RebranchedRests(c: Code, i: nat, j: nat)
    requires i < |c| && CaseOf(c, i).Retarget? && j != i && IsJump(c, j) && Resting(c, j)
    ensures IsJump(Rebranched(c, i), j) && Resting(Rebranched(c, i), j)
  {
    hide Pos, NextInsn, PrevInsn;
    var c1 := Rebranched(c, i);
    if Dest(c, j) == i { InPlaceDest(c, c1, j); } else { InPlaceRests(c, c1, i, j); }
  }

  // The pass

  /** No jump from i on is led into a circle by the list from it on. */
  ghost predicate NoneAhead(c: Code, i: nat) {
    forall j :: i <= j < |c| && IsJump(c, j) ==> !IntoCircle(c[j..], 0)
  }

  lemma SameAhead(c: Code, i: nat, c': Code, i': nat)
    requires i <= |c| && i' <= |c'| && c'[i'..] == c[i..]
    ensures NoneAhead(c', i') ==> NoneAhead(c, i)
  {
    if NoneAhead(c', i') {
      forall j | i <= j < |c| && IsJump(c, j)
        ensures !IntoCircle(c[j..], 0)
      {
        var j' := i' + (j - i);
        assert c'[j'..] == c'[i'..][j - i..] == c[i..][j - i..] == c[j..];
        assert c'[j'] == c'[i'..][j - i] == c[j];
      }
    }
  }

  /** A rewrite of instruction i leaves what is behind it. */
  lemma RewrittenBehind(c: Code, i: nat)
    requires i < |c|
    ensures NextIndex(c, i) <= |Rewritten(c, i)| && Rewritten(c, i)[NextIndex(c, i)..] == c[i + 1..]
  {
    hide Pos, NextInsn, PrevInsn;
    match CaseOf(c, i)
    case Drop => AfterRemoval(c, i);
    case Stay =>
    case ToLeave => AfterLeaving(c, i);
    case Fold(b) => AfterRemoval(Swapped(c, b, i), i);
    case Retarget =>
  }

  lemma AfterRemoval(c: Code, i: nat)
    requires i < |c|
    ensures i <= |Removed(c, i)| && Removed(c, i)[i..] == c[i + 1..]
  {
  }

  lemma AfterLeaving(c: Code, i: nat)
    requires i < |c|
    ensures var c' := WithPop(Leaving(c, i), i); i + 2 <= |c'| && c'[i + 2..] == c[i + 1..]
  {
  }

  lemma AheadStep(c: Code, i: nat)
    requires i < |c|
    ensures NoneAhead(c, i) <==> NoneAhead(c, i + 1) && (IsJump(c, i) ==> !IntoCircle(c[i..], 0))
  {
    hide IntoCircle;
  }

  lemma TurnSettled(c: Code, i: nat, entries: set<nat>)
    requires i < |c| && Good(c, entries) && SettledBefore(c, i) && (IsJump(c, i) ==> Stops(c, i))
    requires SafeFold(Settled(c, i), i, entries)
    ensures var c1 := Settled(c, i);
            SettledBefore(Rewritten(c1, i), NextIndex(c1, i)) && Good(Rewritten(c1, i), entries)
  {
    hide Settled, Good, SettledBefore, SafeFold, Pos, NextInsn, PrevInsn, Stops;
    var c1 := Settled(c, i);
    SettledRuns(c, i, entries);
    GoodClosed(c1, entries);
    SettledKeeps(c, i);
    SettledKind(c, i);
    if IsJump(c, i) { SettledRests(c, i); }
    RewrittenSettled(c1, i, entries);
    RewrittenGood(c1, i, entries);
  }

  lemma SettledKind(c: Code, i: nat)
    requires i < |c|
    ensures IsJump(Settled(c, i), i) == IsJump(c, i) && Settled(c, i)[i + 1..] == c[i + 1..]
  {
    hide Last;
  }

  lemma OpSettled(c: Code, i: nat)
    requires SettledBefore(c, i) && !IsJump(c, i)
    ensures SettledBefore(c, i + 1)
  {
    hide Resting;
  }

  lemma TurnAhead(c: Code, i: nat)
    requires i < |c|
    ensures var c1 := Settled(c, i); NoneAhead(Rewritten(c1, i), NextIndex(c1, i)) <==> NoneAhead(c, i + 1)
  {
    hide Settled, Rewritten, NextIndex, NoneAhead;
    var c1 := Settled(c, i);
    var c2, i2 := Rewritten(c1, i), NextIndex(c1, i);
    RewrittenBehind(c1, i);
    SettledKind(c, i);
    SameAhead(c, i + 1, c2, i2);
    SameAhead(c2, i2, c, i + 1);
  }

  lemma {:induction false} EndsFrom(c: Code, i: nat, entries: set<nat>)
    requires i <= |c| && Good(c, entries) && PassSafe(c, i, entries) && SettledBefore(c, i)
    ensures PassEnds(c, i) <==> NoneAhead(c, i)
    decreases |c| - i
  {
    if i < |c| {
      hide Good, Settled, Rewritten, NextIndex, SafeFold, SettledBefore, NoneAhead, IntoCircle, Stops;
      GoodClosed(c, entries);
      AheadStep(c, i);
      if !c[i].Op? {
        OpSettled(c, i);
        EndsFrom(c, i + 1, entries);
      } else {
        if IsJump(c, i) { StopsHere(c, i); }
        if IsJump(c, i) ==> Stops(c, i) {
          var c1 := Settled(c, i);
          TurnSettled(c, i, entries);
          Progress(c1, i);
          EndsFrom(Rewritten(c1, i), NextIndex(c1, i), entries);
          TurnAhead(c, i);
        }
      }
    }
  }

  /** A pass whose folds are safe comes to an end exactly when no jump is led into a circle by what
      comes behind it. */
  lemma PassEndsIff(c: Code, entries: set<nat>)
    requires Good(c, entries) && PassSafe(c, 0, entries)
    ensures PassEnds(c, 0) <==> forall i :: 0 <= i < |c| && IsJump(c, i) ==> !IntoCircle(c[i..], 0)
  {
    hide IntoCircle;
    EndsFrom(c, 0, entries);
  }

  lemma NoCycleAhead(c: Code, i: nat)
    requires LabelsOnce(c) && NoJumpCycle(c) && IsJump(c, i)
    ensures !IntoCircle(c[i..], 0)
  {
    hide CircleAt;
    NoCycleStops(c, i);
    StopsIff(c, i);
    if a: nat, p: nat :| CircleAt(c[i..], 0, a, p) { SuffixCircle(c, i, a, p); }
  }

  /** A list without a circle of jumps is passed to the end. */
  lemma PassStops(c: Code, entries: set<nat>)
    requires Good(c, entries) && PassSafe(c, 0, entries) && NoJumpCycle(c)
    ensures PassEnds(c, 0)
  {
    hide IntoCircle, PassEnds;
    GoodClosed(c, entries);
    PassEndsIff(c, entries);
    forall i | 0 <= i < |c| && IsJump(c, i)
      ensures !IntoCircle(c[i..], 0)
    {
      NoCycleAhead(c, i);
    }
  }

  /** From conditions on the list alone: a guarded list without a circle of jumps is passed to the
      end, and every run from the beginning and from every entry is kept. */
  lemma WholePass(c: Code, entries: set<nat>)
    requires Good(c, entries) && Guarded(c, entries) && NoJumpCycle(c)
    ensures PassSafe(c, 0, entries) && PassEnds(c, 0)
    ensures Good(PassCode(c, 0), entries) && SameRuns(c, PassCode(c, 0), entries)
  {
    hide Good, Guarded, PassSafe, PassEnds, SameRuns;
    GuardedSafe(c, 0, entries);
    PassRuns(c, 0, entries);
    PassStops(c, entries);
  }
}
