/** The whole peephole pass, from conditions on the list that it is given: when its folds are safe,
    and when it comes to an end. */
module PassLaws {
  import opened Options
  import opened JumpCode
  import opened Peephole
  import opened PeepholeLists
  import opened JumpLoop
  import opened PeepholePass

  // Folds

  /** Label p is reached from branch b over labels and jumps only, and stands before jump n. */
  predicate Behind(c: Code, b: nat, p: nat, n: nat) {
    && b < p < n < |c| && IsBranch(c, b) && c[p].Label? && IsJump(c, n)
    && (forall k :: b < k < p ==> c[k].Label? || IsJump(c, k))
    && (forall k :: p < k < n ==> c[k].Label?)
  }

  /** Such a label is no entry, and only elements from the branch on, before the label, refer to it. */
  predicate Sheltered(c: Code, entries: set<nat>, b: nat, p: nat)
    requires p < |c| && c[p].Label?
  {
    c[p].name !in entries && forall j :: 0 <= j < |c| && Target(c[j]) == Some(c[p].name) ==> b <= j < p
  }

  /** Every label that a fold could pass is sheltered. */
  predicate Guarded(c: Code, entries: set<nat>) {
    forall b, p, n :: 0 <= b < p < n < |c| && Behind(c, b, p, n) ==> Sheltered(c, entries, b, p)
  }

  /** Then a fold passes no label that is used: the branch leads behind the jump, and the jump does
      not lead to itself. */
  lemma GuardedFold(c: Code, i: nat, entries: set<nat>)
    requires i < |c| && Guarded(c, entries) && LabelsOnce(c)
    ensures SafeFold(c, i, entries)
  {
    hide Pos, NextInsn, PrevInsn;
    if CaseOf(c, i).Fold? {
      var b := CaseOf(c, i).b;
      forall p | b < p < i && c[p].Label?
        ensures c[p].name !in entries && forall j :: 0 <= j < |c| ==> Target(c[j]) != Some(c[p].name)
      {
        assert Behind(c, b, p, i);
        FoldMisses(c, i, b, p);
      }
    }
  }

  /** The branch of a fold does not refer to a label between it and the jump. */
  lemma FoldMisses(c: Code, i: nat, b: nat, p: nat)
    requires i < |c| && CaseOf(c, i) == Fold(b) && b < p < i && LabelsOnce(c)
    ensures Target(c[b]) != Some(c[p].name)
  {
    hide NextInsn, PrevInsn;
    if Target(c[b]) == Some(c[p].name) {
      LabelStands(c, p);
    }
  }

  /** A reference that is added to those of a list is harmless if it comes from where a jump to the
      label of a reference before it leads. */
  lemma ThreadedShelter(c: Code, entries: set<nat>, b: nat, p: nat, n: nat, j: nat, d: nat)
    requires Guarded(c, entries) && Closed(c) && Behind(c, b, p, n)
    requires j < |c| && Target(c[j]).Some? && d == Dest(c, j) && IsJump(c, d) && Target(c[d]) == Some(c[p].name)
    ensures b <= j < p
  {
    hide NextInsn, Pos;
    assert Sheltered(c, entries, b, p);
    var q := Pos(c, Target(c[j]).value);
    assert q < d;
    assert b < q;
    assert Behind(c, b, q, d);
    assert Sheltered(c, entries, b, q);
  }

  lemma KindsBehind(c: Code, c': Code, b: nat, p: nat, n: nat)
    requires |c'| == |c| && Behind(c', b, p, n)
    requires forall k: nat :: IsJump(c', k) ==> IsJump(c, k)
    requires forall k: nat :: IsBranch(c', k) ==> IsBranch(c, k)
    requires forall k :: 0 <= k < |c| && c'[k].Label? ==> c[k] == c'[k]
    ensures Behind(c, b, p, n)
  {
  }

  /** A change in place of one jump or branch that takes over the label of the jump it leads to */
  lemma RetargetGuarded(c: Code, entries: set<nat>, j: nat, e: Elem)
    requires Guarded(c, entries) && Closed(c) && j < |c| && Target(c[j]).Some? && IsJump(c, Dest(c, j))
    requires Target(e) == Target(c[Dest(c, j)]) && e.insn.Jump? == c[j].insn.Jump?
    ensures Guarded(c[j := e], entries)
  {
    hide NextInsn, Pos;
    var c' := c[j := e];
    forall b, p, n | 0 <= b < p < n < |c'| && Behind(c', b, p, n)
      ensures Sheltered(c', entries, b, p)
    {
      KindsBehind(c, c', b, p, n);
      assert Sheltered(c, entries, b, p);
      if Target(e) == Some(c[p].name) { ThreadedShelter(c, entries, b, p, n, j, Dest(c, j)); }
    }
  }

  lemma {:induction false} LastGuarded(c: Code, i: nat, l: nat, n: nat, entries: set<nat>)
    requires IsJump(c, i) && Good(WithLabel(c, i, l), entries) && Guarded(WithLabel(c, i, l), entries)
    ensures Guarded(WithLabel(c, i, Last(c, i, l, n)), entries)
    decreases n
  {
    hide Good, Reached, Guarded;
    if n > 0 && Again(c, i, l) {
      var l', c1 := c[Reached(c, l)].insn.l, WithLabel(c, i, l);
      TurnRuns(c, i, l, entries);
      WithLabelReached(c, i, l, l);
      GoodClosed(c1, entries);
      DestIs(c1, i);
      RetargetGuarded(c1, entries, i, Op(Jump(l')));
      assert c1[i := Op(Jump(l'))] == WithLabel(c, i, l');
      LastGuarded(c, i, l', n - 1, entries);
    }
  }

  lemma GoodClosed(c: Code, entries: set<nat>)
    requires Good(c, entries)
    ensures Closed(c) && LabelsOnce(c)
  {
  }

  lemma DestIs(c: Code, i: nat)
    requires IsJump(c, i)
    ensures Dest(c, i) == Reached(c, c[i].insn.l)
  {
  }

  lemma SettledGuarded(c: Code, i: nat, entries: set<nat>)
    requires i < |c| && Good(c, entries) && Guarded(c, entries)
    ensures Guarded(Settled(c, i), entries)
  {
    hide Good, Last, Guarded;
    if IsJump(c, i) {
      assert WithLabel(c, i, c[i].insn.l) == c;
      LastGuarded(c, i, c[i].insn.l, |c| + 1, entries);
    }
  }

  /** Where a label that is sheltered after a removal stood before */
  lemma RemovedBehind(c: Code, i: nat, b: nat, p: nat, n: nat)
    requires IsJump(c, i) && Behind(Removed(c, i), b, p, n)
    ensures Behind(c, Farther(i, b), Farther(i, p), if p < i <= n then i else Farther(i, n))
  {
    var c' := Removed(c, i);
    assert forall k :: 0 <= k < |c'| ==> c'[k] == c[Farther(i, k)];
    var b1, p1, n1 := Farther(i, b), Farther(i, p), if p < i <= n then i else Farther(i, n);
    forall k | b1 < k < p1
      ensures c[k].Label? || IsJump(c, k)
    {
      if k != i { assert c'[Closer(i, k)] == c[k]; }
    }
    forall k | p1 < k < n1
      ensures c[k].Label?
    {
      assert c'[Closer(i, k)] == c[k];
    }
  }

  lemma RemovedGuarded(c: Code, i: nat, entries: set<nat>)
    requires IsJump(c, i) && Guarded(c, entries)
    ensures Guarded(Removed(c, i), entries)
  {
    var c' := Removed(c, i);
    assert forall k :: 0 <= k < |c'| ==> c'[k] == c[Farther(i, k)];
    forall b, p, n | 0 <= b < p < n < |c'| && Behind(c', b, p, n)
      ensures Sheltered(c', entries, b, p)
    {
      RemovedBehind(c, i, b, p, n);
      assert Sheltered(c, entries, Farther(i, b), Farther(i, p));
      hide Behind;
      forall j | 0 <= j < |c'| && Target(c'[j]) == Some(c'[p].name)
        ensures b <= j < p
      {
        assert c'[j] == c[Farther(i, j)];
      }
    }
  }

  lemma LeavingGuarded(c: Code, i: nat, entries: set<nat>)
    requires IsJump(c, i) && Guarded(c, entries)
    ensures Guarded(Leaving(c, i), entries)
  {
    var c' := Leaving(c, i);
    forall b, p, n | 0 <= b < p < n < |c'| && Behind(c', b, p, n)
      ensures Sheltered(c', entries, b, p)
    {
      KindsBehind(c, c', b, p, n);
      assert Sheltered(c, entries, b, p);
    }
  }

  /** An element elsewhere may go. */
  lemma ElsewhereBehind(c: Code, x: nat, b: nat, p: nat, n: nat)
    requires x < |c| && Behind(c, b, p, n) && !(b <= x <= n)
    ensures Behind(Removed(c, x), Closer(x, b), Closer(x, p), Closer(x, n))
  {
    var c' := Removed(c, x);
    if x < b {
      assert forall k :: b <= k <= n ==> c'[k - 1] == c[k];
      assert forall k :: b - 1 <= k < n ==> c'[k] == c[k + 1];
    } else {
      assert forall k :: b <= k <= n ==> c'[k] == c[k];
    }
  }

  lemma WithPopBehind(c: Code, i: nat, b: nat, p: nat, n: nat)
    requires i < |c| && c[i] == Op(Leave) && Behind(WithPop(c, i), b, p, n)
    ensures Behind(c, Closer(i + 1, b), Closer(i + 1, p), Closer(i + 1, n)) && !(b <= i + 1 <= n)
  {
    hide WithPop, Behind, Removed;
    var c' := WithPop(c, i);
    PopIsThere(c, i);
    NotWithin(c', b, p, n, i + 1);
    WithPopRemoved(c, i);
    ElsewhereBehind(c', i + 1, b, p, n);
  }

  lemma PopIsThere(c: Code, i: nat)
    requires i < |c|
    ensures i + 1 < |WithPop(c, i)| && WithPop(c, i)[i + 1] == Op(Pop)
  {
  }

  /** Between the branch and the jump there are only labels and jumps. */
  lemma NotWithin(c: Code, b: nat, p: nat, n: nat, x: nat)
    requires Behind(c, b, p, n) && x < |c| && c[x] == Op(Pop)
    ensures !(b <= x <= n)
  {
  }

  lemma WithPopGuarded(c: Code, i: nat, entries: set<nat>)
    requires i < |c| && c[i] == Op(Leave) && Guarded(c, entries)
    ensures Guarded(WithPop(c, i), entries)
  {
    var c' := WithPop(c, i);
    assert forall k :: 0 <= k < |c'| && k != i + 1 ==> c'[k] == c[Closer(i + 1, k)];
    assert c'[i + 1] == Op(Pop);
    forall b, p, n | 0 <= b < p < n < |c'| && Behind(c', b, p, n)
      ensures Sheltered(c', entries, b, p)
    {
      WithPopBehind(c, i, b, p, n);
      assert Sheltered(c, entries, Closer(i + 1, b), Closer(i + 1, p));
      hide Behind;
      forall j | 0 <= j < |c'| && Target(c'[j]) == Some(c'[p].name)
        ensures b <= j < p
      {
        assert c'[j] == c[Closer(i + 1, j)];
      }
    }
  }

  /** A branch that exchanges labels with the jump behind it stays within the shelter. */
  lemma SwappedShelter(c: Code, b: nat, i: nat, entries: set<nat>, b1: nat, p: nat, j: nat)
    requires IsBranch(c, b) && IsJump(c, i) && b < i && (forall k :: b < k < i ==> c[k].Label?)
    requires IsBranch(c, b1) && p < |c| && c[p].Label? && Sheltered(c, entries, b1, p)
    requires j < |c| && j != i && Target(Swapped(c, b, i)[j]) == Some(c[p].name)
    ensures b1 <= j < p
  {
    var c1 := Swapped(c, b, i);
    assert Target(c1[b]) == Target(c[i]);
    if j == b {
      assert b1 <= i < p;
      NotBetween(c, b, i, b1);
    } else {
      assert c1[j] == c[j];
    }
  }

  lemma NotBetween(c: Code, b: nat, i: nat, x: nat)
    requires i < |c| && (forall k :: b < k < i ==> c[k].Label?)
    ensures b < x < i ==> c[x].Label?
  {
  }

  /** A branch takes over the label of the jump behind it, and the jump goes away. */
  lemma FoldedGuarded(c: Code, b: nat, i: nat, entries: set<nat>)
    requires IsBranch(c, b) && IsJump(c, i) && b < i && (forall k :: b < k < i ==> c[k].Label?) && Guarded(c, entries)
    ensures Guarded(Removed(Swapped(c, b, i), i), entries)
  {
    var c1, c' := Swapped(c, b, i), Removed(Swapped(c, b, i), i);
    forall b0, p, n | 0 <= b0 < p < n < |c'| && Behind(c', b0, p, n)
      ensures Sheltered(c', entries, b0, p)
    {
      RemovedBehind(c1, i, b0, p, n);
      var b1, p1, n1 := Farther(i, b0), Farther(i, p), if p < i <= n then i else Farther(i, n);
      KindsBehind(c, c1, b1, p1, n1);
      assert Sheltered(c, entries, b1, p1) && IsBranch(c, b1) && c'[p] == c1[p1] == c[p1];
      hide Behind, Swapped, Sheltered;
      FoldedShelter(c, b, i, entries, b0, p);
    }
  }

  lemma FoldedShelter(c: Code, b: nat, i: nat, entries: set<nat>, b0: nat, p: nat)
    requires IsBranch(c, b) && IsJump(c, i) && b < i && (forall k :: b < k < i ==> c[k].Label?)
    requires var b1, p1 := Farther(i, b0), Farther(i, p);
             && IsBranch(c, b1) && p1 < |c| && c[p1].Label? && Sheltered(c, entries, b1, p1)
             && Removed(Swapped(c, b, i), i)[p] == c[p1]
    ensures Sheltered(Removed(Swapped(c, b, i), i), entries, b0, p)
  {
    var c1, c' := Swapped(c, b, i), Removed(Swapped(c, b, i), i);
    hide Swapped;
    forall j | 0 <= j < |c'| && Target(c'[j]) == Some(c'[p].name)
      ensures b0 <= j < p
    {
      assert c'[j] == c1[Farther(i, j)];
      SwappedShelter(c, b, i, entries, Farther(i, b0), Farther(i, p), Farther(i, j));
    }
  }

  lemma RewrittenGuarded(c: Code, i: nat, entries: set<nat>)
    requires i < |c| && Guarded(c, entries) && Closed(c)
    ensures Guarded(Rewritten(c, i), entries)
  {
    hide Guarded, Pos, NextInsn, PrevInsn;
    match CaseOf(c, i)
    case Drop => RemovedGuarded(c, i, entries);
    case Stay =>
    case ToLeave =>
      LeavingGuarded(c, i, entries);
      WithPopGuarded(Leaving(c, i), i, entries);
    case Fold(b) => FoldedGuarded(c, b, i, entries);
    case Retarget =>
      var l := c[Dest(c, i)].insn.l;
      RetargetGuarded(c, entries, i, Op(if c[i].insn.BranchIf? then BranchIf(l) else BranchUnless(l)));
  }

  /** In a guarded list every fold of the pass is safe. */
  lemma {:induction false} GuardedSafe(c: Code, i: nat, entries: set<nat>)
    requires i <= |c| && Good(c, entries) && Guarded(c, entries)
    ensures PassSafe(c, i, entries)
    decreases |c| - i
  {
    hide Good, Guarded, Settled, Rewritten, NextIndex, SafeFold;
    if i < |c| {
      if c[i].Op? {
        var c1 := Settled(c, i);
        SettledRuns(c, i, entries);
        SettledGuarded(c, i, entries);
        GoodClosed(c1, entries);
        GuardedFold(c1, i, entries);
        Progress(c1, i);
        RewrittenGood(c1, i, entries);
        RewrittenGuarded(c1, i, entries);
        GuardedSafe(Rewritten(c1, i), NextIndex(c1, i), entries);
      } else {
        GuardedSafe(c, i + 1, entries);
      }
    }
  }
}
