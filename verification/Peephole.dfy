/** The jump part of iseq_peephole_optimize, and that it keeps every run. */
module Peephole {
  import opened Options
  import opened JumpCode

  /** The first instruction or adjustment at p or behind it (get_next_insn, get_destination_insn) */
  function NextInsn(c: Code, p: nat): (q: nat)
    requires p <= |c|
    ensures p <= q <= |c| && (q < |c| ==> !c[q].Label?)
    ensures forall k :: p <= k < q ==> c[k].Label?
    decreases |c| - p
  {
    if p < |c| && c[p].Label? then NextInsn(c, p + 1) else p
  }

  /** The last instruction or adjustment before p (get_prev_insn) */
  function PrevInsn(c: Code, p: nat): (q: Option<nat>)
    requires p <= |c|
    ensures q.Some? ==> q.value < p && !c[q.value].Label? && forall k :: q.value < k < p ==> c[k].Label?
    ensures q.None? ==> forall k :: 0 <= k < p ==> c[k].Label?
  {
    if p == 0 then None else if c[p - 1].Label? then PrevInsn(c, p - 1) else Some(p - 1)
  }

  function Dest(c: Code, i: nat): nat
    requires i < |c| && Target(c[i]).Some?
  {
    NextInsn(c, Pos(c, Target(c[i]).value))
  }

  /** Both lists have the same runs from their beginning and from every entry label. */
  ghost predicate SameRuns(c: Code, c': Code, entries: set<nat>) {
    && (forall vm, m, k {:trigger Trace(c, vm, 0, m, k)} :: Trace(c, vm, 0, m, k) == Trace(c', vm, 0, m, k))
    && (forall vm, l, m, k {:trigger Trace(c, vm, Pos(c, l), m, k)} ::
          l in entries ==> Trace(c, vm, Pos(c, l), m, k) == Trace(c', vm, Pos(c', l), m, k))
  }

  lemma SameRunsTrans(c: Code, c1: Code, c2: Code, entries: set<nat>)
    requires SameRuns(c, c1, entries) && SameRuns(c1, c2, entries)
    ensures SameRuns(c, c2, entries)
  {
    hide Trace, Pos;
    forall vm, m, k
      ensures Trace(c, vm, 0, m, k) == Trace(c2, vm, 0, m, k)
    {
      assert Trace(c, vm, 0, m, k) == Trace(c1, vm, 0, m, k);
    }
    forall vm, l, m, k | l in entries
      ensures Trace(c, vm, Pos(c, l), m, k) == Trace(c2, vm, Pos(c2, l), m, k)
    {
      assert Trace(c, vm, Pos(c, l), m, k) == Trace(c1, vm, Pos(c1, l), m, k);
    }
  }

  /** Quiet steps from x on the domain d are matched, as far as landing goes, by the map f. */
  ghost predicate StepsMapped(c: Code, c': Code, d: nat -> bool, f: nat -> nat) {
    forall x: nat {:trigger Quiet(c, x)} ::
      d(x) && Quiet(c, x).Some? ==> d(Quiet(c, x).value) && Land(c', f(x)) == Land(c', f(Quiet(c, x).value))
  }

  lemma {:induction false} LandMapped(c: Code, c': Code, d: nat -> bool, f: nat -> nat, x: nat, n: nat)
    requires StepsMapped(c, c', d, f) && d(x)
    ensures d(After(c, x, n)) && Land(c', f(x)) == Land(c', f(After(c, x, n)))
    decreases n
  {
    hide Land;
    if n > 0 && Quiet(c, x).Some? { LandMapped(c, c', d, f, Quiet(c, x).value, n - 1); }
  }

  /** Landings correspond when quiet steps are matched both ways. */
  lemma Transport(c: Code, c': Code, d: nat -> bool, f: nat -> nat, d': nat -> bool, g: nat -> nat, x: nat)
    requires StepsMapped(c, c', d, f) && StepsMapped(c', c, d', g)
    requires d(x) && d'(f(x)) && Land(c, g(f(x))) == Land(c, x)
    requires forall y: nat {:trigger Quiet(c', y)} :: d'(y) && Quiet(c', y) == None ==> Land(c, g(y)).Some?
    ensures if Land(c, x).None? then Land(c', f(x)).None?
            else
              var q := Land(c, x).value;
              d(q) && Quiet(c, q) == None && Land(c', f(x)) == Land(c', f(q))
  {
    if n: nat :| Quiet(c, After(c, x, n)) == None {
      LandIs(c, x, n);
      LandMapped(c, c', d, f, x, n);
    } else if m: nat :| Quiet(c', After(c', f(x), m)) == None {
      LandMapped(c', c, d', g, f(x), m);
    }
  }

  /** Labels in place: each stands once, those referred to and the entries stand in the list. */
  ghost predicate Good(c: Code, entries: set<nat>) {
    LabelsOnce(c) && Closed(c) && forall l :: l in entries ==> Pos(c, l) < |c|
  }

  /** Agreement of landings on the domain gives the same runs. */
  lemma RunsByAgreement(c: Code, c': Code, d: nat -> bool, f: nat -> nat, entries: set<nat>)
    requires AllAgree(c, c', d, f)
    requires d(0) && f(0) == 0
    requires forall l {:trigger Pos(c, l)} :: l in entries ==> d(Pos(c, l)) && f(Pos(c, l)) == Pos(c', l)
    ensures SameRuns(c, c', entries)
  {
    hide Trace, Land, Agree;
    forall vm, m, k
      ensures Trace(c, vm, 0, m, k) == Trace(c', vm, 0, m, k)
    {
      assert Related(c, c', d, f, 0, 0);
      SameTrace(c, c', d, f, vm, 0, 0, m, k);
    }
    forall vm, l, m, k | l in entries
      ensures Trace(c, vm, Pos(c, l), m, k) == Trace(c', vm, Pos(c', l), m, k)
    {
      var p := Pos(c, l);
      assert d(p);
      assert Related(c, c', d, f, p, f(p));
      SameTrace(c, c', d, f, vm, p, f(p), m, k);
    }
  }

  // Changes in place

  lemma {:induction false} PosKept(c: Code, c': Code, l: nat)
    requires |c'| == |c| && forall k :: 0 <= k < |c| ==> (c'[k] == c[k] || (!c[k].Label? && !c'[k].Label?))
    ensures Pos(c', l) == Pos(c, l)
    decreases |c|
  {
    if c != [] && c[0] != Label(l) {
      PosKept(c[1..], c'[1..], l);
    }
  }

  /** The lists have the same labels in the same places. */
  predicate SameLabels(c: Code, c': Code) {
    |c'| == |c| && forall k :: 0 <= k < |c| ==> (c'[k] == c[k] || (!c[k].Label? && !c'[k].Label?))
  }

  lemma RelatedSelf(c: Code, c': Code, d: nat -> bool, f: nat -> nat, p: nat)
    requires d(p)
    ensures Related(c, c', d, f, p, f(p))
  {
  }

  /** In both lists the same is done at q, and the runs go on within the domain. */
  ghost predicate SameAt(c: Code, c': Code, d: nat -> bool, q: nat) {
    || q >= |c|
    || (q < |c'| && c'[q] == c[q] && (c[q] == Op(Leave) || (!IsBranch(c, q) && d(q + 1))))
    || (&& IsBranch(c, q) && IsBranch(c', q)
        && forall b :: Related(c, c', d, (x: nat) => x, BranchTo(c, q, b), BranchTo(c', q, b)))
  }

  /** A change in place that keeps all landings of the domain keeps the runs. */
  lemma InPlaceRuns(c: Code, c': Code, d: nat -> bool, entries: set<nat>)
    requires SameLabels(c, c') && d(0) && forall l :: l in entries ==> d(Pos(c, l))
    requires forall x {:trigger d(x)} :: d(x) ==> Land(c', x) == Land(c, x)
    requires forall x {:trigger d(x)} :: d(x) && Land(c, x).Some? ==> SameAt(c, c', d, Land(c, x).value)
    ensures SameRuns(c, c', entries)
  {
    var f := (x: nat) => x;
    forall l
      ensures Pos(c', l) == Pos(c, l)
    {
      PosKept(c, c', l);
    }
    forall x | d(x)
      ensures Agree(c, c', d, f, Land(c, x), Land(c', f(x)))
    {
      if Land(c, x).Some? {
        var q := Land(c, x).value;
        assert SameAt(c, c', d, q);
        if q < |c| && c[q] != Op(Leave) && !IsBranch(c, q) { RelatedSelf(c, c', d, f, q + 1); }
      }
    }
    RunsByAgreement(c, c', d, f, entries);
  }

  /** Jump threading: jump i, whose destination is another jump, takes over its label. */
  function Threaded(c: Code, i: nat): Code
    requires IsJump(c, i) && IsJump(c, Dest(c, i))
  {
    c[i := c[Dest(c, i)]]
  }

  lemma ThreadedQuiet(c: Code, i: nat, x: nat)
    requires IsJump(c, i) && IsJump(c, Dest(c, i)) && x != i
    ensures Quiet(Threaded(c, i), x) == Quiet(c, x)
  {
    if IsJump(c, x) { PosKept(c, Threaded(c, i), c[x].insn.l); }
  }

  lemma ThreadedLands(c: Code, i: nat)
    requires IsJump(c, i) && IsJump(c, Dest(c, i)) && Dest(c, i) != i
    ensures var c' := Threaded(c, i);
            && Land(c, i) == Land(c, Quiet(c', i).value)
            && Land(c', i) == Land(c', Quiet(c, i).value)
  {
    var c', d := Threaded(c, i), Dest(c, i);
    var p := Pos(c, c[i].insn.l);
    PosKept(c, c', c[d].insn.l);
    PosKept(c, c', c[i].insn.l);
    LandStep(c, i);
    LandPastLabels(c, p, d);
    LandStep(c, d);
    LandStep(c', i);
    LandPastLabels(c', p, d);
    LandStep(c', d);
  }

  lemma ThreadedLand(c: Code, i: nat, x: nat)
    requires IsJump(c, i) && IsJump(c, Dest(c, i)) && Dest(c, i) != i
    ensures Land(Threaded(c, i), x) == Land(c, x)
    ensures Land(c, x).Some? ==> Quiet(c, Land(c, x).value) == None
  {
    var c' := Threaded(c, i);
    var all, id := (y: nat) => true, (y: nat) => y;
    ThreadedLands(c, i);
    forall y: nat
      ensures y != i ==> Quiet(c', y) == Quiet(c, y)
      ensures Quiet(c, y).Some? ==> Land(c', y) == Land(c', Quiet(c, y).value)
      ensures Quiet(c', y).Some? ==> Land(c, y) == Land(c, Quiet(c', y).value)
      ensures Quiet(c, y) == None ==> Land(c, y) == Some(y)
      ensures Quiet(c', y) == None ==> Land(c', y) == Some(y)
    {
      if y != i {
        ThreadedQuiet(c, i, y);
        if Quiet(c, y).Some? { LandStep(c, y); LandStep(c', y); } else { LandHere(c, y); LandHere(c', y); }
      }
    }
    hide Land;
    Transport(c, c', all, id, all, id, x);
  }

  lemma ThreadedRuns(c: Code, i: nat, entries: set<nat>)
    requires IsJump(c, i) && IsJump(c, Dest(c, i)) && Dest(c, i) != i
    ensures SameRuns(c, Threaded(c, i), entries)
  {
    var c', all, id := Threaded(c, i), (y: nat) => true, (y: nat) => y;
    forall x: nat
      ensures Land(c', x) == Land(c, x) && (Land(c, x).Some? ==> SameAt(c, c', all, Land(c, x).value))
    {
      ThreadedLand(c, i, x);
      hide Land;
      if Land(c, x).Some? && IsBranch(c, Land(c, x).value) {
        var q := Land(c, x).value;
        PosKept(c, c', c[q].insn.l);
        forall b
          ensures Related(c, c', all, id, BranchTo(c, q, b), BranchTo(c', q, b))
        {
          RelatedSelf(c, c', all, id, BranchTo(c, q, b));
        }
      }
    }
    hide Land;
    InPlaceRuns(c, c', all, entries);
  }

  // Branches whose destination is a jump

  /** Branch i, whose destination is a jump, takes over its label. */
  function Rebranched(c: Code, i: nat): Code
    requires IsBranch(c, i) && IsJump(c, Dest(c, i))
  {
    var l := c[Dest(c, i)].insn.l;
    c[i := Op(if c[i].insn.BranchIf? then BranchIf(l) else BranchUnless(l))]
  }

  lemma {:induction false} SameQuietAfter(c: Code, c': Code, x: nat, n: nat)
    requires forall y: nat :: Quiet(c', y) == Quiet(c, y)
    ensures After(c', x, n) == After(c, x, n)
    decreases n
  {
    if n > 0 && Quiet(c, x).Some? { SameQuietAfter(c, c', Quiet(c, x).value, n - 1); }
  }

  lemma SameQuietLand(c: Code, c': Code, x: nat)
    requires forall y: nat :: Quiet(c', y) == Quiet(c, y)
    ensures Land(c', x) == Land(c, x)
    ensures Land(c, x).Some? ==> Quiet(c, Land(c, x).value) == None
  {
    forall n: nat
      ensures After(c', x, n) == After(c, x, n)
    {
      SameQuietAfter(c, c', x, n);
    }
    if n: nat :| Quiet(c, After(c, x, n)) == None {
      LandIs(c, x, n);
      LandIs(c', x, n);
    }
  }

  lemma RebranchedRuns(c: Code, i: nat, entries: set<nat>)
    requires IsBranch(c, i) && IsJump(c, Dest(c, i))
    ensures SameRuns(c, Rebranched(c, i), entries)
  {
    var c', all, id := Rebranched(c, i), (y: nat) => true, (y: nat) => y;
    forall l
      ensures Pos(c', l) == Pos(c, l)
    {
      PosKept(c, c', l);
    }
    assert forall y: nat :: Quiet(c', y) == Quiet(c, y);
    LandPastLabels(c, Pos(c, c[i].insn.l), Dest(c, i));
    LandStep(c, Dest(c, i));
    forall x: nat
      ensures Land(c', x) == Land(c, x) && (Land(c, x).Some? ==> SameAt(c, c', all, Land(c, x).value))
    {
      SameQuietLand(c, c', x);
      if Land(c, x).Some? && IsBranch(c, Land(c, x).value) {
        var q := Land(c, x).value;
        forall b
          ensures Related(c, c', all, id, BranchTo(c, q, b), BranchTo(c', q, b))
        {
          RebranchedTo(c, i, q, b);
        }
      }
    }
    hide Land;
    InPlaceRuns(c, c', all, entries);
  }

  lemma RebranchedTo(c: Code, i: nat, q: nat, b: bool)
    requires IsBranch(c, i) && IsJump(c, Dest(c, i)) && IsBranch(c, q)
    requires Land(c, Pos(c, c[i].insn.l)) == Land(c, Pos(c, c[Dest(c, i)].insn.l))
    ensures var c' := Rebranched(c, i);
            Related(c, c', (y: nat) => true, (y: nat) => y, BranchTo(c, q, b), BranchTo(c', q, b))
  {
    var c', all, id := Rebranched(c, i), (y: nat) => true, (y: nat) => y;
    PosKept(c, c', c'[q].insn.l);
    RelatedSelf(c, c', all, id, BranchTo(c', q, b));
  }

  // A branch and the jump behind it change places

  /** No label strictly between b and i is referred to or an entry. */
  predicate Unused(c: Code, b: nat, i: nat, entries: set<nat>) {
    forall k :: b < k < i < |c| && c[k].Label? ==>
                  c[k].name !in entries && forall j :: 0 <= j < |c| ==> Target(c[j]) != Some(c[k].name)
  }

  /** Branch b and jump i behind it: the branch is inverted and the two exchange their labels. */
  function Swapped(c: Code, b: nat, i: nat): Code
    requires IsBranch(c, b) && IsJump(c, i)
  {
    var l := c[i].insn.l;
    c[b := Op(if c[b].insn.BranchIf? then BranchUnless(l) else BranchIf(l))][i := Op(Jump(c[b].insn.l))]
  }

  predicate Outside(b: nat, i: nat, x: nat) {
    x <= b || x > i
  }

  lemma TargetsOutside(c: Code, b: nat, i: nat, entries: set<nat>, j: nat)
    requires IsBranch(c, b) && IsJump(c, i) && b < i && Unused(c, b, i, entries) && Closed(c)
    requires j < |c| && Target(c[j]).Some?
    ensures Outside(b, i, Pos(c, Target(c[j]).value))
  {
    var p := Pos(c, Target(c[j]).value);
    assert p < |c| && c[p] == Label(Target(c[j]).value);
  }

  lemma SwappedQuiet(c: Code, b: nat, i: nat, entries: set<nat>, y: nat)
    requires IsBranch(c, b) && IsJump(c, i) && b < i && Unused(c, b, i, entries) && Closed(c)
    requires Outside(b, i, y)
    ensures Quiet(Swapped(c, b, i), y) == Quiet(c, y)
    ensures Quiet(c, y).Some? ==> Outside(b, i, Quiet(c, y).value)
  {
    if IsJump(c, y) {
      PosKept(c, Swapped(c, b, i), c[y].insn.l);
      TargetsOutside(c, b, i, entries, y);
    }
  }

  lemma SwappedLand(c: Code, b: nat, i: nat, entries: set<nat>, x: nat)
    requires IsBranch(c, b) && IsJump(c, i) && b < i && Unused(c, b, i, entries) && Closed(c)
    requires Outside(b, i, x)
    ensures Land(Swapped(c, b, i), x) == Land(c, x)
    ensures Land(c, x).Some? ==> Quiet(c, Land(c, x).value) == None && Outside(b, i, Land(c, x).value)
  {
    var c' := Swapped(c, b, i);
    var d, id := (y: nat) => Outside(b, i, y), (y: nat) => y;
    forall y: nat | d(y)
      ensures Quiet(c', y) == Quiet(c, y)
      ensures Quiet(c, y).Some? ==> d(Quiet(c, y).value)
      ensures Quiet(c, y).Some? ==>
                Land(c', y) == Land(c', Quiet(c, y).value) && Land(c, y) == Land(c, Quiet(c, y).value)
      ensures Quiet(c, y) == None ==> Land(c, y) == Some(y) && Land(c', y) == Some(y)
    {
      SwappedQuiet(c, b, i, entries, y);
      if Quiet(c, y).Some? { LandStep(c, y); LandStep(c', y); } else { LandHere(c, y); LandHere(c', y); }
    }
    hide Land;
    Transport(c, c', d, id, d, id, x);
  }

  /** At the branch itself both lists go the same way. */
  lemma SwappedTo(c: Code, b: nat, i: nat, entries: set<nat>, v: bool)
    requires IsBranch(c, b) && IsJump(c, i) && b < i && Unused(c, b, i, entries) && Closed(c)
    requires forall k :: b < k < i ==> c[k].Label?
    ensures var c' := Swapped(c, b, i);
            Related(c, c', (y: nat) => Outside(b, i, y), (y: nat) => y, BranchTo(c, b, v), BranchTo(c', b, v))
  {
    hide Land, Unused, Closed;
    var c', d, id := Swapped(c, b, i), (y: nat) => Outside(b, i, y), (y: nat) => y;
    var lb, li := c[b].insn.l, c[i].insn.l;
    PosKept(c, c', lb);
    PosKept(c, c', li);
    LandPastLabels(c, b + 1, i);
    LandPastLabels(c', b + 1, i);
    LandStep(c, i);
    LandStep(c', i);
    TargetsOutside(c, b, i, entries, b);
    TargetsOutside(c, b, i, entries, i);
    var x := Pos(c, if c[b].insn.BranchIf? == v then lb else li);
    RelatedSelf(c, c', d, id, x);
  }

  lemma EntriesOutside(c: Code, b: nat, i: nat, entries: set<nat>)
    requires IsJump(c, i) && b < i && Unused(c, b, i, entries) && Good(c, entries)
    ensures forall l :: l in entries ==> Outside(b, i, Pos(c, l))
  {
    forall l | l in entries
      ensures Outside(b, i, Pos(c, l))
    {
      assert c[Pos(c, l)] == Label(l);
    }
  }

  lemma SwappedRuns(c: Code, b: nat, i: nat, entries: set<nat>)
    requires IsBranch(c, b) && IsJump(c, i) && b < i && Unused(c, b, i, entries) && Good(c, entries)
    requires forall k :: b < k < i ==> c[k].Label?
    ensures SameRuns(c, Swapped(c, b, i), entries)
  {
    hide Land, Unused, Closed;
    var c', d, id := Swapped(c, b, i), (y: nat) => Outside(b, i, y), (y: nat) => y;
    forall x: nat | d(x)
      ensures Land(c', x) == Land(c, x) && (Land(c, x).Some? ==> SameAt(c, c', d, Land(c, x).value))
    {
      SwappedLand(c, b, i, entries, x);
      if Land(c, x).Some? && IsBranch(c, Land(c, x).value) {
        var q := Land(c, x).value;
        forall v
          ensures Related(c, c', d, id, BranchTo(c, q, v), BranchTo(c', q, v))
        {
          if q == b {
            SwappedTo(c, b, i, entries, v);
          } else {
            PosKept(c, c', c[q].insn.l);
            TargetsOutside(c, b, i, entries, q);
            RelatedSelf(c, c', d, id, BranchTo(c, q, v));
          }
        }
      }
    }
    EntriesOutside(c, b, i, entries);
    InPlaceRuns(c, c', d, entries);
  }
}
