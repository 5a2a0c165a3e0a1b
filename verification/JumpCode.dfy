/** Instruction lists of compile.c and how they run.  A list holds labels, instructions and stack
    adjustments; only jumps, conditional branches, leave and pop have a meaning here, every other
    instruction is an opaque step that falls through. */
module JumpCode {
  import opened Options

  type Store(!new, 00)
  type Value(!new)

  /** The machine: some store and an operand stack */
  datatype Mach = Mach(store: Store, stack: seq<Value>)

  /** What opaque instructions do, and which values count as true */
  datatype Vm = Vm(step: (nat, Mach) -> Mach, truthy: Value -> bool)

  datatype Insn =
    | Jump(l: nat)
    | BranchIf(l: nat)
    | BranchUnless(l: nat)
    | Leave
    | Pop
    | Other(id: nat)

  datatype Elem = Label(name: nat) | Op(insn: Insn) | Adjust(amount: nat)

  type Code = seq<Elem>

  /** Where label l stands; the end of the list when it does not */
  function Pos(c: Code, l: nat): (p: nat)
    ensures p <= |c| && (p < |c| ==> c[p] == Label(l))
    ensures forall k :: 0 <= k < p ==> c[k] != Label(l)
  {
    if c == [] || c[0] == Label(l) then 0 else
      var p := Pos(c[1..], l);
      assert forall k :: 1 <= k < p + 1 ==> c[k] == c[1..][k - 1];
      p + 1
  }

  /** No label stands in the list twice. */
  predicate LabelsOnce(c: Code) {
    forall i, j {:trigger c[i], c[j]} :: 0 <= i < j < |c| && c[i].Label? ==> c[j] != c[i]
  }

  lemma LabelStands(c: Code, p: nat)
    requires LabelsOnce(c) && p < |c| && c[p].Label?
    ensures Pos(c, c[p].name) == p
  {
  }

  predicate IsJump(c: Code, p: nat) {
    p < |c| && c[p].Op? && c[p].insn.Jump?
  }

  predicate IsBranch(c: Code, p: nat) {
    p < |c| && c[p].Op? && (c[p].insn.BranchIf? || c[p].insn.BranchUnless?)
  }

  /** The label an element refers to */
  function Target(e: Elem): Option<nat> {
    if e.Op? && (e.insn.Jump? || e.insn.BranchIf? || e.insn.BranchUnless?) then Some(e.insn.l) else None
  }

  /** Every label that is referred to stands in the list. */
  predicate Closed(c: Code) {
    forall i {:trigger c[i]} :: 0 <= i < |c| && Target(c[i]).Some? ==> Pos(c, Target(c[i]).value) < |c|
  }

  /** A step that nobody sees: past a label, or along a jump */
  function Quiet(c: Code, p: nat): Option<nat> {
    if p < |c| && c[p].Label? then Some(p + 1)
    else if IsJump(c, p) then Some(Pos(c, c[p].insn.l))
    else None
  }

  /** The position after n quiet steps, or after as many as there are */
  function After(c: Code, p: nat, n: nat): nat
    decreases n
  {
    if n == 0 || Quiet(c, p) == None then p else After(c, Quiet(c, p).value, n - 1)
  }

  /** Where the quiet steps from p end; none if they go on forever */
  ghost function Land(c: Code, p: nat): Option<nat> {
    if exists n: nat :: Quiet(c, After(c, p, n)) == None
    then var n: nat :| Quiet(c, After(c, p, n)) == None; Some(After(c, p, n))
    else None
  }

  lemma {:induction false} AfterStays(c: Code, p: nat, n: nat, k: nat)
    requires Quiet(c, After(c, p, n)) == None
    ensures After(c, p, n + k) == After(c, p, n)
    decreases n
  {
    if n > 0 && Quiet(c, p).Some? { AfterStays(c, Quiet(c, p).value, n - 1, k); }
  }

  lemma LandIs(c: Code, p: nat, n: nat)
    requires Quiet(c, After(c, p, n)) == None
    ensures Land(c, p) == Some(After(c, p, n))
  {
    var m: nat :| Quiet(c, After(c, p, m)) == None && Land(c, p) == Some(After(c, p, m));
    if m <= n { AfterStays(c, p, m, n - m); } else { AfterStays(c, p, n, m - n); }
  }

  /** A quiet step does not change where one lands. */
  lemma LandStep(c: Code, p: nat)
    requires Quiet(c, p).Some?
    ensures Land(c, p) == Land(c, Quiet(c, p).value)
  {
    var p1 := Quiet(c, p).value;
    if n: nat :| Quiet(c, After(c, p1, n)) == None {
      LandIs(c, p1, n);
      assert After(c, p, n + 1) == After(c, p1, n);
      LandIs(c, p, n + 1);
    } else {
      forall n: nat
        ensures Quiet(c, After(c, p, n)) != None
      {
        assert n > 0 ==> After(c, p, n) == After(c, p1, n - 1);
      }
    }
  }

  lemma LandHere(c: Code, p: nat)
    requires Quiet(c, p) == None
    ensures Land(c, p) == Some(p)
  {
    LandIs(c, p, 0);
  }

  /** Past labels only, one lands where the labels end. */
  lemma {:induction false} LandPastLabels(c: Code, p: nat, q: nat)
    requires p <= q <= |c| && forall k :: p <= k < q ==> c[k].Label?
    ensures Land(c, p) == Land(c, q)
    decreases q - p
  {
    if p < q {
      LandStep(c, p);
      LandPastLabels(c, p + 1, q);
    }
  }

  datatype Event = Did(e: Elem, m: Mach) | Tested(m: Mach) | Left(m: Mach) | Ended(m: Mach) | Diverged(m: Mach)

  function Dropped(m: Mach): Mach {
    if m.stack == [] then m else m.(stack := m.stack[..|m.stack| - 1])
  }

  function Test(vm: Vm, m: Mach): bool {
    m.stack != [] && vm.truthy(m.stack[|m.stack| - 1])
  }

  /** What an element that falls through does to the machine */
  function Do(vm: Vm, e: Elem, m: Mach): Mach {
    if e == Op(Pop) then Dropped(m)
    else if e.Op? && e.insn.Other? then vm.step(e.insn.id, m)
    else if e.Adjust? then vm.step(e.amount, m)
    else m
  }

  /** Where a branch at q goes on when the tested value is b */
  function BranchTo(c: Code, q: nat, b: bool): nat
    requires IsBranch(c, q)
  {
    if c[q].insn.BranchIf? == b then Pos(c, c[q].insn.l) else q + 1
  }

  /** The first k events of the run from p */
  ghost function Trace(c: Code, vm: Vm, p: nat, m: Mach, k: nat): seq<Event>
    decreases k
  {
    if k == 0 then []
    else if Land(c, p) == None then [Diverged(m)]
    else
      var q := Land(c, p).value;
      if q >= |c| then [Ended(m)]
      else if c[q] == Op(Leave) then [Left(m)]
      else if IsBranch(c, q) then [Tested(m)] + Trace(c, vm, BranchTo(c, q, Test(vm, m)), Dropped(m), k - 1)
      else [Did(c[q], m)] + Trace(c, vm, q + 1, Do(vm, c[q], m), k - 1)
  }

  lemma TraceDid(c: Code, vm: Vm, q: nat, m: Mach, k: nat)
    requires q < |c| && Quiet(c, q) == None && !IsBranch(c, q) && c[q] != Op(Leave)
    ensures Trace(c, vm, q, m, k + 1) == [Did(c[q], m)] + Trace(c, vm, q + 1, Do(vm, c[q], m), k)
  {
    LandHere(c, q);
  }

  lemma TraceTested(c: Code, vm: Vm, q: nat, m: Mach, k: nat)
    requires IsBranch(c, q)
    ensures Trace(c, vm, q, m, k + 1) == [Tested(m)] + Trace(c, vm, BranchTo(c, q, Test(vm, m)), Dropped(m), k)
  {
    LandHere(c, q);
  }

  lemma TraceLand(c: Code, vm: Vm, p: nat, p': nat, m: Mach, k: nat)
    requires Land(c, p) == Land(c, p')
    ensures Trace(c, vm, p, m, k) == Trace(c, vm, p', m, k)
  {
  }

  /** The landings p in c and p' in c' agree: both end, both leave, both branch or both do the same,
      and from there on the runs go through landings related by the map f on the domain d. */
  ghost predicate Agree(c: Code, c': Code, d: nat -> bool, f: nat -> nat, l: Option<nat>, l': Option<nat>) {
    if l.None? || l'.None? then l.None? && l'.None?
    else
      var q, q' := l.value, l'.value;
      || (q >= |c| && q' >= |c'|)
      || (q < |c| && q' < |c'| && c[q] == Op(Leave) && c'[q'] == Op(Leave))
      || (&& IsBranch(c, q) && IsBranch(c', q')
          && forall b :: Related(c, c', d, f, BranchTo(c, q, b), BranchTo(c', q', b)))
      || (&& q < |c| && q' < |c'| && !IsBranch(c, q) && c'[q'] == c[q] && c[q] != Op(Leave)
          && Related(c, c', d, f, q + 1, q' + 1))
  }

  /** p in c and p' in c' land as some position of the domain and its image do. */
  ghost predicate Related(c: Code, c': Code, d: nat -> bool, f: nat -> nat, p: nat, p': nat) {
    exists x: nat {:trigger d(x)} {:trigger f(x)} :: d(x) && Land(c, p) == Land(c, x) && Land(c', p') == Land(c', f(x))
  }

  /** All landings of the domain agree with those of their images. */
  ghost predicate AllAgree(c: Code, c': Code, d: nat -> bool, f: nat -> nat) {
    forall x {:trigger d(x)} {:trigger f(x)} :: d(x) ==> Agree(c, c', d, f, Land(c, x), Land(c', f(x)))
  }

  /** What agreement of the landings says, by what stands at the first of them */
  lemma AgreeCases(c: Code, c': Code, d: nat -> bool, f: nat -> nat, q: nat, q': nat)
    requires Agree(c, c', d, f, Some(q), Some(q'))
    ensures q >= |c| ==> q' >= |c'|
    ensures q < |c| && c[q] == Op(Leave) ==> q' < |c'| && c'[q'] == Op(Leave)
    ensures IsBranch(c, q) ==>
              IsBranch(c', q') && forall b :: Related(c, c', d, f, BranchTo(c, q, b), BranchTo(c', q', b))
    ensures q < |c| && c[q] != Op(Leave) && !IsBranch(c, q) ==>
              q' < |c'| && c'[q'] == c[q] && Related(c, c', d, f, q + 1, q' + 1)
  {
    hide Related;
  }

  lemma RelatedAgree(c: Code, c': Code, d: nat -> bool, f: nat -> nat, p: nat, p': nat)
    requires AllAgree(c, c', d, f) && Related(c, c', d, f, p, p')
    ensures Agree(c, c', d, f, Land(c, p), Land(c', p')) && Land(c, p).Some? == Land(c', p').Some?
  {
    hide Land;
    var x: nat :| d(x) && Land(c, p) == Land(c, x) && Land(c', p') == Land(c', f(x));
  }

  lemma TraceNext(c: Code, vm: Vm, p: nat, m: Mach, k: nat)
    requires k > 0 && Land(c, p).Some?
    ensures var q, t := Land(c, p).value, Trace(c, vm, p, m, k);
            && (q >= |c| ==> t == [Ended(m)])
            && (q < |c| && c[q] == Op(Leave) ==> t == [Left(m)])
            && (IsBranch(c, q) ==>
                  t == [Tested(m)] + Trace(c, vm, BranchTo(c, q, Test(vm, m)), Dropped(m), k - 1))
            && (q < |c| && c[q] != Op(Leave) && !IsBranch(c, q) ==>
                  t == [Did(c[q], m)] + Trace(c, vm, q + 1, Do(vm, c[q], m), k - 1))
  {
    hide Land;
  }

  lemma TraceDiverges(c: Code, vm: Vm, p: nat, m: Mach, k: nat)
    requires k > 0 && Land(c, p).None?
    ensures Trace(c, vm, p, m, k) == [Diverged(m)]
  {
    hide Land;
  }

  lemma TraceNone(c: Code, vm: Vm, p: nat, m: Mach)
    ensures Trace(c, vm, p, m, 0) == []
  {
  }

  /** Lists whose landings agree have the same runs. */
  lemma {:induction false} SameTrace(c: Code, c': Code, d: nat -> bool, f: nat -> nat, vm: Vm, p: nat, p': nat,
                                     m: Mach, k: nat)
    requires AllAgree(c, c', d, f) && Related(c, c', d, f, p, p')
    ensures Trace(c, vm, p, m, k) == Trace(c', vm, p', m, k)
    decreases k
  {
    hide AllAgree, Agree, Land, Related, Trace, BranchTo, Do, Test, Dropped;
    if k == 0 {
      TraceNone(c, vm, p, m);
      TraceNone(c', vm, p', m);
      return;
    }
    RelatedAgree(c, c', d, f, p, p');
    if Land(c, p).None? {
      TraceDiverges(c, vm, p, m, k);
      TraceDiverges(c', vm, p', m, k);
      return;
    }
    TraceNext(c, vm, p, m, k);
    TraceNext(c', vm, p', m, k);
    var q, q' := Land(c, p).value, Land(c', p').value;
    AgreeCases(c, c', d, f, q, q');
    if IsBranch(c, q) {
      var b := Test(vm, m);
      SameTrace(c, c', d, f, vm, BranchTo(c, q, b), BranchTo(c', q', b), Dropped(m), k - 1);
    } else if q < |c| && c[q] != Op(Leave) {
      SameTrace(c, c', d, f, vm, q + 1, q' + 1, Do(vm, c[q], m), k - 1);
    }
  }
}
