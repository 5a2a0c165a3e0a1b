/** Runs of array operations: whatever is shared underneath, every operation has its plain
    meaning on its receiver and leaves all other arrays alone. */
module ArrayRun {
  import opened Options
  import opened ArrayState
  import opened ArrayHeap
  import opened ArrayOps

  type Arrays = map<nat, Seen>

  datatype Op =
    | OpNew(vals: seq<Value>)
    | OpPush(a: nat, vals: seq<Value>)
    | OpPop(a: nat)
    | OpPopM(a: nat, n: int)
    | OpShift(a: nat)
    | OpShiftM(a: nat, n: int)
    | OpUnshift(a: nat, vals: seq<Value>)
    | OpStore(a: nat, index: int, v: Value)
    | OpSplice(a: nat, start: int, length: int, rpl: Option<nat>)
    | OpReplace(a: nat, orig: nat)
    | OpClear(a: nat)
    | OpSlice(a: nat, start: int, length: int)
    | OpFreeze(a: nat)
    | OpCollect(a: nat)

  /** The arrays an operation names */
  function Names(op: Op): set<nat> {
    match op
    case OpNew(_) => {}
    case OpSplice(a, _, _, rpl) => if rpl.Some? then {a, rpl.value} else {a}
    case OpReplace(a, b) => {a, b}
    case OpPush(_, _) | OpPop(_) | OpPopM(_, _) | OpShift(_) | OpShiftM(_, _) | OpUnshift(_, _) | OpStore(_, _, _)
       | OpClear(_) | OpSlice(_, _, _) | OpFreeze(_) | OpCollect(_) => {op.a}
  }

  /** A change of array a, refused when it is frozen */
  ghost predicate Changes(m: Arrays, m': Arrays, a: nat, v: seq<Value>, ans: Answer, done: Answer)
    requires a in m
  {
    if m[a].frozen then ans == Raise(FrozenError) && m' == m else ans == done && m' == m[a := Seen(v, false)]
  }

  /** A change of array a that also makes a new array */
  ghost predicate Splits(m: Arrays, m': Arrays, a: nat, va: seq<Value>, vr: seq<Value>, n: int, ans: Answer)
    requires a in m
  {
    if m[a].frozen then ans == Raise(FrozenError) && m' == m
    else if n < 0 then ans == Raise(ArgumentError) && m' == m
    else ans.Fresh? && ans.id !in m && m' == m[ans.id := Seen(vr, false)][a := Seen(va, false)]
  }

  /** What an operation means on plain sequences.  A frozen array that is unchecked is prepended to
      all the same. */
  ghost predicate Meaning(m: Arrays, op: Op, ans: Answer, m': Arrays, unchecked: bool)
    requires Names(op) <= m.Keys
  {
    if op.OpNew? then ans.Fresh? && ans.id !in m && m' == m[ans.id := Seen(op.vals, false)] else
    var w := m[op.a].elems;
    match op
    case OpPush(a, x) => Changes(m, m', a, w + x, ans, Self)
    case OpPop(a) =>
      if w == [] then Changes(m, m', a, [], ans, NilAnswer)
      else Changes(m, m', a, w[..|w| - 1], ans, Element(w[|w| - 1]))
    case OpPopM(a, n) =>
      var k := TakeCount(if n < 0 then 0 else n, |w|);
      Splits(m, m', a, w[..|w| - k], w[|w| - k..], n, ans)
    case OpShift(a) =>
      if w == [] then Changes(m, m', a, [], ans, NilAnswer) else Changes(m, m', a, w[1..], ans, Element(w[0]))
    case OpShiftM(a, n) =>
      var k := TakeCount(if n < 0 then 0 else n, |w|);
      Splits(m, m', a, w[k..], w[..k], n, ans)
    case OpUnshift(a, x) =>
      if m[a].frozen && x != [] && unchecked then ans == Self && m' == m[a := Seen(x + w, true)]
      else Changes(m, m', a, x + w, ans, Self)
    case OpStore(a, index, v) =>
      if index + |w| < 0 || index >= MAX_SIZE then ans == Raise(IndexError) && m' == m
      else Changes(m, m', a, Stored(w, if index < 0 then index + |w| else index, v), ans, Self)
    case OpSplice(a, start, length, rpl) =>
      var x := if rpl.Some? then m[rpl.value].elems else [];
      if SpliceError(w, start, length, x) then ans == Raise(IndexError) && m' == m
      else Changes(m, m', a, Spliced(w, if start < 0 then start + |w| else start, length, x), ans, Self)
    case OpReplace(a, b) => Changes(m, m', a, m[b].elems, ans, Self)
    case OpClear(a) => Changes(m, m', a, [], ans, Self)
    case OpSlice(a, start, length) =>
      var beg := if start < 0 then start + |w| else start;
      if beg > |w| || beg < 0 || length < 0 then ans == NilAnswer && m' == m
      else ans.Fresh? && ans.id !in m && m' == m[ans.id := Seen(w[beg..SpliceEnd(|w|, beg, length)], false)]
    case OpFreeze(a) => ans == Self && m' == m[a := Seen(w, true)]
    case OpCollect(a) => ans == NilAnswer && (m' == m - {a} || m' == m)
  }

  /** What an operation means on the arrays of a state */
  ghost predicate Performed(s: State, op: Op, ans: Answer, s': State)
    requires Inv(s) && Inv(s') && Names(op) <= Abs(s).Keys
  {
    Meaning(Abs(s), op, ans, Abs(s'), op.OpUnshift? && Unchecked(s, op.a, |op.vals|))
  }

  /** Array b is not the receiver of the operation. */
  predicate Bystander(op: Op, b: nat) {
    op.OpNew? || op.a != b
  }

  /** No operation changes an array other than its receiver, freezes it or makes it go. */
  lemma NonInterference(m: Arrays, op: Op, ans: Answer, m': Arrays, unchecked: bool, b: nat)
    requires Names(op) <= m.Keys && Meaning(m, op, ans, m', unchecked) && b in m && Bystander(op, b)
    ensures b in m' && m'[b] == m[b]
  {
  }

  /** A frozen array stays as it is exactly under every operation but an unshift of something to an
      unchecked one. */
  lemma FrozenKept(m: Arrays, op: Op, ans: Answer, m': Arrays, unchecked: bool, b: nat)
    requires Names(op) <= m.Keys && Meaning(m, op, ans, m', unchecked) && b in m && m[b].frozen && b in m'
    ensures m'[b] == m[b] <==> !(op.OpUnshift? && op.a == b && op.vals != [] && unchecked)
  {
    if !Bystander(op, b) && op.OpUnshift? && unchecked { assert |op.vals + m[b].elems| == |op.vals| + |m[b].elems|; }
  }

  lemma BecomesMeans(s: State, s': State, a: nat, v: seq<Value>)
    requires Becomes(s, s', a, v)
    ensures a in Abs(s) && Abs(s') == Abs(s)[a := Seen(v, Abs(s)[a].frozen)]
    ensures v == View(s, a) ==> Abs(s') == Abs(s)
  {
    BecomesAbs(s, s', a, v);
    assert Abs(s)[a] == Seen(View(s, a), Abs(s)[a].frozen);
  }

  lemma TakesMeans(s: State, s': State, a: nat, va: seq<Value>, r: nat, vr: seq<Value>)
    requires Inv(s) && Inv(s') && Takes(s, s', a, va, r, vr) && Visible(s, a)
    ensures r !in Abs(s) && Abs(s') == Abs(s)[r := Seen(vr, false)][a := Seen(va, Abs(s)[a].frozen)]
  {
    var s1 :| Creates(s, s1, r, vr) && Becomes(s1, s', a, va) && s1.objs[a].frozen == s.objs[a].frozen;
    CreatesAbs(s, s1, r, vr);
    BecomesAbs(s1, s', a, va);
  }

  /** One operation on a receiver */
  method Perform(h: Heap, op: Op) returns (ans: Answer)
    requires Inv(h.s) && Names(op) <= Abs(h.s).Keys
    modifies h
    ensures Inv(h.s) && Performed(old(h.s), op, ans, h.s)
  {
    ghost var s0 := h.s;
    if op.OpNew? || op.OpSlice? || op.OpFreeze? || op.OpCollect? {
      ans := PerformPlain(h, op);
    } else if op.OpPopM? || op.OpShiftM? {
      ans := PerformTake(h, op);
    } else {
      ans := PerformChange(h, op);
    }
  }

  method PerformPlain(h: Heap, op: Op) returns (ans: Answer)
    requires Inv(h.s) && Names(op) <= Abs(h.s).Keys
    requires op.OpNew? || op.OpSlice? || op.OpFreeze? || op.OpCollect?
    modifies h
    ensures Inv(h.s) && Performed(old(h.s), op, ans, h.s)
  {
    ghost var s0 := h.s;
    match op
    case OpNew(vals) =>
      var r := New(h, vals);
      CreatesAbs(s0, h.s, r, vals);
      ans := Fresh(r);
    case OpSlice(a, start, length) =>
      ans := Slice(h, a, start, length);
      if ans.Fresh? { CreatesAbs(s0, h.s, ans.id, View(h.s, ans.id)); }
    case OpFreeze(a) =>
      Freeze(h, a);
      ans := Self;
    case OpCollect(a) =>
      if Sharers(h.s.objs, a) == {} { Collect(h, a); }
      ans := NilAnswer;
  }

  method PerformTake(h: Heap, op: Op) returns (ans: Answer)
    requires Inv(h.s) && Names(op) <= Abs(h.s).Keys
    requires op.OpPopM? || op.OpShiftM?
    modifies h
    ensures Inv(h.s) && Performed(old(h.s), op, ans, h.s)
  {
    ghost var s0 := h.s;
    ghost var w := View(h.s, op.a);
    if op.OpPopM? {
      ans := PopM(h, op.a, op.n);
      if ans.Fresh? {
        ghost var k := |w| - TakeCount(op.n, |w|);
        TakesMeans(s0, h.s, op.a, w[..k], ans.id, w[k..]);
      }
    } else {
      ans := ShiftM(h, op.a, op.n);
      if ans.Fresh? { TakesMeans(s0, h.s, op.a, w[TakeCount(op.n, |w|)..], ans.id, w[..TakeCount(op.n, |w|)]); }
    }
  }

  method PerformChange(h: Heap, op: Op) returns (ans: Answer)
    requires Inv(h.s) && Names(op) <= Abs(h.s).Keys
    requires !(op.OpNew? || op.OpSlice? || op.OpFreeze? || op.OpCollect? || op.OpPopM? || op.OpShiftM?)
    modifies h
    ensures Inv(h.s) && Performed(old(h.s), op, ans, h.s)
  {
    hide Inv, OnlyChanges, View;
    ghost var s0 := h.s;
    assert View(s0, op.a) == Abs(s0)[op.a].elems;
    match op {
      case OpPush(a, x) => ans := Cat(h, a, x);
      case OpPop(a) => ans := Pop(h, a);
      case OpShift(a) => ans := Shift(h, a);
      case OpUnshift(a, x) => ans := Unshift(h, a, x);
      case OpStore(a, index, v) => ans := Store(h, a, index, v);
      case OpSplice(a, start, length, rpl) => ans := Splice(h, a, start, length, rpl);
      case OpReplace(a, b) => ans := Replace(h, a, b);
      case OpClear(a) => ans := Clear(h, a);
    }
    BecomesMeans(s0, h.s, op.a, View(h.s, op.a));
  }

  /** Step i of a run: an operation naming arrays that are not there is not performed. */
  ghost predicate StepMeans(s: State, op: Op, ans: Answer, s': State) {
    && Inv(s) && Inv(s')
    && if Names(op) <= Abs(s).Keys then Performed(s, op, ans, s') else s' == s
  }

  /** Any sequence of operations on any arrays: every step has its plain meaning, and the
      invariant of the shared buffers holds all through every run. */
  method Run(h: Heap, ops: seq<Op>) returns (answers: seq<Answer>, ghost trace: seq<State>)
    requires Inv(h.s)
    modifies h
    ensures |answers| == |ops| && |trace| == |ops| + 1 && trace[0] == old(h.s) && trace[|ops|] == h.s && Inv(h.s)
    ensures forall i :: 0 <= i < |ops| ==> StepMeans(trace[i], ops[i], answers[i], trace[i + 1])
  {
    hide Inv, Performed, Abs;
    answers, trace := [], [h.s];
    for i := 0 to |ops|
      invariant Inv(h.s) && |answers| == i && |trace| == i + 1
      invariant trace[0] == old(h.s) && trace[i] == h.s
      invariant forall j :: 0 <= j < i ==> StepMeans(trace[j], ops[j], answers[j], trace[j + 1])
    {
      var ans := NilAnswer;
      if Names(ops[i]) <= Abs(h.s).Keys { ans := Perform(h, ops[i]); }
      answers, trace := answers + [ans], trace + [h.s];
    }
  }
}
