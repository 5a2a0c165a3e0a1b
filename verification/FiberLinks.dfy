/** The fibers of one thread (cont.c): status, prev link and transfer flag of every fiber, and the
    effect of resume, transfer, yield and finishing on them. */
module FiberLinks {
  import opened Options

  datatype Status = Created | Running | Terminated

  /** rb_fiber_struct: status, the fiber that resumed it, and whether it was transferred to.
      A suspended fiber is Running too. */
  datatype Fiber = Fiber(status: Status, prev: Option<nat>, transferred: bool)

  /** Fiber 0 is the root fiber. */
  datatype Links = Links(fibers: seq<Fiber>, current: nat)

  datatype Op = Create | Resume(f: nat) | Transfer(f: nat) | Yield | Finish

  datatype Outcome = Switched | Ignored | DoubleResume | CannotResume | DeadFiber | YieldFromRoot

  /** Names only fibers that exist; only a fiber other than the root can finish. */
  predicate Possible(s: Links, op: Op) {
    match op
    case Create => true
    case Resume(f) => f < |s.fibers|
    case Transfer(f) => f < |s.fibers|
    case Yield => true
    case Finish => s.current != 0
  }

  /** A link starts at an unfinished fiber and leads to another fiber that has started. */
  predicate LinkOk(s: Links, f: nat)
    requires f < |s.fibers|
  {
    s.fibers[f].prev.Some? ==>
      && s.fibers[f].status == Running && f != 0 && s.fibers[f].prev.value != f
      && s.fibers[f].prev.value < |s.fibers| && s.fibers[s.fibers[f].prev.value].status != Created
  }

  /** What holds in every run: the running fiber and the root are alive, and links are in order. */
  ghost predicate Base(s: Links) {
    && s.current < |s.fibers|
    && s.fibers[s.current].status == Running && s.fibers[0].status == Running
    && (forall f: nat {:trigger LinkOk(s, f)} :: f < |s.fibers| ==> LinkOk(s, f))
  }

  /** Control passes to f, which starts if it has not yet. */
  function Enter(s: Links, f: nat): Links
    requires f < |s.fibers|
  {
    Links(s.fibers[f := s.fibers[f].(status := Running)], f)
  }

  /** fiber_switch from a live fiber, without the passing of arguments */
  function Switch(s: Links, f: nat, isResume: bool): (Links, Outcome)
    requires s.current < |s.fibers| && f < |s.fibers|
  {
    if f == s.current then (s, Ignored)
    else if s.fibers[f].status == Terminated then (s, DeadFiber)
    else
      var fs := if isResume then s.fibers[f := s.fibers[f].(prev := Some(s.current))] else s.fibers;
      (Enter(Links(fs, s.current), f), Switched)
  }

  /** return_fiber of a fiber that is not the root: where to go back to */
  function ReturnTarget(s: Links): nat
    requires s.current < |s.fibers|
  {
    if s.fibers[s.current].prev.Some? then s.fibers[s.current].prev.value else 0
  }

  function Unlinked(s: Links): Links
    requires s.current < |s.fibers|
  {
    s.(fibers := s.fibers[s.current := s.fibers[s.current].(prev := None)])
  }

  /** rb_fiber_terminate: a dead fiber to go back to is replaced by the root. */
  function Finished(s: Links): Links
    requires s.current < |s.fibers| && ReturnTarget(s) < |s.fibers|
  {
    var f, t := s.current, ReturnTarget(s);
    var s1 := Unlinked(s.(fibers := s.fibers[f := s.fibers[f].(status := Terminated)]));
    s1.(current := if s1.fibers[t].status == Terminated then 0 else t)
  }

  /** One step of the thread */
  function Next(s: Links, op: Op): (Links, Outcome)
    requires Base(s)
  {
    if !Possible(s, op) then (s, Ignored) else
    assert LinkOk(s, s.current);
    match op
    case Create => (s.(fibers := s.fibers + [Fiber(Created, None, false)]), Ignored)
    case Resume(f) =>
      if s.fibers[f].prev.Some? || f == 0 then (s, DoubleResume)
      else if s.fibers[f].transferred then (s, CannotResume)
      else Switch(s, f, true)
    case Transfer(f) => Switch(s.(fibers := s.fibers[f := s.fibers[f].(transferred := true)]), f, false)
    case Yield =>
      if s.fibers[s.current].prev == None && s.current == 0 then (s, YieldFromRoot)
      else Switch(Unlinked(s), ReturnTarget(s), false)
    case Finish => (Finished(s), Switched)
  }

  /** Changes of one fiber that keep Base: its link, its status and the running fiber */
  lemma ChangedBase(s: Links, f: nat, fib: Fiber, current: nat)
    requires Base(s) && f < |s.fibers| && current < |s.fibers|
    requires fib.prev.Some? ==> fib.status == Running && f != 0 && fib.prev.value != f && fib.prev.value < |s.fibers|
                                && s.fibers[fib.prev.value].status != Created
    requires fib.status == Created ==> s.fibers[f].status == Created
    requires f == 0 || f == current ==> fib.status == Running
    requires current != f ==> s.fibers[current].status == Running
    ensures Base(Links(s.fibers[f := fib], current))
  {
    var s' := Links(s.fibers[f := fib], current);
    forall g: nat | g < |s'.fibers|
      ensures LinkOk(s', g)
    {
      assert LinkOk(s, g);
    }
  }

  lemma CreatedBase(s: Links)
    requires Base(s)
    ensures Base(s.(fibers := s.fibers + [Fiber(Created, None, false)]))
  {
    var s' := s.(fibers := s.fibers + [Fiber(Created, None, false)]);
    forall g: nat | g < |s'.fibers|
      ensures LinkOk(s', g)
    {
      if g < |s.fibers| { assert LinkOk(s, g); }
    }
  }

  lemma YieldBase(s: Links)
    requires Base(s)
    ensures Base(Next(s, Yield).0)
  {
    var c, s' := s.current, Next(s, Yield).0;
    assert LinkOk(s, c);
    if s' != s {
      assert LinkOk(s, s'.current);
      ChangedBase(s, c, s'.fibers[c], s'.current);
      SameFibers(s', s.fibers[c := s'.fibers[c]]);
    }
  }

  /** In all runs the running fiber and the root are alive, and links are in order. */
  lemma BaseStep(s: Links, op: Op)
    requires Base(s)
    ensures Base(Next(s, op).0)
  {
    if Possible(s, op) {
      var c, s' := s.current, Next(s, op).0;
      assert LinkOk(s, c);
      match op
      case Create =>
        CreatedBase(s);
      case Resume(f) =>
        if s' != s { ChangedBase(s, f, s'.fibers[f], f); SameFibers(s', s.fibers[f := s'.fibers[f]]); }
      case Transfer(f) =>
        assert LinkOk(s, f);
        ChangedBase(s, f, s'.fibers[f], s'.current);
        SameFibers(s', s.fibers[f := s'.fibers[f]]);
      case Yield =>
        YieldBase(s);
      case Finish =>
        ChangedBase(s, c, s'.fibers[c], s'.current);
        SameFibers(s', s.fibers[c := s'.fibers[c]]);
    }
  }

  lemma SameFibers(s: Links, fs: seq<Fiber>)
    requires |s.fibers| == |fs| && forall i :: 0 <= i < |fs| ==> s.fibers[i] == fs[i]
    ensures s == Links(fs, s.current)
  {
  }

  /** A terminated fiber stays terminated; fibers never go away. */
  lemma TerminatedStep(s: Links, op: Op, f: nat)
    requires Base(s) && f < |s.fibers|
    ensures f < |Next(s, op).0.fibers|
    ensures s.fibers[f].status == Terminated ==> Next(s, op).0.fibers[f].status == Terminated
  {
    assert LinkOk(s, s.current);
  }

  function States(s: Links, ops: seq<Op>): (r: seq<Links>)
    requires Base(s)
    ensures |r| == |ops| + 1
    decreases |ops|
  {
    if ops == [] then [s] else
      BaseStep(s, ops[0]);
      [s] + States(Next(s, ops[0]).0, ops[1..])
  }

  /** Every state of every run satisfies Base: no terminated fiber is ever running. */
  lemma {:induction false} BaseRun(s: Links, ops: seq<Op>, i: nat)
    requires Base(s) && i <= |ops|
    ensures Base(States(s, ops)[i])
    decreases |ops|
  {
    if i > 0 {
      BaseStep(s, ops[0]);
      BaseRun(Next(s, ops[0]).0, ops[1..], i - 1);
    }
  }

  /** Termination is permanent over whole runs. */
  lemma {:induction false} TerminatedForever(s: Links, ops: seq<Op>, i: nat, j: nat, f: nat)
    requires Base(s) && i <= j <= |ops|
    requires f < |States(s, ops)[i].fibers| && States(s, ops)[i].fibers[f].status == Terminated
    ensures f < |States(s, ops)[j].fibers| && States(s, ops)[j].fibers[f].status == Terminated
    ensures States(s, ops)[j].current != f
    decreases |ops|
  {
    BaseRun(s, ops, j);
    if j > 0 {
      BaseStep(s, ops[0]);
      var s' := Next(s, ops[0]).0;
      if i > 0 {
        TerminatedForever(s', ops[1..], i - 1, j - 1, f);
      } else {
        TerminatedStep(s, ops[0], f);
        TerminatedForever(s', ops[1..], 0, j - 1, f);
      }
    }
  }

  /** A finishing fiber hands control to another one, which is alive. */
  lemma FinishHandsOver(s: Links)
    requires Base(s) && s.current != 0
    ensures var s' := Next(s, Finish).0;
            && s.current != s'.current < |s'.fibers| == |s.fibers| && s'.fibers[s'.current].status == Running
            && s'.fibers[s.current].status == Terminated && ReturnTarget(s) < |s.fibers|
            && s'.current == (if s.fibers[ReturnTarget(s)].status == Terminated then 0 else ReturnTarget(s))
  {
    assert LinkOk(s, s.current);
  }

  /** f is the root, has a resumer, or was transferred to. */
  predicate Held(s: Links, f: nat)
    requires f < |s.fibers|
  {
    f == 0 || s.fibers[f].prev.Some? || s.fibers[f].transferred
  }

  predicate LinkTo(s: Links, f: nat, p: nat) {
    f < |s.fibers| && s.fibers[f].prev == Some(p)
  }

  /** The link from f to p leads to a held fiber of lower rank, and not to the running fiber
      unless that is the root or was transferred to. */
  predicate RankOk(s: Links, rank: seq<nat>, f: nat, p: nat)
    requires |rank| == |s.fibers| && LinkTo(s, f, p) && p < |s.fibers|
  {
    Held(s, p) && rank[p] < rank[f] && (p != 0 && !s.fibers[p].transferred ==> p != s.current)
  }

  /** A fiber has at most one link to it unless it is the root or was transferred to. */
  predicate Sole(s: Links, f: nat, g: nat, p: nat) {
    LinkTo(s, f, p) && LinkTo(s, g, p) && 0 != p < |s.fibers| && !s.fibers[p].transferred ==> f == g
  }

  /** The invariant of the links */
  ghost predicate Ordered(s: Links, rank: seq<nat>) {
    && Base(s) && |rank| == |s.fibers|
    && Held(s, s.current)
    && (forall f: nat, p: nat {:trigger LinkTo(s, f, p)} :: LinkTo(s, f, p) ==> p < |s.fibers| && RankOk(s, rank, f, p))
    && (forall f: nat, g: nat, p: nat {:trigger LinkTo(s, f, p), LinkTo(s, g, p)} :: Sole(s, f, g, p))
  }

  /** A fiber that was not transferred to yields to a resumer that is dead. */
  predicate Refused(s: Links, op: Op)
    requires Base(s)
  {
    assert LinkOk(s, s.current);
    var f := s.fibers[s.current];
    op == Yield && !f.transferred && f.prev.Some? && s.fibers[f.prev.value].status == Terminated
  }

  /** Taking away a link of the running fiber and going on with t keeps the order, as long as
      the fiber that lost its link is left or was transferred to. */
  lemma UnlinkedOrdered(s: Links, rank: seq<nat>, s': Links)
    requires Ordered(s, rank) && Base(s') && |s'.fibers| == |s.fibers|
    requires forall f: nat :: f < |s.fibers| ==> s'.fibers[f].transferred == s.fibers[f].transferred
    requires forall f: nat :: f < |s.fibers| ==> s'.fibers[f].prev == if f == s.current then None else s.fibers[f].prev
    requires || s'.current == 0 || LinkTo(s, s.current, s'.current)
             || (s'.current == s.current && s.fibers[s.current].transferred)
    ensures Ordered(s', rank)
  {
    forall f: nat, p: nat | LinkTo(s', f, p)
      ensures p < |s'.fibers| && RankOk(s', rank, f, p)
    {
      assert LinkTo(s, f, p);
    }
    forall f: nat, g: nat, p: nat
      ensures Sole(s', f, g, p)
    {
      assert LinkTo(s', f, p) && LinkTo(s', g, p) ==> LinkTo(s, f, p) && LinkTo(s, g, p) && Sole(s, f, g, p);
    }
  }

  /** The same links, the same or one more fiber transferred to, and control going to a held fiber
      that nobody links to or that was transferred to */
  lemma MovedOrdered(s: Links, rank: seq<nat>, s': Links)
    requires Ordered(s, rank) && Base(s') && |s'.fibers| == |s.fibers|
    requires forall f: nat :: f < |s.fibers| ==>
                                && s'.fibers[f].prev == s.fibers[f].prev
                                && (s.fibers[f].transferred ==> s'.fibers[f].transferred)
    requires s'.current == s.current || s'.fibers[s'.current].transferred
    ensures Ordered(s', rank)
  {
    forall f: nat, p: nat | LinkTo(s', f, p)
      ensures p < |s'.fibers| && RankOk(s', rank, f, p)
    {
      assert LinkTo(s, f, p);
    }
    forall f: nat, g: nat, p: nat
      ensures Sole(s', f, g, p)
    {
      assert LinkTo(s', f, p) && LinkTo(s', g, p) ==> LinkTo(s, f, p) && LinkTo(s, g, p) && Sole(s, f, g, p);
    }
  }

  lemma ResumedOrdered(s: Links, rank: seq<nat>, f: nat)
    requires Ordered(s, rank) && f < |s.fibers| && Next(s, Resume(f)).1 == Switched
    ensures Ordered(Next(s, Resume(f)).0, rank[f := rank[s.current] + 1])
  {
    var s', r := Next(s, Resume(f)).0, rank[f := rank[s.current] + 1];
    BaseStep(s, Resume(f));
    forall g: nat, p: nat | LinkTo(s', g, p)
      ensures p < |s'.fibers| && RankOk(s', r, g, p)
    {
      if g != f { assert LinkTo(s, g, p); }
    }
    forall g: nat, h: nat, p: nat
      ensures Sole(s', g, h, p)
    {
      assert LinkTo(s', g, p) ==> (g == f && p == s.current) || LinkTo(s, g, p);
      assert LinkTo(s', h, p) ==> (h == f && p == s.current) || LinkTo(s, h, p);
      assert LinkTo(s, g, p) && LinkTo(s, h, p) ==> Sole(s, g, h, p);
    }
  }

  lemma CreatedOrdered(s: Links, rank: seq<nat>)
    requires Ordered(s, rank)
    ensures Ordered(Next(s, Create).0, rank + [0])
  {
    var s' := Next(s, Create).0;
    BaseStep(s, Create);
    forall f: nat, p: nat | LinkTo(s', f, p)
      ensures p < |s'.fibers| && RankOk(s', rank + [0], f, p)
    {
      assert LinkTo(s, f, p);
    }
    forall f: nat, g: nat, p: nat
      ensures Sole(s', f, g, p)
    {
      assert LinkTo(s', f, p) && LinkTo(s', g, p) ==> LinkTo(s, f, p) && LinkTo(s, g, p) && Sole(s, f, g, p);
    }
  }

  lemma OrderedStep(s: Links, rank: seq<nat>, op: Op) returns (rank': seq<nat>)
    requires Ordered(s, rank) && !Refused(s, op)
    ensures Ordered(Next(s, op).0, rank')
  {
    BaseStep(s, op);
    var s' := Next(s, op).0;
    rank' := rank;
    if Possible(s, op) {
      match op
      case Create =>
        rank' := rank + [0];
        CreatedOrdered(s, rank);
      case Resume(f) =>
        if Next(s, op).1 == Switched {
          rank' := rank[f := rank[s.current] + 1];
          ResumedOrdered(s, rank, f);
        }
      case Transfer(f) =>
        MovedOrdered(s, rank, s');
      case Yield =>
        assert LinkOk(s, s.current);
        if s' != s { UnlinkedOrdered(s, rank, s'); }
      case Finish =>
        assert LinkOk(s, s.current);
        UnlinkedOrdered(s, rank, s');
    }
  }

  /** The fiber n links back from f */
  function Back(s: Links, f: nat, n: nat): Option<nat>
    decreases n
  {
    if n == 0 then Some(f)
    else if f < |s.fibers| && s.fibers[f].prev.Some? then Back(s, s.fibers[f].prev.value, n - 1)
    else None
  }

  /** No fiber is reached again by following links. */
  ghost predicate Acyclic(s: Links) {
    forall f: nat, n: nat {:trigger Back(s, f, n)} :: n > 0 ==> Back(s, f, n) != Some(f)
  }

  lemma {:induction false} BackLowersRank(s: Links, rank: seq<nat>, f: nat, n: nat)
    requires Ordered(s, rank) && f < |s.fibers|
    ensures Back(s, f, n).Some? ==> Back(s, f, n).value < |s.fibers| && rank[Back(s, f, n).value] + n <= rank[f]
    decreases n
  {
    if n > 0 && s.fibers[f].prev.Some? {
      var p := s.fibers[f].prev.value;
      assert LinkTo(s, f, p);
      BackLowersRank(s, rank, p, n - 1);
    }
  }

  lemma OrderedAcyclic(s: Links, rank: seq<nat>)
    requires Ordered(s, rank)
    ensures Acyclic(s)
  {
    forall f: nat, n: nat | n > 0
      ensures Back(s, f, n) != Some(f)
    {
      if f < |s.fibers| { BackLowersRank(s, rank, f, n); }
    }
  }

  /** Resuming the running fiber raises. */
  ghost predicate SelfResumeRaises(s: Links) {
    Base(s) && (Next(s, Resume(s.current)).1 == DoubleResume || Next(s, Resume(s.current)).1 == CannotResume)
  }

  /** No step of the run is a refused yield of a fiber that was not transferred to. */
  predicate Unrefused(s: Links, ops: seq<Op>)
    requires Base(s)
    decreases |ops|
  {
    ops == [] || (BaseStep(s, ops[0]); !Refused(s, ops[0]) && Unrefused(Next(s, ops[0]).0, ops[1..]))
  }

  /** The links over a whole run without refused yields: they form no cycle, the running fiber is
      the root, has a resumer or was transferred to, and resuming it raises. */
  lemma {:induction false} LinksRun(s: Links, rank: seq<nat>, ops: seq<Op>, i: nat)
    requires Ordered(s, rank) && Unrefused(s, ops) && i <= |ops|
    ensures var t := States(s, ops)[i]; Acyclic(t) && SelfResumeRaises(t) && Held(t, t.current)
    decreases |ops|
  {
    if i == 0 {
      OrderedAcyclic(s, rank);
    } else {
      var rank' := OrderedStep(s, rank, ops[0]);
      LinksRun(Next(s, ops[0]).0, rank', ops[1..], i - 1);
    }
  }

  const Start := Links([Fiber(Running, None, false)], 0)

  lemma StartOrdered()
    ensures Ordered(Start, [0])
  {
    assert forall f: nat :: f < 1 ==> f == 0 && LinkOk(Start, f);
    assert Base(Start);
    assert Held(Start, Start.current);
    forall f: nat, p: nat
      ensures !LinkTo(Start, f, p)
    {
    }
    forall f: nat, g: nat, p: nat
      ensures Sole(Start, f, g, p)
    {
    }
  }

  /** Right after such a refused yield, resuming the running fiber does not raise. */
  lemma RefusedThenSilent(s: Links, op: Op)
    requires Base(s) && Refused(s, op)
    ensures !SelfResumeRaises(Next(s, op).0)
  {
    assert LinkOk(s, s.current);
  }

  lemma StatesTail(s: Links, ops: seq<Op>, j: nat)
    requires Base(s) && ops != [] && j < |ops|
    ensures Base(Next(s, ops[0]).0) && States(s, ops)[j + 1] == States(Next(s, ops[0]).0, ops[1..])[j]
    ensures States(Next(s, ops[0]).0, ops[1..])[0] == Next(s, ops[0]).0
  {
    BaseStep(s, ops[0]);
  }

  /** Resuming the running fiber raises throughout a run exactly when no yield of a fiber that was
      not transferred to is refused in it. */
  lemma {:induction false} SelfResumeIff(s: Links, rank: seq<nat>, ops: seq<Op>)
    requires Ordered(s, rank)
    ensures Unrefused(s, ops) <==> forall i: nat :: i <= |ops| ==> SelfResumeRaises(States(s, ops)[i])
    decreases |ops|
  {
    hide SelfResumeRaises, Ordered, Refused, Next, States;
    OrderedBase(s, rank);
    if Unrefused(s, ops) {
      forall i: nat | i <= |ops|
        ensures SelfResumeRaises(States(s, ops)[i])
      {
        LinksRun(s, rank, ops, i);
      }
    } else {
      var s' := Next(s, ops[0]).0;
      StatesTail(s, ops, 0);
      if Refused(s, ops[0]) {
        RefusedThenSilent(s, ops[0]);
        assert !SelfResumeRaises(States(s, ops)[1]);
      } else {
        var rank' := OrderedStep(s, rank, ops[0]);
        SelfResumeIff(s', rank', ops[1..]);
        var j: nat :| j <= |ops[1..]| && !SelfResumeRaises(States(s', ops[1..])[j]);
        StatesTail(s, ops, j);
        assert !SelfResumeRaises(States(s, ops)[j + 1]);
      }
    }
  }

  lemma OrderedBase(s: Links, rank: seq<nat>)
    requires Ordered(s, rank)
    ensures Base(s)
  {
  }

  /** After a refused yield of a fiber that was not transferred to, three more steps close a cycle. */
  lemma RefusalAllowsCycle(s: Links)
    requires Base(s) && Refused(s, Yield)
    ensures var c, n := s.current, |s.fibers|;
            !Acyclic(States(s, [Yield, Create, Resume(n), Resume(c)])[4])
  {
    hide Next, Base, Acyclic, Refused, States;
    var c, n := s.current, |s.fibers|;
    var ops := [Yield, Create, Resume(n), Resume(c)];
    CycleCloses(s);
    var s1 := Next(s, Yield).0;
    var s2 := Next(s1, Create).0;
    var s3 := Next(s2, Resume(n)).0;
    var s4 := Next(s3, Resume(c)).0;
    Leads([s, s1, s2, s3, s4], ops);
    assert [s, s1, s2, s3, s4][4] == s4;
  }

  /** The fiber that was refused resumes a new fiber, which resumes it. */
  lemma CycleCloses(s: Links)
    requires Base(s) && Refused(s, Yield)
    ensures var c, n, s1 := s.current, |s.fibers|, Next(s, Yield).0;
            && Base(s1) && Base(Next(s1, Create).0) && Base(Next(Next(s1, Create).0, Resume(n)).0)
            && !Acyclic(Next(Next(Next(s1, Create).0, Resume(n)).0, Resume(c)).0)
  {
    var c, n := s.current, |s.fibers|;
    assert LinkOk(s, c);
    var s1 := Next(s, Yield).0;
    BaseStep(s, Yield);
    var s2 := Next(s1, Create).0;
    BaseStep(s1, Create);
    var s3 := Next(s2, Resume(n)).0;
    BaseStep(s2, Resume(n));
    var s4 := Next(s3, Resume(c)).0;
    hide Base;
    assert s4.fibers[n].prev == Some(c) && s4.fibers[c].prev == Some(n);
    assert Back(s4, n, 1) == Some(c);
    assert Back(s4, c, 2) == Some(c);
  }

  function Example(k: nat): Links
    requires k <= 10
  {
    var root, new3 := Fiber(Running, None, false), Fiber(Created, None, false);
    var one, two := Fiber(Running, Some(0), false), Fiber(Running, Some(1), false);
    var three := Fiber(Running, Some(2), false);
    match k
    case 0 => Start
    case 1 => Links([root, new3], 0)
    case 2 => Links([root, new3, new3], 0)
    case 3 => Links([root, new3, new3, new3], 0)
    case 4 => Links([root, one, new3, new3], 1)
    case 5 => Links([root, one, two, new3], 2)
    case 6 => Links([root, one, two, three], 3)
    case 7 => Links([root, one.(transferred := true), two, three], 1)
    case 8 => Links([root, Fiber(Terminated, None, true), two, three], 0)
    case 9 => Links([root, Fiber(Terminated, None, true), two, three.(transferred := true)], 3)
    case _ => Links([root, Fiber(Terminated, None, true), two, Fiber(Running, None, true)], 2)
  }

  const ExampleOps := [Create, Create, Create, Resume(1), Resume(2), Resume(3), Transfer(1), Finish, Transfer(3), Yield]

  lemma ExampleStep(k: nat)
    requires k < 10 && Base(Example(k))
    ensures Next(Example(k), ExampleOps[k]).0 == Example(k + 1) && Base(Example(k + 1))
  {
    BaseStep(Example(k), ExampleOps[k]);
    assert Next(Example(k), ExampleOps[k]).0.fibers == Example(k + 1).fibers;
  }

  lemma ExampleBase(k: nat)
    requires k <= 10
    ensures Base(Example(k))
  {
    if k == 0 { StartOrdered(); } else { ExampleBase(k - 1); ExampleStep(k - 1); }
  }

  /** Such a refusal can be reached: 1 resumes 2, which resumes 3, which transfers to 1; 1 finishes;
      the root transfers to 3, which yields to 2, whose resumer 1 is dead. */
  lemma RefusalReached()
    ensures Base(Start) && |States(Start, ExampleOps)| == 11 && Base(States(Start, ExampleOps)[10])
    ensures Refused(States(Start, ExampleOps)[10], Yield)
  {
    hide Next, Base, Refused, States, Example;
    ExampleBase(0);
    var ss := seq(11, k requires 0 <= k <= 10 => Example(k));
    forall i: nat | i < 10
      ensures Base(ss[i]) && Next(ss[i], ExampleOps[i]).0 == ss[i + 1]
    {
      ExampleBase(i);
      ExampleStep(i);
    }
    Leads(ss, ExampleOps);
    ExampleBase(10);
    assert ss[10] == Example(10);
    ExampleRefused();
    ExampleBegins();
  }

  lemma ExampleBegins()
    ensures Example(0) == Start
  {
  }

  lemma ExampleRefused()
    requires Base(Example(10))
    ensures Refused(Example(10), Yield)
  {
    assert LinkOk(Example(10), 2);
  }

  /** The states lead to one another by the operations. */
  lemma {:induction false} Leads(ss: seq<Links>, ops: seq<Op>)
    requires |ss| == |ops| + 1 && forall i: nat :: i < |ops| ==> Base(ss[i]) && Next(ss[i], ops[i]).0 == ss[i + 1]
    requires Base(ss[0])
    ensures States(ss[0], ops) == ss && Base(ss[|ops|])
    decreases |ops|
  {
    if ops != [] {
      BaseStep(ss[0], ops[0]);
      Leads(ss[1..], ops[1..]);
      assert ss == [ss[0]] + ss[1..];
    }
  }
}
