/** The operations of cont.c on one thread, with the machine stacks of its fibers and the cache
    of stacks that finished fibers leave behind. */
module FiberThread {
  import opened Options
  import opened FiberLinks

  const MAX_MACHINE_STACK_CACHE: nat := 10

  /** The stack of each fiber (ss_sp), the cache with its index, the terminated slot, and the
      stacks that are mapped.  Identifiers are below next. */
  datatype Stacks = Stacks(stacks: seq<Option<nat>>, cache: seq<Option<nat>>, index: nat,
                           slot: Option<nat>, mapped: set<nat>, next: nat)

  datatype Place = InFiber(f: nat) | InSlot | InCache(i: nat)

  /** Stack p is held at the place. */
  predicate Holds(m: Stacks, x: Place, p: nat) {
    match x
    case InFiber(f) => f < |m.stacks| && m.stacks[f] == Some(p)
    case InSlot => m.slot == Some(p)
    case InCache(i) => i < m.index && i < |m.cache| && m.cache[i] == Some(p)
  }

  /** Every mapped stack is held in exactly one place, and nothing else is held. */
  ghost predicate HeldOnce(m: Stacks) {
    && (forall x, p: nat {:trigger Holds(m, x, p)} :: Holds(m, x, p) ==> p in m.mapped && p < m.next)
    && (forall p: nat {:trigger p in m.mapped} :: p in m.mapped ==> p < m.next && exists x :: Holds(m, x, p))
    && (forall x, y, p: nat {:trigger Holds(m, x, p), Holds(m, y, p)} :: Holds(m, x, p) && Holds(m, y, p) ==> x == y)
  }

  /** The cache is filled exactly below its index, and the running fibers other than the root are
      those that have a stack. */
  ghost predicate StacksOk(l: Links, m: Stacks) {
    && HeldOnce(m)
    && |m.cache| == MAX_MACHINE_STACK_CACHE && m.index <= MAX_MACHINE_STACK_CACHE
    && (forall i :: 0 <= i < MAX_MACHINE_STACK_CACHE ==> (m.cache[i].Some? <==> i < m.index))
    && |m.stacks| == |l.fibers|
    && (forall f :: 0 <= f < |l.fibers| ==> (m.stacks[f].Some? <==> f != 0 && l.fibers[f].status == Running))
  }

  /** A stack moves from place x to place y of the new state; the other places keep theirs. */
  lemma Moved(m: Stacks, m': Stacks, x: Place, y: Place, p: nat)
    requires HeldOnce(m) && Holds(m, x, p) && Holds(m', y, p) && m'.mapped == m.mapped && m'.next == m.next
    requires forall z, q :: Holds(m', z, q) ==> (z == y && q == p) || (z != x && Holds(m, z, q))
    requires forall z, q :: Holds(m, z, q) && z != x ==> Holds(m', z, q)
    ensures HeldOnce(m')
  {
    forall q | q in m'.mapped
      ensures exists z :: Holds(m', z, q)
    {
      var z :| Holds(m, z, q);
      assert Holds(m', if z == x then y else z, q);
    }
  }

  /** fiber_machine_stack_alloc with a stack from the cache */
  function FromCache(m: Stacks, f: nat): Stacks
    requires f < |m.stacks| && 0 < m.index <= |m.cache|
  {
    m.(stacks := m.stacks[f := m.cache[m.index - 1]], cache := m.cache[m.index - 1 := None], index := m.index - 1)
  }

  lemma FromCacheOk(m: Stacks, f: nat)
    requires HeldOnce(m) && f < |m.stacks| && 0 < m.index <= |m.cache| && m.cache[m.index - 1].Some?
    requires m.stacks[f] == None
    ensures HeldOnce(FromCache(m, f))
  {
    var p := m.cache[m.index - 1].value;
    Moved(m, FromCache(m, f), InCache(m.index - 1), InFiber(f), p);
  }

  /** fiber_machine_stack_alloc with a newly mapped stack */
  function FromSystem(m: Stacks, f: nat): Stacks
    requires f < |m.stacks|
  {
    m.(stacks := m.stacks[f := Some(m.next)], mapped := m.mapped + {m.next}, next := m.next + 1)
  }

  lemma FromSystemOk(m: Stacks, f: nat)
    requires HeldOnce(m) && f < |m.stacks| && m.stacks[f] == None
    ensures HeldOnce(FromSystem(m, f))
  {
    var m' := FromSystem(m, f);
    assert forall z, q :: Holds(m', z, q) <==> (z == InFiber(f) && q == m.next) || Holds(m, z, q);
    forall q | q in m'.mapped
      ensures exists z :: Holds(m', z, q)
    {
      if q == m.next {
        assert Holds(m', InFiber(f), q);
      } else {
        var z :| Holds(m, z, q);
        assert Holds(m', z, q);
      }
    }
  }

  /** rb_fiber_terminate leaves the stack of the fiber in the terminated slot. */
  function ToSlot(m: Stacks, f: nat): Stacks
    requires f < |m.stacks|
  {
    m.(stacks := m.stacks[f := None], slot := m.stacks[f])
  }

  lemma ToSlotOk(m: Stacks, f: nat)
    requires HeldOnce(m) && f < |m.stacks| && m.stacks[f].Some? && m.slot == None
    ensures HeldOnce(ToSlot(m, f))
  {
    Moved(m, ToSlot(m, f), InFiber(f), InSlot, m.stacks[f].value);
  }

  /** The restored fiber puts the stack of the terminated slot into the cache, or unmaps it. */
  function Drained(m: Stacks): Stacks
    requires m.slot.Some? && m.index <= |m.cache|
  {
    if m.index < |m.cache| then m.(cache := m.cache[m.index := m.slot], index := m.index + 1, slot := None)
    else m.(mapped := m.mapped - {m.slot.value}, slot := None)
  }

  lemma DrainedOk(m: Stacks)
    requires HeldOnce(m) && m.slot.Some? && m.index <= |m.cache|
    ensures HeldOnce(Drained(m))
  {
    var m', p := Drained(m), m.slot.value;
    assert Holds(m, InSlot, p);
    if m.index < |m.cache| {
      Moved(m, m', InSlot, InCache(m.index), p);
    } else {
      assert forall z, q :: Holds(m', z, q) <==> z != InSlot && Holds(m, z, q);
      forall q | q in m'.mapped
        ensures exists z :: Holds(m', z, q)
      {
        var z :| Holds(m, z, q);
        assert Holds(m', z, q);
      }
    }
  }

  class Thread {
    var links: Links
    var m: Stacks

    /** What holds between the operations of every run: in particular the terminated slot is empty. */
    ghost predicate Valid()
      reads this
    {
      Base(links) && StacksOk(links, m) && m.slot == None
    }

    constructor ()
      ensures Valid() && links == Start
    {
      links := Start;
      m := Stacks([None], seq(MAX_MACHINE_STACK_CACHE, _ => None), 0, None, {}, 0);
      new;
      StartOrdered();
    }

    /** fiber_init */
    method CreateFiber()
      requires Valid()
      modifies this
      ensures Valid() && links == Next(old(links), Create).0
    {
      BaseStep(links, Create);
      ghost var m0 := m;
      links := links.(fibers := links.fibers + [Fiber(Created, None, false)]);
      m := m.(stacks := m.stacks + [None]);
      assert forall z, q :: Holds(m, z, q) <==> Holds(m0, z, q);
    }

    /** fiber_machine_stack_alloc */
    method MachineStackAlloc(f: nat)
      requires HeldOnce(m) && f < |m.stacks| && m.stacks[f] == None && m.index <= |m.cache|
      requires m.index > 0 ==> m.cache[m.index - 1].Some?
      modifies this`m
      ensures m == if old(m).index > 0 then FromCache(old(m), f) else FromSystem(old(m), f)
      ensures HeldOnce(m)
    {
      if m.index > 0 {
        FromCacheOk(m, f);
        m := FromCache(m, f);
      } else {
        FromSystemOk(m, f);
        m := FromSystem(m, f);
      }
    }

    /** fiber_store and fiber_setcontext: f starts, on a stack of its own, or goes on where it was
        suspended, which is in fiber_store: there it empties the terminated slot. */
    method Store(f: nat)
      requires f < |links.fibers| && links.fibers[f].status != Terminated && StacksOk(links, m)
      requires links.fibers[0].status == Running && (m.slot.Some? ==> links.fibers[f].status == Running)
      modifies this
      ensures links == Enter(old(links), f) && StacksOk(links, m) && m.slot == None
    {
      if links.fibers[f].status != Running {
        MachineStackAlloc(f);
        links := Links(links.fibers[f := links.fibers[f].(status := Running)], f);
      } else {
        links := Links(links.fibers, f);
        if m.slot.Some? {
          DrainedOk(m);
          m := Drained(m);
        }
      }
    }

    /** fiber_switch */
    method FiberSwitch(f: nat, isResume: bool) returns (o: Outcome)
      requires links.current < |links.fibers| && f < |links.fibers| && StacksOk(links, m)
      requires links.fibers[0].status == Running
      requires if links.fibers[links.current].status == Terminated
               then f != links.current && links.fibers[f].status != Created && !isResume
               else m.slot == None
      modifies this
      ensures StacksOk(links, m) && m.slot == None
      ensures if old(links.fibers[links.current].status) == Terminated
              then
                && o == Switched
                && links == Enter(old(links), if old(links.fibers[f].status) == Terminated then 0 else f)
              else (links, o) == Switch(old(links), f, isResume)
    {
      if links.current == f { return Ignored; }
      if links.fibers[f].status == Terminated {
        if links.fibers[links.current].status != Terminated { return DeadFiber; }
        // the finishing fiber's resumer is dead as well: on to the root
        Store(0);
        return Switched;
      }
      if isResume {
        links := links.(fibers := links.fibers[f := links.fibers[f].(prev := Some(links.current))]);
      }
      Store(f);
      return Switched;
    }

    /** return_fiber: the fiber to go back to, whose link is taken away; none from the root */
    method ReturnFiber() returns (t: Option<nat>)
      requires links.current < |links.fibers| && StacksOk(links, m)
      modifies this
      ensures StacksOk(links, m) && m == old(m)
      ensures if old(links.fibers[links.current].prev == None && links.current == 0)
              then t == None && links == old(links)
              else t == Some(ReturnTarget(old(links))) && links == Unlinked(old(links))
    {
      var fib := links.fibers[links.current];
      if fib.prev == None {
        if links.current == 0 { return None; }
        assert links.fibers == links.fibers[links.current := fib.(prev := None)];
        return Some(0);
      }
      links := links.(fibers := links.fibers[links.current := fib.(prev := None)]);
      return fib.prev;
    }

    /** rb_fiber_resume */
    method FiberResume(f: nat) returns (o: Outcome)
      requires Valid() && f < |links.fibers|
      modifies this
      ensures Valid() && (links, o) == Next(old(links), Resume(f))
    {
      BaseStep(links, Resume(f));
      if links.fibers[f].prev.Some? || f == 0 { return DoubleResume; }
      if links.fibers[f].transferred { return CannotResume; }
      o := FiberSwitch(f, true);
    }

    /** rb_fiber_m_transfer */
    method FiberTransfer(f: nat) returns (o: Outcome)
      requires Valid() && f < |links.fibers|
      modifies this
      ensures Valid() && (links, o) == Next(old(links), Transfer(f))
    {
      BaseStep(links, Transfer(f));
      links := links.(fibers := links.fibers[f := links.fibers[f].(transferred := true)]);
      o := FiberSwitch(f, false);
    }

    /** rb_fiber_yield */
    method FiberYield() returns (o: Outcome)
      requires Valid()
      modifies this
      ensures Valid() && (links, o) == Next(old(links), Yield)
    {
      BaseStep(links, Yield);
      assert LinkOk(links, links.current);
      var t := ReturnFiber();
      if t == None { return YieldFromRoot; }
      o := FiberSwitch(t.value, false);
    }

    /** rb_fiber_terminate of the running fiber */
    method FiberTerminate()
      requires Valid() && links.current != 0
      modifies this
      ensures Valid() && links == Next(old(links), Finish).0
    {
      BaseStep(links, Finish);
      assert LinkOk(links, links.current);
      var f := links.current;
      ToSlotOk(m, f);
      m := ToSlot(m, f);
      links := links.(fibers := links.fibers[f := links.fibers[f].(status := Terminated)]);
      var t := ReturnFiber();
      ghost var l1 := links;
      var o := FiberSwitch(t.value, false);
      assert links.fibers == l1.fibers;
    }

    /** Any run: the links go through the states of the run, and machine stacks are held once each,
        with the terminated slot empty, after every operation. */
    method Run(ops: seq<Op>)
      requires Valid()
      modifies this
      ensures Valid() && links == States(old(links), ops)[|ops|]
      decreases |ops|
    {
      if ops == [] { return; }
      ghost var l0 := links;
      BaseStep(links, ops[0]);
      match ops[0] {
        case Create => CreateFiber();
        case Resume(f) => if f < |links.fibers| { var o := FiberResume(f); }
        case Transfer(f) => if f < |links.fibers| { var o := FiberTransfer(f); }
        case Yield => var o := FiberYield();
        case Finish => if links.current != 0 { FiberTerminate(); }
      }
      assert links == Next(l0, ops[0]).0;
      Run(ops[1..]);
    }
  }
}
