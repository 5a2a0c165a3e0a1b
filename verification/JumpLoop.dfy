/** The loop at the label again of iseq_peephole_optimize: a jump takes over the label of the jump it
    gets to as long as it can, and when that comes to an end. */
module JumpLoop {
  import opened Options
  import opened JumpCode
  import opened Peephole

  /** The instruction a jump to label l gets to */
  function Reached(c: Code, l: nat): nat {
    NextInsn(c, Pos(c, l))
  }

  /** With label l in jump i, the loop takes over the label of the jump it gets to and goes again. */
  predicate Again(c: Code, i: nat, l: nat)
    requires i < |c|
  {
    var d := Reached(c, l);
    d != NextInsn(c, i + 1) && d != i && IsJump(c, d) && c[d].insn.l != l
  }

  /** The label of jump i after going again k times; none if the loop stops before */
  function Chain(c: Code, i: nat, l: nat, k: nat): Option<nat>
    requires i < |c|
    decreases k
  {
    if k == 0 then Some(l)
    else if Again(c, i, l) then Chain(c, i, c[Reached(c, l)].insn.l, k - 1)
    else None
  }

  ghost predicate Stops(c: Code, i: nat)
    requires IsJump(c, i)
  {
    exists k: nat :: Chain(c, i, c[i].insn.l, k) == None
  }

  lemma {:induction false} ChainAdd(c: Code, i: nat, l: nat, j: nat, k: nat)
    requires i < |c| && Chain(c, i, l, j).Some?
    ensures Chain(c, i, l, j + k) == Chain(c, i, Chain(c, i, l, j).value, k)
    decreases j
  {
    if j > 0 { ChainAdd(c, i, c[Reached(c, l)].insn.l, j - 1, k); }
  }

  /** A loop that comes back to a label never stops. */
  lemma {:induction false} ChainPeriodic(c: Code, i: nat, l: nat, p: nat, k: nat)
    requires i < |c| && p > 0 && Chain(c, i, l, p) == Some(l)
    ensures Chain(c, i, l, k).Some?
    decreases k
  {
    if k >= p {
      ChainAdd(c, i, l, p, k - p);
      ChainPeriodic(c, i, l, p, k - p);
    } else if Chain(c, i, l, k) == None {
      ChainEnded(c, i, l, k, p);
    }
  }

  lemma {:induction false} ChainEnded(c: Code, i: nat, l: nat, j: nat, k: nat)
    requires i < |c| && j <= k && Chain(c, i, l, j) == None
    ensures Chain(c, i, l, k) == None
    decreases k
  {
    if Again(c, i, l) { ChainEnded(c, i, c[Reached(c, l)].insn.l, j - 1, k - 1); }
  }

  /** More values below n than n: two of them are equal. */
  lemma {:induction false} Pigeonhole(s: seq<nat>, n: nat) returns (a: nat, b: nat)
    requires |s| > n && forall k :: 0 <= k < |s| ==> s[k] < n
    ensures a < b < |s| && s[a] == s[b]
    decreases n
  {
    assert s[0] < n;
    if x: nat :| x < |s| && s[x] == n - 1 {
      if y: nat :| x < y < |s| && s[y] == n - 1 {
        a, b := x, y;
      } else if y: nat :| y < x && s[y] == n - 1 {
        a, b := y, x;
      } else {
        a, b := Pigeonhole(s[..x] + s[x + 1..], n - 1);
        a, b := if a < x then a else a + 1, if b < x then b else b + 1;
      }
    } else {
      a, b := Pigeonhole(s, n - 1);
    }
  }

  /** A turn of a loop that has not stopped by turn n */
  lemma {:induction false} Turn(c: Code, i: nat, l: nat, k: nat, n: nat)
    requires i < |c| && k < n && Chain(c, i, l, n).Some?
    ensures Chain(c, i, l, k).Some? && Again(c, i, Chain(c, i, l, k).value)
    ensures Chain(c, i, l, k + 1) == Some(c[JumpAt(c, i, l, k)].insn.l)
    decreases k
  {
    if k > 0 {
      Turn(c, i, c[Reached(c, l)].insn.l, k - 1, n - 1);
    } else {
      assert Chain(c, i, l, 1) == Chain(c, i, c[Reached(c, l)].insn.l, 0);
    }
  }

  /** The jump that turn k of the loop gets to */
  function JumpAt(c: Code, i: nat, l: nat, k: nat): nat
    requires i < |c|
  {
    if Chain(c, i, l, k).Some? then Reached(c, Chain(c, i, l, k).value) else 0
  }

  /** Among more turns than elements two get to the same jump. */
  lemma Meet(c: Code, i: nat, l: nat, n: nat) returns (a: nat, b: nat)
    requires i < |c| < n && Chain(c, i, l, n).Some?
    ensures a < b < n && JumpAt(c, i, l, a) == JumpAt(c, i, l, b)
  {
    var s := seq(n, k requires 0 <= k < n => JumpAt(c, i, l, k));
    forall k: nat | k < n
      ensures s[k] < |c|
    {
      Turn(c, i, l, k, n);
    }
    a, b := Pigeonhole(s, |c|);
  }

  /** The loop either stops within one turn more than the list has elements, or never. */
  lemma StopsSoon(c: Code, i: nat)
    requires IsJump(c, i)
    ensures Stops(c, i) <==> Chain(c, i, c[i].insn.l, |c| + 1) == None
  {
    hide Chain, Again, Reached;
    var l, n := c[i].insn.l, |c| + 1;
    if Chain(c, i, l, n).Some? {
      var a, b := Meet(c, i, l, n);
      Turn(c, i, l, a, n);
      Turn(c, i, l, b, n);
      Forever(c, i, l, a + 1, b - a);
    }
  }

  lemma Forever(c: Code, i: nat, l: nat, a: nat, p: nat)
    requires i < |c| && p > 0 && Chain(c, i, l, a).Some? && Chain(c, i, l, a + p) == Chain(c, i, l, a)
    ensures forall k: nat :: Chain(c, i, l, k).Some?
  {
    hide Chain;
    var l1 := Chain(c, i, l, a).value;
    ChainAdd(c, i, l, a, p);
    forall k: nat
      ensures Chain(c, i, l, k).Some?
    {
      ChainPeriodic(c, i, l1, p, k);
      ChainAdd(c, i, l, a, k);
      NotEnded(c, i, l, k, a + k);
    }
  }

  lemma NotEnded(c: Code, i: nat, l: nat, j: nat, k: nat)
    requires i < |c| && j <= k && Chain(c, i, l, k).Some?
    ensures Chain(c, i, l, j).Some?
  {
    if j < k { Turn(c, i, l, j, k); }
  }

  /** The jump reached after following n jumps from jump q */
  function Hops(c: Code, q: nat, n: nat): Option<nat>
    decreases n
  {
    if n == 0 then Some(q) else if IsJump(c, q) then Hops(c, Dest(c, q), n - 1) else None
  }

  /** No two or more unconditional jumps lead around in a circle. */
  ghost predicate NoJumpCycle(c: Code) {
    forall q: nat, n: nat {:trigger Hops(c, q, n)} ::
      n > 0 && Hops(c, q, n) == Some(q) ==> IsJump(c, q) && Dest(c, q) == q
  }

  lemma {:induction false} TurnsHop(c: Code, i: nat, l: nat, n: nat, a: nat, b: nat)
    requires i < |c| && Chain(c, i, l, n).Some? && a <= b < n
    ensures Hops(c, JumpAt(c, i, l, a), b - a) == Some(JumpAt(c, i, l, b))
    decreases b - a
  {
    hide Chain, JumpAt, Dest, Hops;
    if a == b {
      NoHop(c, JumpAt(c, i, l, a));
    } else {
      TurnIsHop(c, i, l, n, a);
      FirstHop(c, JumpAt(c, i, l, a), b - a);
      TurnsHop(c, i, l, n, a + 1, b);
    }
  }

  lemma NoHop(c: Code, q: nat)
    ensures Hops(c, q, 0) == Some(q)
  {
  }

  lemma FirstHop(c: Code, q: nat, n: nat)
    requires n > 0 && IsJump(c, q)
    ensures Hops(c, q, n) == Hops(c, Dest(c, q), n - 1)
  {
  }

  lemma TurnIsHop(c: Code, i: nat, l: nat, n: nat, a: nat)
    requires i < |c| && Chain(c, i, l, n).Some? && a < n
    ensures IsJump(c, JumpAt(c, i, l, a)) && Dest(c, JumpAt(c, i, l, a)) == JumpAt(c, i, l, a + 1)
  {
    Turn(c, i, l, a, n);
    hide Chain, NextInsn, Pos;
  }

  lemma {:induction false} HopsAdd(c: Code, q: nat, a: nat, b: nat)
    requires Hops(c, q, a).Some?
    ensures Hops(c, q, a + b) == Hops(c, Hops(c, q, a).value, b)
    decreases a
  {
    if a > 0 { HopsAdd(c, Dest(c, q), a - 1, b); }
  }

  lemma {:induction false} HopsBefore(c: Code, q: nat, a: nat, b: nat)
    requires a <= b && Hops(c, q, b).Some?
    ensures Hops(c, q, a).Some?
    decreases a
  {
    if a > 0 { HopsBefore(c, Dest(c, q), a - 1, b - 1); }
  }

  /** Nothing leads away from a jump to itself. */
  lemma {:induction false} HopsStay(c: Code, q: nat, n: nat)
    requires IsJump(c, q) && Dest(c, q) == q
    ensures Hops(c, q, n) == Some(q)
  {
    if n > 0 { HopsStay(c, q, n - 1); }
  }

  /** Following the jumps from the destination of jump i, one comes after a of them into a circle of p
      jumps, two or more, and meets neither jump i nor the instruction behind it. */
  predicate CircleAt(c: Code, i: nat, a: nat, p: nat)
    requires IsJump(c, i)
  {
    var d := Dest(c, i);
    && p > 0 && Hops(c, d, a).Some? && Hops(c, d, a + p) == Hops(c, d, a)
    && IsJump(c, Hops(c, d, a).value) && Dest(c, Hops(c, d, a).value) != Hops(c, d, a).value
    && forall k :: 0 <= k <= a + p ==> Hops(c, d, k) != Some(i) && Hops(c, d, k) != Some(NextInsn(c, i + 1))
  }

  /** Jump i leads into a circle of other jumps. */
  ghost predicate IntoCircle(c: Code, i: nat)
    requires IsJump(c, i)
  {
    exists a: nat, p: nat :: CircleAt(c, i, a, p)
  }

  /** On the way into a circle a jump never has the label that leads to itself. */
  lemma OnTheWay(c: Code, i: nat, a: nat, p: nat, k: nat)
    requires IsJump(c, i) && CircleAt(c, i, a, p) && k <= a + p
    ensures Hops(c, Dest(c, i), k).Some? && IsJump(c, Hops(c, Dest(c, i), k).value)
    ensures Dest(c, Hops(c, Dest(c, i), k).value) != Hops(c, Dest(c, i), k).value
  {
    hide NextInsn;
    var d := Dest(c, i);
    HopsBefore(c, d, k, a + p);
    var q := Hops(c, d, k).value;
    HopsAdd(c, d, k, a + p - k);
    if IsJump(c, q) && Dest(c, q) == q { HopsStay(c, q, a + p - k); }
  }

  lemma {:induction false} CircleTurns(c: Code, i: nat, a: nat, p: nat, k: nat)
    requires IsJump(c, i) && CircleAt(c, i, a, p) && k <= a + p
    ensures Chain(c, i, c[i].insn.l, k).Some? && Some(JumpAt(c, i, c[i].insn.l, k)) == Hops(c, Dest(c, i), k)
    ensures IsJump(c, JumpAt(c, i, c[i].insn.l, k))
    ensures Chain(c, i, c[i].insn.l, k + 1) == Some(c[JumpAt(c, i, c[i].insn.l, k)].insn.l)
    decreases k
  {
    hide NextInsn, Hops, CircleAt, Chain;
    var l := c[i].insn.l;
    OnTheWay(c, i, a, p, k);
    NoTurns(c, i, l);
    if k > 0 {
      CircleTurns(c, i, a, p, k - 1);
      OnTheWay(c, i, a, p, k - 1);
      OneHop(c, Dest(c, i), k - 1);
    }
    CircleMisses(c, i, a, p, k);
    OneTurn(c, i, l, k);
  }

  lemma NoTurns(c: Code, i: nat, l: nat)
    requires i < |c|
    ensures Chain(c, i, l, 0) == Some(l) && Hops(c, l, 0) == Some(l)
    ensures IsJump(c, i) ==> Hops(c, Dest(c, i), 0) == Some(Dest(c, i))
  {
  }

  lemma CircleMisses(c: Code, i: nat, a: nat, p: nat, k: nat)
    requires IsJump(c, i) && CircleAt(c, i, a, p) && k <= a + p
    ensures Hops(c, Dest(c, i), k) != Some(i) && Hops(c, Dest(c, i), k) != Some(NextInsn(c, i + 1))
  {
  }

  lemma OneHop(c: Code, q: nat, k: nat)
    requires Hops(c, q, k).Some? && IsJump(c, Hops(c, q, k).value)
    ensures Hops(c, q, k + 1) == Some(Dest(c, Hops(c, q, k).value))
  {
    HopsAdd(c, q, k, 1);
  }

  lemma OneTurn(c: Code, i: nat, l: nat, k: nat)
    requires i < |c| && Chain(c, i, l, k).Some?
    ensures var l' := Chain(c, i, l, k).value;
            Chain(c, i, l, k + 1) == if Again(c, i, l') then Some(c[Reached(c, l')].insn.l) else None
  {
    hide Reached;
    ChainAdd(c, i, l, k, 1);
    var l' := Chain(c, i, l, k).value;
    if Again(c, i, l') { NoTurns(c, i, c[Reached(c, l')].insn.l); }
  }

  /** The loop for jump i stops exactly if the jump does not lead into a circle of other jumps. */
  lemma StopsIff(c: Code, i: nat)
    requires IsJump(c, i)
    ensures Stops(c, i) <==> !IntoCircle(c, i)
  {
    hide Hops, Chain, CircleAt;
    if a: nat, p: nat :| CircleAt(c, i, a, p) {
      CircleRuns(c, i, a, p);
    }
    if !Stops(c, i) { RunsCircle(c, i); }
  }

  lemma CircleRuns(c: Code, i: nat, a: nat, p: nat)
    requires IsJump(c, i) && CircleAt(c, i, a, p)
    ensures !Stops(c, i)
  {
    hide Hops, Chain;
    CircleTurns(c, i, a, p, a);
    CircleTurns(c, i, a, p, a + p);
    Forever(c, i, c[i].insn.l, a + 1, p);
  }

  /** A turn is a hop to a jump that is neither jump i nor the instruction behind it. */
  lemma TurnOut(c: Code, i: nat, n: nat, k: nat)
    requires IsJump(c, i) && Chain(c, i, c[i].insn.l, n).Some? && k < n
    ensures var q := JumpAt(c, i, c[i].insn.l, k);
            Hops(c, Dest(c, i), k) == Some(q) && IsJump(c, q) && q != i && q != NextInsn(c, i + 1)
  {
    hide Chain, Hops, NextInsn;
    var l := c[i].insn.l;
    NoTurns(c, i, l);
    Turn(c, i, l, k, n);
    TurnsHop(c, i, l, n, 0, k);
  }

  /** A jump that one turn comes over does not lead to itself if there is another turn. */
  lemma TurnOn(c: Code, i: nat, n: nat, k: nat)
    requires IsJump(c, i) && Chain(c, i, c[i].insn.l, n).Some? && k + 1 < n
    ensures var q := JumpAt(c, i, c[i].insn.l, k); IsJump(c, q) && Dest(c, q) != q
  {
    hide Chain, NextInsn;
    var l := c[i].insn.l;
    Turn(c, i, l, k, n);
    Turn(c, i, l, k + 1, n);
  }

  lemma RunsCircle(c: Code, i: nat)
    requires IsJump(c, i) && !Stops(c, i)
    ensures IntoCircle(c, i)
  {
    hide Chain, Hops, NextInsn, Dest, JumpAt;
    var l, n := c[i].insn.l, |c| + 2;
    NotEnded(c, i, l, n - 1, n);
    var a, b := Meet(c, i, l, n - 1);
    forall k: nat | k < n
      ensures Hops(c, Dest(c, i), k) == Some(JumpAt(c, i, l, k)) && IsJump(c, JumpAt(c, i, l, k))
      ensures JumpAt(c, i, l, k) != i && JumpAt(c, i, l, k) != NextInsn(c, i + 1)
    {
      TurnOut(c, i, n, k);
    }
    TurnOn(c, i, n, a);
    assert CircleAt(c, i, a, b - a);
  }

  /** Without a circle of jumps anywhere every loop stops. */
  lemma NoCycleStops(c: Code, i: nat)
    requires IsJump(c, i) && NoJumpCycle(c)
    ensures Stops(c, i)
  {
    hide Chain, Hops, NextInsn;
    StopsIff(c, i);
    if a: nat, p: nat :| CircleAt(c, i, a, p) {
      HopsAdd(c, Dest(c, i), a, p);
    }
  }

  /** Two jumps that lead to each other, and a third jump to one of them from elsewhere: its loop never
      stops. */
  lemma CircleNeverStops(c: Code, i: nat)
    requires IsJump(c, i) && IsJump(c, Dest(c, i)) && IsJump(c, Dest(c, Dest(c, i)))
    requires var q := Dest(c, i); Dest(c, q) != q && Dest(c, Dest(c, q)) == q
    requires {i, NextInsn(c, i + 1)} !! {Dest(c, i), Dest(c, Dest(c, i))}
    ensures !Stops(c, i)
  {
    hide Chain, NextInsn;
    var q := Dest(c, i);
    assert Hops(c, q, 0) == Some(q) && Hops(c, q, 1) == Some(Dest(c, q));
    assert Hops(c, q, 2) == Hops(c, Dest(c, q), 1) == Some(q);
    assert CircleAt(c, i, 0, 2);
    StopsIff(c, i);
  }

  /** A jump at the front, and two jumps that lead to each other */
  const CircleCode: Code := [Op(Jump(1)), Op(Other(0)), Label(1), Op(Jump(2)), Op(Other(0)), Label(2), Op(Jump(1))]

  lemma CircleReached()
    ensures Pos(CircleCode, 1) == 2 && Reached(CircleCode, 1) == 3
    ensures Pos(CircleCode, 2) == 5 && Reached(CircleCode, 2) == 6
    ensures NextInsn(CircleCode, 1) == 1
  {
    hide Pos, NextInsn;
    var c := CircleCode;
    assert c[2] == Label(1) && c[5] == Label(2);
    assert !c[1].Label? && !c[3].Label? && !c[6].Label?;
  }

  /** There are such lists. */
  lemma CircleExample()
    ensures IsJump(CircleCode, 0) && !Stops(CircleCode, 0)
  {
    CircleReached();
    hide Pos, NextInsn;
    CircleNeverStops(CircleCode, 0);
  }
}
