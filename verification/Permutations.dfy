/** Array#permutation: the loop of permute0 and what it yields. */
module Permutations {

  type Tuple = seq<nat>

  predicate Below(n: nat, p: Tuple) {
    forall k :: 0 <= k < |p| ==> p[k] < n
  }

  /** All tuples of length r over 0..n without repetition that begin with p, in order */
  function Perms(n: nat, r: nat, p: Tuple): seq<Tuple>
    requires |p| <= r
    decreases r - |p|, n + 1
  {
    if |p| == r then [p] else PermsFrom(n, r, p, 0)
  }

  /** Those of them whose next element is at least i */
  function PermsFrom(n: nat, r: nat, p: Tuple, i: nat): seq<Tuple>
    requires |p| < r && i <= n
    decreases r - |p|, n - i
  {
    if i == n then [] else (if i in p then [] else Perms(n, r, p + [i])) + PermsFrom(n, r, p, i + 1)
  }

  /** What is still to come when the loop has reached p and next tries i */
  function Rest(n: nat, r: nat, p: Tuple, i: nat): seq<Tuple>
    requires |p| < r && i <= n && Below(n, p)
    decreases |p|
  {
    PermsFrom(n, r, p, i) + (if p == [] then [] else Rest(n, r, p[..|p| - 1], p[|p| - 1] + 1))
  }

  /** The number of turns of the loop before it gets back from the tuples that begin with p and
      go on with i or more */
  function Work(n: nat, r: nat, p: Tuple, i: nat): nat
    requires |p| < r && i <= n
    decreases r - |p|, n - i
  {
    if i == n then 1
    else if i in p then Work(n, r, p, i + 1)
    else 1 + (if |p| + 2 < r then Work(n, r, p + [i], 0) else 0) + Work(n, r, p, i + 1)
  }

  function WorkRest(n: nat, r: nat, p: Tuple, i: nat): nat
    requires |p| < r && i <= n && Below(n, p)
    decreases |p|
  {
    Work(n, r, p, i) + (if p == [] then 0 else WorkRest(n, r, p[..|p| - 1], p[|p| - 1] + 1))
  }

  lemma {:induction false} SkipUsed(n: nat, r: nat, p: Tuple, i: nat, j: nat)
    requires |p| < r && i <= j <= n && forall k :: i <= k < j ==> k in p
    ensures PermsFrom(n, r, p, i) == PermsFrom(n, r, p, j) && Work(n, r, p, i) == Work(n, r, p, j)
    decreases j - i
  {
    if i < j { SkipUsed(n, r, p, i + 1, j); }
  }

  /** The loop goes into p + [j]. */
  lemma Descend(n: nat, r: nat, p: Tuple, j: nat)
    requires |p| + 1 < r && j < n && j !in p && Below(n, p)
    ensures Rest(n, r, p, j) == Rest(n, r, p + [j], 0)
    ensures |p| + 2 < r ==> WorkRest(n, r, p, j) == 1 + WorkRest(n, r, p + [j], 0)
    ensures Rest(n, r, p, j) == Perms(n, r, p + [j]) + Rest(n, r, p, j + 1)
    ensures |p| + 2 >= r ==> WorkRest(n, r, p, j) == 1 + WorkRest(n, r, p, j + 1)
  {
    DescendPerms(n, r, p, j);
    DescendWork(n, r, p, j);
  }

  lemma DescendPerms(n: nat, r: nat, p: Tuple, j: nat)
    requires |p| + 1 < r && j < n && j !in p && Below(n, p)
    ensures Rest(n, r, p, j) == Rest(n, r, p + [j], 0) == Perms(n, r, p + [j]) + Rest(n, r, p, j + 1)
  {
    hide Perms, PermsFrom, Rest, Below;
    PermsSplit(n, r, p, j);
    RestIs(n, r, p, j);
    RestIs(n, r, p, j + 1);
    RestBelow(n, r, p, j);
  }

  lemma PermsSplit(n: nat, r: nat, p: Tuple, j: nat)
    requires |p| + 1 < r && j < n && j !in p
    ensures PermsFrom(n, r, p, j) == Perms(n, r, p + [j]) + PermsFrom(n, r, p, j + 1)
    ensures Perms(n, r, p + [j]) == PermsFrom(n, r, p + [j], 0)
  {
  }

  lemma RestIs(n: nat, r: nat, p: Tuple, i: nat)
    requires |p| < r && i <= n && Below(n, p)
    ensures var rest := if p == [] then [] else Rest(n, r, p[..|p| - 1], p[|p| - 1] + 1);
            Rest(n, r, p, i) == PermsFrom(n, r, p, i) + rest
  {
    hide PermsFrom;
  }

  lemma RestBelow(n: nat, r: nat, p: Tuple, j: nat)
    requires |p| + 1 < r && j < n && Below(n, p)
    ensures Below(n, p + [j]) && Rest(n, r, p + [j], 0) == PermsFrom(n, r, p + [j], 0) + Rest(n, r, p, j + 1)
  {
    hide PermsFrom, Rest;
    var q := p + [j];
    assert q[..|q| - 1] == p && q[|q| - 1] == j;
    RestIs(n, r, q, 0);
  }

  lemma DescendWork(n: nat, r: nat, p: Tuple, j: nat)
    requires |p| + 1 < r && j < n && j !in p && Below(n, p)
    ensures |p| + 2 < r ==> WorkRest(n, r, p, j) == 1 + WorkRest(n, r, p + [j], 0)
    ensures |p| + 2 >= r ==> WorkRest(n, r, p, j) == 1 + WorkRest(n, r, p, j + 1)
  {
    var q := p + [j];
    assert q[..|q| - 1] == p && q[|q| - 1] == j;
    var below := if |p| + 2 < r then Work(n, r, q, 0) else 0;
    assert Work(n, r, p, j) == 1 + below + Work(n, r, p, j + 1);
    hide Work;
    assert WorkRest(n, r, q, 0) == Work(n, r, q, 0) + WorkRest(n, r, p, j + 1);
  }

  lemma RestSkip(n: nat, r: nat, p: Tuple, i: nat, j: nat)
    requires |p| < r && i <= j <= n && Below(n, p) && forall k :: i <= k < j ==> k in p
    ensures Rest(n, r, p, i) == Rest(n, r, p, j) && WorkRest(n, r, p, i) == WorkRest(n, r, p, j)
  {
    SkipUsed(n, r, p, i, j);
  }

  /** The loop goes back from p. */
  lemma Ascend(n: nat, r: nat, p: Tuple)
    requires |p| < r && Below(n, p)
    ensures p == [] ==> Rest(n, r, p, n) == []
    ensures p != [] ==> var p1, x := p[..|p| - 1], p[|p| - 1];
                        && Below(n, p1) && x < n && Rest(n, r, p, n) == Rest(n, r, p1, x + 1)
                        && WorkRest(n, r, p, n) == 1 + WorkRest(n, r, p1, x + 1)
  {
  }

  /** The marks are those of the elements of q. */
  ghost predicate Marks(used: array<bool>, q: Tuple)
    reads used
  {
    && Below(used.Length, q)
    && (forall k :: 0 <= k < used.Length ==> (used[k] <==> k in q))
  }

  /** Each number once */
  predicate Distinct(q: Tuple) {
    forall i, j :: 0 <= i < j < |q| ==> q[i] != q[j]
  }

  /** memchr: the first unused number from i on, or n */
  method FirstUnused(used: array<bool>, i: nat, ghost q: Tuple) returns (j: nat)
    requires i <= used.Length && Marks(used, q)
    ensures i <= j <= used.Length && (forall k :: i <= k < j ==> k in q) && (j < used.Length ==> j !in q)
    ensures Below(used.Length, q)
  {
    j := i;
    while j < used.Length && used[j]
      invariant i <= j <= used.Length && forall k :: i <= k < j ==> used[k]
    {
      j := j + 1;
    }
  }

  /** The inner loop of permute0: the last place takes every unused number in turn. */
  method LastPlace(n: nat, r: nat, p: array<nat>, used: array<bool>, index: nat, out: seq<Tuple>)
    returns (out': seq<Tuple>)
    requires p.Length == r && used.Length == n && index + 1 == r && Marks(used, p[..index])
    modifies p
    ensures p[..index] == old(p[..index])
    ensures out' == out + Perms(n, r, p[..index])
  {
    ghost var q := p[..index];
    out' := out;
    assert PermsFrom(n, r, q, 0) == Perms(n, r, q);
    for i := 0 to n
      invariant p[..index] == q && out' + PermsFrom(n, r, q, i) == out + Perms(n, r, q)
    {
      ghost var before := out';
      assert PermsFrom(n, r, q, i) == (if i in q then [] else Perms(n, r, q + [i])) + PermsFrom(n, r, q, i + 1);
      if !used[i] {
        p[index] := i;
        out' := out' + [p[..]];
        assert p[..] == q + [i];
        assert Perms(n, r, q + [i]) == [q + [i]];
      }
    }
    assert PermsFrom(n, r, q, n) == [];
  }

  /** Marks are taken away and set one number at a time. */
  lemma Unmarked(used: seq<bool>, q: Tuple, used': seq<bool>, q': Tuple, x: nat)
    requires x < |used| && used' == used[x := false] && q == q' + [x] && x !in q'
    requires forall k :: 0 <= k < |used| ==> (used[k] <==> k in q)
    ensures forall k :: 0 <= k < |used| ==> (used'[k] <==> k in q')
  {
  }

  /** The loop goes back one place (pop index). */
  method PopIndex(n: nat, r: nat, p: array<nat>, used: array<bool>, index0: nat) returns (index: nat, i: nat)
    requires p.Length == r && used.Length == n && 0 < index0 < r && Marks(used, p[..index0]) && Distinct(p[..index0])
    modifies used
    ensures index == index0 - 1 && i <= n && Marks(used, p[..index]) && Distinct(p[..index])
    ensures Below(n, p[..index0]) && Below(n, p[..index]) && i == p[index] + 1
  {
    ghost var q := p[..index0];
    index := index0 - 1;
    i := p[index];
    assert q == p[..index] + [i];
    Popped(q, p[..index]);
    Unmarked(used[..], q, used[..][i := false], p[..index], i);
    used[i] := false;
    assert used[..] == old(used[..])[i := false];
    i := i + 1;
  }

  /** The loop goes on to the next place with the unused number x. */
  method PushIndex(n: nat, r: nat, p: array<nat>, used: array<bool>, index: nat, x: nat)
    requires p.Length == r && used.Length == n && index < r && Marks(used, p[..index]) && Distinct(p[..index]) && x < n
    requires x !in p[..index]
    modifies p, used
    ensures p[..index + 1] == old(p[..index]) + [x] && Below(n, p[..index + 1])
    ensures Marks(used, p[..index + 1]) && Distinct(p[..index + 1])
  {
    p[index] := x;
    used[x] := true;
    assert p[..index + 1] == old(p[..index]) + [x];
  }

  /** permute0 */
  method Permute0(n: nat, r: nat) returns (out: seq<Tuple>)
    requires 2 <= r <= n
    ensures out == Perms(n, r, [])
  {
    hide Perms, PermsFrom, Rest, Work, WorkRest, Distinct, Marks, Below;
    var p, used := new nat[r], new bool[n](_ => false);
    var i: nat, index: nat := 0, 0;
    out := [];
    assert p[..0] == [];
    Begin(n, r);
    NoMarks(used);
    while true
      invariant index + 1 < r && i <= n && Below(n, p[..index]) && Marks(used, p[..index]) && Distinct(p[..index])
      invariant out + Rest(n, r, p[..index], i) == Perms(n, r, [])
      decreases WorkRest(n, r, p[..index], i)
    {
      ghost var q := p[..index];
      var unused := FirstUnused(used, i, q);
      RestSkip(n, r, q, i, unused);
      if unused == n {
        Ascend(n, r, q);
        if index == 0 { return; }
        index, i := PopIndex(n, r, p, used, index);
        assert p[..index] == q[..|q| - 1];
      } else {
        Descend(n, r, q, unused);
        PushIndex(n, r, p, used, index, unused);
        index := index + 1;
        if index < r - 1 {
          p[index] := 0;
          i := 0;
          assert p[..index] == q + [unused];
        } else {
          out := LastPlace(n, r, p, used, index, out);
          index, i := PopIndex(n, r, p, used, index);
          assert p[..index] == q && i == unused + 1;
          p[index] := i;
          assert p[..index] == q;
          StillMarked(used, q, p[..index]);
        }
      }
    }
  }

  lemma NoMarks(used: array<bool>)
    requires forall k :: 0 <= k < used.Length ==> !used[k]
    ensures Marks(used, []) && Below(used.Length, [])
  {
  }

  lemma StillMarked(used: array<bool>, q: Tuple, q': Tuple)
    requires Marks(used, q) && q' == q
    ensures Marks(used, q')
  {
  }

  lemma Begin(n: nat, r: nat)
    requires 0 < r
    ensures Rest(n, r, [], 0) == Perms(n, r, []) && Distinct([])
  {
  }

  lemma Popped(q: Tuple, q1: Tuple)
    requires q != [] && q1 == q[..|q| - 1] && Distinct(q)
    ensures Distinct(q1) && q == q1 + [q[|q| - 1]] && q[|q| - 1] !in q1
  {
  }
}
