/** Array#combination: the loop of combinate0, what it yields, and binomial_coefficient. */
module Combinations {
  import opened Arith
  import opened Permutations
  import opened PermutationLaws

  /** All increasing tuples of length n below len that begin with p and go on with i or more, in order */
  function CombsFrom(len: nat, n: nat, p: Tuple, i: nat): seq<Tuple>
    requires |p| <= n && i <= len
    decreases n - |p|, len - i
  {
    if |p| == n then [p]
    else if i == len then []
    else CombsFrom(len, n, p + [i], i + 1) + CombsFrom(len, n, p, i + 1)
  }

  /** What is still to come when the loop has reached p and next tries i */
  function CombRest(len: nat, n: nat, p: Tuple, i: nat): seq<Tuple>
    requires |p| <= n && i <= len && Below(len, p)
    decreases |p|
  {
    CombsFrom(len, n, p, i) + (if p == [] then [] else CombRest(len, n, p[..|p| - 1], p[|p| - 1] + 1))
  }

  /** Too few numbers are left to complete p. */
  lemma {:induction false} NoneLeft(len: nat, n: nat, p: Tuple, i: nat)
    requires |p| < n && i <= len && len - i < n - |p|
    ensures CombsFrom(len, n, p, i) == []
    decreases n - |p|, len - i
  {
    if i < len {
      NoneLeft(len, n, p, i + 1);
      if |p| + 1 < n { NoneLeft(len, n, p + [i], i + 1); }
    }
  }

  /** The loop goes into p + [i]. */
  lemma CombDescend(len: nat, n: nat, p: Tuple, i: nat)
    requires |p| < n && i < len && Below(len, p)
    ensures CombRest(len, n, p, i) == CombRest(len, n, p + [i], i + 1)
  {
    var q := p + [i];
    assert q[..|q| - 1] == p && q[|q| - 1] == i;
  }

  /** The loop yields p and goes back. */
  lemma Complete(len: nat, n: nat, p: Tuple, i: nat)
    requires 0 < n == |p| && i <= len && Below(len, p)
    ensures CombRest(len, n, p, i) == [p] + CombRest(len, n, p[..n - 1], p[n - 1] + 1)
  {
  }

  /** The loop goes back from p when too few numbers are left. */
  lemma CombAscend(len: nat, n: nat, p: Tuple, i: nat)
    requires |p| < n && i <= len && len - i < n - |p| && Below(len, p)
    ensures CombRest(len, n, p, i) == if p == [] then [] else CombRest(len, n, p[..|p| - 1], p[|p| - 1] + 1)
  {
    NoneLeft(len, n, p, i);
  }

  /** How far the loop has come: remaining values of the places, the first place weighing most */
  function Weight(len: nat, n: nat, p: Tuple, i: nat): nat
    requires |p| <= n && i <= len
    decreases n - |p|, len - i
  {
    if |p| == n || i == len then 0 else 1 + Weight(len, n, p + [i], i + 1) + Weight(len, n, p, i + 1)
  }

  function WeightRest(len: nat, n: nat, p: Tuple, i: nat): nat
    requires |p| <= n && i <= len && Below(len, p)
    decreases |p|
  {
    Weight(len, n, p, i) + (if p == [] then 0 else WeightRest(len, n, p[..|p| - 1], p[|p| - 1] + 1))
  }

  lemma WeightDescend(len: nat, n: nat, p: Tuple, i: nat)
    requires |p| < n && i < len && Below(len, p)
    ensures WeightRest(len, n, p, i) == 1 + WeightRest(len, n, p + [i], i + 1)
  {
    var q := p + [i];
    assert q[..|q| - 1] == p && q[|q| - 1] == i;
  }

  lemma WeightBack(len: nat, n: nat, p: Tuple, i: nat)
    requires 0 < |p| <= n && i <= len && Below(len, p)
    ensures WeightRest(len, n, p[..|p| - 1], p[|p| - 1] + 1) <= WeightRest(len, n, p, i)
  {
  }

  lemma CombBegin(len: nat, n: nat)
    ensures CombRest(len, n, [], 0) == CombsFrom(len, n, [], 0)
  {
  }

  /** Places 1..lev of the stack hold p, each at most as large as the places behind it allow. */
  ghost predicate At(stack: array<int>, lev: nat, p: Tuple, len: nat)
    reads stack
  {
    && lev < stack.Length <= len + 1 && |p| == lev
    && (forall k :: 0 <= k < lev ==> p[k] <= len - stack.Length + 1 + k)
    && (forall k :: 0 <= k < lev ==> stack[k + 1] == p[k])
  }

  /** The filling loop of combinate0: the remaining places take the smallest numbers. */
  method Fill(len: nat, n: nat, stack: array<int>, lev: nat, ghost p: Tuple) returns (ghost q: Tuple)
    requires 0 < n <= len && stack.Length == n + 1 && lev < n && At(stack, lev, p, len)
    requires 0 <= stack[lev + 1] <= len - n + lev
    modifies stack
    ensures At(stack, n, q, len) && CombRest(len, n, p, old(stack[lev + 1])) == CombRest(len, n, q, q[n - 1] + 1)
    ensures WeightRest(len, n, p, old(stack[lev + 1])) > WeightRest(len, n, q, q[n - 1] + 1)
  {
    hide CombsFrom, CombRest, Weight, WeightRest;
    q := p + [stack[lev + 1]];
    CombDescend(len, n, p, stack[lev + 1]);
    WeightDescend(len, n, p, stack[lev + 1]);
    var l := lev + 1;
    while l < n
      invariant lev < l <= n && At(stack, l, q, len)
      invariant CombRest(len, n, p, old(stack[lev + 1])) == CombRest(len, n, q, q[l - 1] + 1)
      invariant WeightRest(len, n, p, old(stack[lev + 1])) > WeightRest(len, n, q, q[l - 1] + 1)
    {
      CombDescend(len, n, q, q[l - 1] + 1);
      WeightDescend(len, n, q, q[l - 1] + 1);
      stack[l + 1] := stack[l] + 1;
      q := q + [q[l - 1] + 1];
      l := l + 1;
    }
  }

  /** The loop that goes back over exhausted places; from place 0 it leaves combinate0. */
  method GoBack(len: nat, n: nat, stack: array<int>, start: nat, ghost p0: Tuple)
    returns (lev: nat, done: bool, ghost p: Tuple)
    requires 0 < n <= len && stack.Length == n + 1 && 0 < start <= n && At(stack, start, p0, len)
    modifies stack
    ensures done ==> CombRest(len, n, p0[..start - 1], p0[start - 1] + 1) == []
    ensures !done ==> lev < n && At(stack, lev, p, len) && 0 <= stack[lev + 1] <= len - n + lev
    ensures !done ==> CombRest(len, n, p, stack[lev + 1]) == CombRest(len, n, p0[..start - 1], p0[start - 1] + 1)
    ensures !done ==> WeightRest(len, n, p, stack[lev + 1]) <= WeightRest(len, n, p0[..start - 1], p0[start - 1] + 1)
  {
    hide CombsFrom, CombRest, Weight, WeightRest;
    stack[start] := stack[start] + 1;
    lev, p := start - 1, p0[..start - 1];
    while stack[lev + 1] + n == len + lev + 1
      invariant lev < n && At(stack, lev, p, len) && 0 <= stack[lev + 1] <= len - n + lev + 1
      invariant CombRest(len, n, p, stack[lev + 1]) == CombRest(len, n, p0[..start - 1], p0[start - 1] + 1)
      invariant WeightRest(len, n, p, stack[lev + 1]) <= WeightRest(len, n, p0[..start - 1], p0[start - 1] + 1)
      decreases lev
    {
      CombAscend(len, n, p, stack[lev + 1]);
      if lev == 0 { return lev, true, p; }
      WeightBack(len, n, p, stack[lev + 1]);
      stack[lev] := stack[lev] + 1;
      lev, p := lev - 1, p[..lev - 1];
    }
    done := false;
  }

  /** combinate0 */
  method Combinate0(len: nat, n: nat) returns (out: seq<Tuple>)
    requires 0 < n <= len
    ensures out == CombsFrom(len, n, [], 0)
  {
    hide CombsFrom, CombRest, Weight, WeightRest;
    var stack := new int[n + 1](_ => 0);
    stack[0] := -1;
    var lev: nat := 0;
    out := [];
    ghost var p: Tuple := [];
    CombBegin(len, n);
    while true
      invariant lev < n && At(stack, lev, p, len) && 0 <= stack[lev + 1] <= len - n + lev
      invariant out + CombRest(len, n, p, stack[lev + 1]) == CombsFrom(len, n, [], 0)
      decreases WeightRest(len, n, p, stack[lev + 1])
    {
      ghost var q := Fill(len, n, stack, lev, p);
      Complete(len, n, q, q[n - 1] + 1);
      WeightBack(len, n, q, q[n - 1] + 1);
      assert stack[1..] == q;
      var t: Tuple := stack[1..];
      out := out + [t];
      var done;
      lev, done, p := GoBack(len, n, stack, n, q);
      if done { return; }
    }
  }

  /** Strictly increasing */
  predicate Ascending(q: Tuple) {
    forall j, k :: 0 <= j < k < |q| ==> q[j] < q[k]
  }

  /** An n-subset of 0..len, written in increasing order */
  predicate IsSubset(len: nat, n: nat, q: Tuple) {
    |q| == n && Below(len, q) && Ascending(q)
  }

  predicate GoesOn(len: nat, n: nat, p: Tuple, i: nat, q: Tuple) {
    |p| <= n && IsSubset(len, n, q) && q[..|p|] == p && (|p| < n ==> q[|p|] >= i)
  }

  /** The elements of p are below i. */
  predicate Bounded(p: Tuple, i: nat) {
    Ascending(p) && forall k :: 0 <= k < |p| ==> p[k] < i
  }

  lemma {:induction false} CombsSound(len: nat, n: nat, p: Tuple, i: nat, k: nat)
    requires |p| <= n && i <= len && Bounded(p, i) && k < |CombsFrom(len, n, p, i)|
    ensures GoesOn(len, n, p, i, CombsFrom(len, n, p, i)[k])
    decreases n - |p|, len - i
  {
    if |p| < n {
      var a := CombsFrom(len, n, p + [i], i + 1);
      if k < |a| {
        CombsSound(len, n, p + [i], i + 1, k);
        assert a[k][..|p|] == a[k][..|p| + 1][..|p|] == p && a[k][|p|] == a[k][..|p| + 1][|p|];
      } else {
        CombsSound(len, n, p, i + 1, k - |a|);
      }
    }
  }

  lemma {:induction false} CombsComplete(len: nat, n: nat, p: Tuple, i: nat, q: Tuple)
    requires i <= len && GoesOn(len, n, p, i, q)
    ensures q in CombsFrom(len, n, p, i)
    decreases n - |p|, len - i
  {
    if |p| == n {
      assert q == p;
    } else {
      var x := q[|p|];
      assert x < len;
      var a, b := CombsFrom(len, n, p + [i], i + 1), CombsFrom(len, n, p, i + 1);
      assert CombsFrom(len, n, p, i) == a + b;
      hide CombsFrom;
      if x == i {
        assert q[..|p| + 1] == p + [i];
        assert |p| + 1 < n ==> q[|p|] < q[|p| + 1];
        CombsComplete(len, n, p + [i], i + 1, q);
      } else {
        CombsComplete(len, n, p, i + 1, q);
      }
    }
  }

  lemma {:induction false} CombsIncreasing(len: nat, n: nat, p: Tuple, i: nat)
    requires |p| <= n && i <= len && Bounded(p, i)
    ensures Increasing(CombsFrom(len, n, p, i))
    decreases n - |p|, len - i
  {
    if |p| < n && i < len {
      var a, b := CombsFrom(len, n, p + [i], i + 1), CombsFrom(len, n, p, i + 1);
      CombsIncreasing(len, n, p + [i], i + 1);
      CombsIncreasing(len, n, p, i + 1);
      forall j, k | 0 <= j < |a| && 0 <= k < |b|
        ensures Less(a[j], b[k])
      {
        CombsSound(len, n, p + [i], i + 1, j);
        CombsSound(len, n, p, i + 1, k);
        assert a[j][..|p|] == a[j][..|p| + 1][..|p|] == p && a[j][|p|] == a[j][..|p| + 1][|p|];
        assert LessAt(a[j], b[k], |p|);
      }
      IncreasingJoin(a, b);
    }
  }

  /** Pascal's triangle */
  function Choose(m: nat, k: nat): nat {
    if k == 0 then 1 else if m == 0 then 0 else Choose(m - 1, k - 1) + Choose(m - 1, k)
  }

  lemma {:induction false} CombsCount(len: nat, n: nat, p: Tuple, i: nat)
    requires |p| <= n && i <= len
    ensures |CombsFrom(len, n, p, i)| == Choose(len - i, n - |p|)
    decreases n - |p|, len - i
  {
    if |p| < n && i < len {
      CombsCount(len, n, p + [i], i + 1);
      CombsCount(len, n, p, i + 1);
    }
  }

  /** The combinations that combinate0 yields are all the n-subsets of 0..len, each once, in
      increasing order, and there are as many as Pascal's triangle says. */
  lemma CombinationsExact(len: nat, n: nat)
    ensures forall q: Tuple :: q in CombsFrom(len, n, [], 0) <==> IsSubset(len, n, q)
    ensures Increasing(CombsFrom(len, n, [], 0))
    ensures |CombsFrom(len, n, [], 0)| == Choose(len, n)
  {
    forall q: Tuple
      ensures q in CombsFrom(len, n, [], 0) <==> IsSubset(len, n, q)
    {
      if k: nat :| k < |CombsFrom(len, n, [], 0)| && CombsFrom(len, n, [], 0)[k] == q { CombsSound(len, n, [], 0, k); }
      if IsSubset(len, n, q) { CombsComplete(len, n, [], 0, q); }
    }
    CombsIncreasing(len, n, [], 0);
    CombsCount(len, n, [], 0);
  }

  lemma {:induction false} FallingLast(n: int, k: nat)
    requires k > 0
    ensures Falling(n, k) == Falling(n, k - 1) * (n - k + 1)
    decreases k
  {
    if k > 1 {
      FallingLast(n - 1, k - 1);
      Regroup(n, Falling(n - 1, k - 2), n - k + 1);
    }
  }

  lemma FallingPascal(m: int, k: nat)
    requires k > 0
    ensures Falling(m, k) == Falling(m - 1, k) + k * Falling(m - 1, k - 1)
  {
    FallingLast(m - 1, k);
    Distribute(Falling(m - 1, k - 1), m, k);
  }

  lemma Distribute(x: int, m: int, k: int)
    ensures m * x == x * (m - 1 - k + 1) + k * x
  {
  }

  /** The quotient of the descending factorials is exact, and is the entry of Pascal's triangle. */
  lemma {:induction false} ChooseFalling(m: nat, k: nat)
    ensures Falling(m, k) == Choose(m, k) * Falling(k, k) && Falling(k, k) > 0
    decreases m + k
  {
    if k > 0 {
      if m == 0 {
        FallingZero(0, k);
        ChooseFalling(0, k - 1);
        Positive(k, Falling(k - 1, k - 1));
      } else {
        FallingPascal(m, k);
        ChooseFalling(m - 1, k - 1);
        ChooseFalling(m - 1, k);
        AddUp(Choose(m - 1, k - 1), Choose(m - 1, k), k, Falling(k - 1, k - 1));
      }
    }
  }

  lemma Positive(a: int, b: int)
    requires a > 0 && b > 0
    ensures a * b > 0
  {
  }

  lemma AddUp(a: int, b: int, k: int, f: int)
    ensures (a + b) * (k * f) == b * (k * f) + k * (a * f)
  {
  }

  lemma {:induction false} ChooseZero(m: nat, k: nat)
    requires k > m
    ensures Choose(m, k) == 0
    decreases m
  {
    if m > 0 {
      ChooseZero(m - 1, k - 1);
      ChooseZero(m - 1, k);
    }
  }

  lemma {:induction false} ChooseSame(m: nat)
    ensures Choose(m, m) == 1
  {
    if m > 0 {
      ChooseSame(m - 1);
      ChooseZero(m - 1, m);
    }
  }

  lemma {:induction false} ChooseSymmetric(m: nat, k: nat)
    requires k <= m
    ensures Choose(m, k) == Choose(m, m - k)
    decreases m
  {
    if k == 0 || k == m {
      ChooseSame(m);
    } else {
      ChooseSymmetric(m - 1, k - 1);
      ChooseSymmetric(m - 1, k);
    }
  }

  /** binomial_coefficient */
  method BinomialCoefficient(comb: int, size: nat) returns (c: int)
    ensures c == if comb < 0 then 0 else Choose(size, comb)
  {
    var k := comb;
    if k > size - k { k := size - k; }
    if k < 0 {
      if comb >= 0 { ChooseZero(size, comb); }
      return 0;
    }
    var r := DescendingFactorial(size, k);
    var v := DescendingFactorial(k, k);
    ChooseFalling(size, k);
    DivUnique(r, v, Choose(size, k), 0);
    if k != comb { ChooseSymmetric(size, comb); }
    return r / v;
  }

  /** rb_ary_combination on index tuples: combinate0 for two elements or more, and the easy cases */
  method Combination(len: nat, n: int) returns (out: seq<Tuple>)
    ensures |out| == if n < 0 then 0 else Choose(len, n)
    ensures n >= 0 ==> forall q: Tuple :: q in out <==> IsSubset(len, n, q)
    ensures Increasing(out)
  {
    hide Choose, IsSubset, Less;
    out := [];
    if n >= 0 { CombinationsExact(len, n); }
    if n < 0 || len < n {
      if n >= 0 { NoneLeft(len, n, [], 0); }
    } else if n == 0 {
      out := [[]];
      assert out == CombsFrom(len, 0, [], 0);
    } else if n == 1 {
      out := OneElement(len);
    } else {
      out := Combinate0(len, n);
    }
  }

  method OneElement(len: nat) returns (out: seq<Tuple>)
    ensures out == CombsFrom(len, 1, [], 0)
  {
    out := [];
    for i := 0 to len
      invariant out + CombsFrom(len, 1, [], i) == CombsFrom(len, 1, [], 0)
    {
      hide CombsFrom;
      NextElement(len, i);
      Regrouped(out, [[i]], CombsFrom(len, 1, [], i + 1));
      out := out + [[i]];
    }
    NoElement(len);
  }

  lemma NextElement(len: nat, i: nat)
    requires i < len
    ensures CombsFrom(len, 1, [], i) == [[i]] + CombsFrom(len, 1, [], i + 1)
  {
    assert [] + [i] == [i];
    assert CombsFrom(len, 1, [i], i + 1) == [[i]];
  }

  lemma NoElement(len: nat)
    ensures CombsFrom(len, 1, [], len) == []
  {
  }

  lemma Regrouped(a: seq<Tuple>, b: seq<Tuple>, c: seq<Tuple>)
    ensures a + (b + c) == a + b + c
  {
  }
}
