/** What the tuples of Permutations.Perms are: every permutation once, in increasing order, and
    as many as descending_factorial says. */
module PermutationLaws {
  import opened Permutations

  /** An r-permutation of 0..n */
  predicate IsPermutation(n: nat, r: nat, q: Tuple) {
    |q| == r && Below(n, q) && Distinct(q)
  }

  /** Lexicographic order: equal up to k, and smaller there */
  predicate LessAt(a: Tuple, b: Tuple, k: nat) {
    k < |a| && k < |b| && a[..k] == b[..k] && a[k] < b[k]
  }

  ghost predicate Less(a: Tuple, b: Tuple) {
    exists k: nat :: LessAt(a, b, k)
  }

  ghost predicate Increasing(out: seq<Tuple>) {
    forall i, j :: 0 <= i < j < |out| ==> Less(out[i], out[j])
  }

  /** Both parts increase and the first is below the second. */
  lemma IncreasingJoin(a: seq<Tuple>, b: seq<Tuple>)
    requires Increasing(a) && Increasing(b) && forall i, j :: 0 <= i < |a| && 0 <= j < |b| ==> Less(a[i], b[j])
    ensures Increasing(a + b)
  {
    hide Less;
    var c := a + b;
    forall i, j | 0 <= i < j < |c|
      ensures Less(c[i], c[j])
    {
      if j < |a| { assert c[i] == a[i] && c[j] == a[j]; }
      else if i < |a| { assert c[i] == a[i] && c[j] == b[j - |a|]; }
      else { assert c[i] == b[i - |a|] && c[j] == b[j - |a|]; }
    }
  }

  /** q is a permutation that goes on from p with an element x or more. */
  predicate Extends(n: nat, r: nat, p: Tuple, i: nat, q: Tuple) {
    |p| < r && IsPermutation(n, r, q) && q[..|p|] == p && q[|p|] >= i
  }

  lemma {:induction false} PermsSound(n: nat, r: nat, p: Tuple, k: nat)
    requires |p| <= r && Below(n, p) && Distinct(p) && k < |Perms(n, r, p)|
    ensures IsPermutation(n, r, Perms(n, r, p)[k]) && Perms(n, r, p)[k][..|p|] == p
    decreases r - |p|, n + 1
  {
    if |p| < r { PermsFromSound(n, r, p, 0, k); }
  }

  lemma {:induction false} PermsFromSound(n: nat, r: nat, p: Tuple, i: nat, k: nat)
    requires |p| < r && i <= n && Below(n, p) && Distinct(p) && k < |PermsFrom(n, r, p, i)|
    ensures Extends(n, r, p, i, PermsFrom(n, r, p, i)[k])
    decreases r - |p|, n - i
  {
    if i !in p && k < |Perms(n, r, p + [i])| {
      PermsSound(n, r, p + [i], k);
      var q := Perms(n, r, p + [i])[k];
      assert q[..|p|] == q[..|p| + 1][..|p|] == p && q[|p|] == q[..|p| + 1][|p|];
    } else {
      var skip := if i in p then 0 else |Perms(n, r, p + [i])|;
      PermsFromSound(n, r, p, i + 1, k - skip);
      assert PermsFrom(n, r, p, i)[k] == PermsFrom(n, r, p, i + 1)[k - skip];
    }
  }

  lemma {:induction false} PermsComplete(n: nat, r: nat, p: Tuple, q: Tuple)
    requires |p| <= r && IsPermutation(n, r, q) && q[..|p|] == p
    ensures q in Perms(n, r, p)
    decreases r - |p|, n + 1
  {
    if |p| < r { PermsFromComplete(n, r, p, 0, q); } else { assert q == p; }
  }

  lemma {:induction false} PermsFromComplete(n: nat, r: nat, p: Tuple, i: nat, q: Tuple)
    requires i <= n && Extends(n, r, p, i, q)
    ensures q in PermsFrom(n, r, p, i)
    decreases r - |p|, n - i
  {
    if q[|p|] == i {
      assert i !in p by { assert forall k :: 0 <= k < |p| ==> p[k] == q[k]; }
      assert q[..|p| + 1] == p + [i];
      PermsComplete(n, r, p + [i], q);
    } else {
      PermsFromComplete(n, r, p, i + 1, q);
    }
  }

  lemma {:induction false} PermsIncreasing(n: nat, r: nat, p: Tuple)
    requires |p| <= r && Below(n, p) && Distinct(p)
    ensures Increasing(Perms(n, r, p))
    decreases r - |p|, n + 1
  {
    if |p| < r { PermsFromIncreasing(n, r, p, 0); }
  }

  lemma {:induction false} PermsFromIncreasing(n: nat, r: nat, p: Tuple, i: nat)
    requires |p| < r && i <= n && Below(n, p) && Distinct(p)
    ensures Increasing(PermsFrom(n, r, p, i))
    decreases r - |p|, n - i
  {
    if i < n {
      PermsFromIncreasing(n, r, p, i + 1);
      if i !in p {
        PermsIncreasing(n, r, p + [i]);
        var a, b := Perms(n, r, p + [i]), PermsFrom(n, r, p, i + 1);
        forall j, k | 0 <= j < |a| && 0 <= k < |b|
          ensures Less(a[j], b[k])
        {
          PermsSound(n, r, p + [i], j);
          PermsFromSound(n, r, p, i + 1, k);
          assert a[j][..|p|] == a[j][..|p| + 1][..|p|] == p && a[j][|p|] == a[j][..|p| + 1][|p|];
          assert LessAt(a[j], b[k], |p|);
        }
        IncreasingJoin(a, b);
      }
    }
  }

  /** The product of n, n - 1, ..., n - k + 1 */
  function Falling(n: int, k: nat): int
    decreases k
  {
    if k == 0 then 1 else n * Falling(n - 1, k - 1)
  }

  /** descending_factorial, with its answer 0 to a negative number of factors */
  method DescendingFactorial(from: int, howMany: int) returns (cnt: int)
    ensures cnt == if howMany < 0 then 0 else Falling(from, howMany)
  {
    cnt := if howMany >= 0 then 1 else 0;
    var f, h := from, howMany;
    while h > 0
      invariant howMany >= 0 ==> h >= 0 && cnt * Falling(f, h) == Falling(from, howMany)
      invariant howMany < 0 ==> h == howMany && cnt == 0
      decreases h
    {
      Regroup(cnt, f, Falling(f - 1, h - 1));
      cnt := cnt * f;
      f, h := f - 1, h - 1;
    }
  }

  lemma Regroup(a: int, b: int, c: int)
    ensures a * b * c == a * (b * c)
  {
  }

  /** How many numbers from i on are not in p */
  function Free(n: nat, p: Tuple, i: nat): nat
    requires i <= n
    decreases n - i
  {
    if i == n then 0 else (if i in p then 0 else 1) + Free(n, p, i + 1)
  }

  lemma {:induction false} FreeWithout(n: nat, p: Tuple, x: nat, i: nat)
    requires i <= n && x < n && x !in p
    ensures Free(n, p + [x], i) == Free(n, p, i) - (if x >= i then 1 else 0)
    decreases n - i
  {
    if i < n { FreeWithout(n, p, x, i + 1); }
  }

  lemma {:induction false} FreeAll(n: nat, i: nat)
    requires i <= n
    ensures Free(n, [], i) == n - i
    decreases n - i
  {
    if i < n { FreeAll(n, i + 1); }
  }

  lemma {:induction false} FreeCount(n: nat, p: Tuple)
    requires Below(n, p) && Distinct(p)
    ensures Free(n, p, 0) == n - |p|
    decreases |p|
  {
    if p == [] {
      FreeAll(n, 0);
    } else {
      var p1, x := p[..|p| - 1], p[|p| - 1];
      FreeCount(n, p1);
      FreeWithout(n, p1, x, 0);
      assert p == p1 + [x];
    }
  }

  lemma {:induction false} PermsCount(n: nat, r: nat, p: Tuple)
    requires |p| <= r && Below(n, p) && Distinct(p)
    ensures |Perms(n, r, p)| == Falling(n - |p|, r - |p|)
    decreases r - |p|, n + 1
  {
    if |p| < r {
      PermsFromCount(n, r, p, 0);
      FreeCount(n, p);
    }
  }

  lemma {:induction false} PermsFromCount(n: nat, r: nat, p: Tuple, i: nat)
    requires |p| < r && i <= n && Below(n, p) && Distinct(p)
    ensures |PermsFrom(n, r, p, i)| == Free(n, p, i) * Falling(n - |p| - 1, r - |p| - 1)
    decreases r - |p|, n - i
  {
    if i < n {
      PermsFromCount(n, r, p, i + 1);
      var f := Falling(n - |p| - 1, r - |p| - 1);
      if i !in p {
        PermsCount(n, r, p + [i]);
        OneMore(Free(n, p, i + 1), f);
      }
    }
  }

  lemma OneMore(a: int, f: int)
    ensures (1 + a) * f == f + a * f
  {
  }

  /** The permutations that permute0 yields are all the r-permutations of 0..n, each once, in
      increasing order, and there are as many as descending_factorial says. */
  lemma PermutationsExact(n: nat, r: nat)
    requires r <= n
    ensures forall q: Tuple :: q in Perms(n, r, []) <==> IsPermutation(n, r, q)
    ensures Increasing(Perms(n, r, []))
    ensures |Perms(n, r, [])| == Falling(n, r)
  {
    forall q: Tuple
      ensures q in Perms(n, r, []) <==> IsPermutation(n, r, q)
    {
      if k: nat :| k < |Perms(n, r, [])| && Perms(n, r, [])[k] == q { PermsSound(n, r, [], k); }
      if IsPermutation(n, r, q) { PermsComplete(n, r, [], q); }
    }
    PermsIncreasing(n, r, []);
    PermsCount(n, r, []);
  }

  /** The special case of one place */
  method Singles(n: nat) returns (out: seq<Tuple>)
    ensures out == Perms(n, 1, [])
  {
    out := [];
    for i := 0 to n
      invariant out + PermsFrom(n, 1, [], i) == Perms(n, 1, [])
    {
      assert PermsFrom(n, 1, [], i) == Perms(n, 1, [] + [i]) + PermsFrom(n, 1, [], i + 1);
      assert [] + [i] == [i];
      out := out + [[i]];
    }
  }

  /** rb_ary_permutation on index tuples: permute0 for two places or more, and the easy cases */
  method Permutation(n: nat, r: int) returns (out: seq<Tuple>)
    ensures |out| == if r < 0 then 0 else Falling(n, r)
    ensures r >= 0 ==> forall q: Tuple :: q in out <==> IsPermutation(n, r, q)
    ensures Increasing(out)
  {
    hide Falling, IsPermutation, Less, PermsFrom;
    out := [];
    if r < 0 || n < r {
      if r >= 0 { TooMany(n, r); }
    } else {
      PermutationsExact(n, r);
      if r == 0 {
        out := [[]];
        assert out == Perms(n, r, []);
      } else if r == 1 {
        out := Singles(n);
      } else {
        out := Permute0(n, r);
      }
    }
  }

  lemma {:induction false} TooMany(n: nat, r: nat)
    requires n < r
    ensures Falling(n, r) == 0
    ensures forall q: Tuple :: !IsPermutation(n, r, q)
    decreases n
  {
    if n > 0 { FallingZero(n, r); }
    forall q: Tuple
      ensures !IsPermutation(n, r, q)
    {
      if IsPermutation(n, r, q) { FreeCount(n, q); }
    }
  }

  lemma {:induction false} FallingZero(n: nat, r: nat)
    requires n < r
    ensures Falling(n, r) == 0
    decreases n
  {
    if n > 0 { FallingZero(n - 1, r - 1); }
  }
}
