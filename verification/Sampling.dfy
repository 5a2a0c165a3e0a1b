/** Array#sample: the choice of distinct indices from independent random numbers. */
module Sampling {
  import opened Permutations

  function Numbers(v: nat): set<nat> {
    Skipped([], v)
  }

  function Elements(q: Tuple): set<nat> {
    set x | x in q
  }

  /** The numbers below v that q has not used yet */
  function Skipped(q: Tuple, v: nat): set<nat> {
    set x: nat | x < v && x !in q
  }

  /** The tuple of indices that the random numbers choose: each random number says how many unused
      numbers to skip. */
  predicate IsSample(len: nat, rnds: Tuple, idx: Tuple) {
    && |idx| == |rnds| && Below(len, idx) && Distinct(idx)
    && forall i :: 0 <= i < |idx| ==> |Skipped(idx[..i], idx[i])| == rnds[i]
  }

  /** Random numbers as they are drawn: number i is below len - i. */
  predicate Drawn(len: nat, rnds: Tuple) {
    |rnds| <= len && forall i :: 0 <= i < |rnds| ==> rnds[i] < len - i
  }

  lemma {:induction false} NumbersSize(v: nat)
    ensures |Numbers(v)| == v
  {
    if v > 0 {
      NumbersSize(v - 1);
      assert Numbers(v) == Numbers(v - 1) + {v - 1};
    }
  }

  lemma {:induction false} ElementsSize(q: Tuple)
    requires Distinct(q)
    ensures |Elements(q)| == |q|
  {
    if q != [] {
      var q1, x := q[..|q| - 1], q[|q| - 1];
      ElementsSize(q1);
      assert q == q1 + [x];
      assert Elements(q) == Elements(q1) + {x};
      assert x !in q1;
    }
  }

  /** The used numbers below v and the unused ones make up v. */
  lemma SkippedSize(q: Tuple, v: nat, below: set<nat>)
    requires below == set x | x in q && x < v
    ensures |Skipped(q, v)| == v - |below|
  {
    assert Numbers(v) == Skipped(q, v) + below;
    assert Skipped(q, v) !! below;
    NumbersSize(v);
  }

  /** Larger unused numbers skip more. */
  lemma SkippedMore(q: Tuple, v: nat, w: nat)
    requires v < w && v !in q
    ensures |Skipped(q, v)| < |Skipped(q, w)|
  {
    var more := Skipped(q, w) - (Skipped(q, v) + {v});
    assert Skipped(q, w) == Skipped(q, v) + {v} + more;
    assert |Skipped(q, w)| == |Skipped(q, v)| + 1 + |more|;
  }

  /** The numbers a tuple stands for are in the range of drawn numbers. */
  lemma SampleDrawn(len: nat, rnds: Tuple, idx: Tuple)
    requires IsSample(len, rnds, idx)
    ensures Drawn(len, rnds)
  {
    ElementsSize(idx);
    AtMost(len, idx);
    forall i | 0 <= i < |rnds|
      ensures rnds[i] < len - i
    {
      var q, v := idx[..i], idx[i];
      SkippedMore(q, v, len);
      ElementsSize(q);
      SkippedSize(q, len, Elements(q));
    }
  }

  lemma AtMost(len: nat, q: Tuple)
    requires Below(len, q) && Distinct(q)
    ensures |q| <= len
  {
    ElementsSize(q);
    SkippedSize(q, len, Elements(q));
  }

  /** Different tuples stand for different random numbers: the choice is one to one. */
  lemma {:induction false} SampleUnique(len: nat, rnds: Tuple, a: Tuple, b: Tuple, n: nat)
    requires IsSample(len, rnds, a) && IsSample(len, rnds, b) && n <= |rnds|
    ensures a[..n] == b[..n]
  {
    if n > 0 {
      SampleUnique(len, rnds, a, b, n - 1);
      var q, v, w := a[..n - 1], a[n - 1], b[n - 1];
      if v < w { SkippedMore(q, v, w); } else if w < v { SkippedMore(q, w, v); }
      assert a[..n] == q + [v] && b[..n] == q + [w];
    }
  }

  /** Every tuple of distinct indices is chosen by some random numbers. */
  lemma SampleOnto(len: nat, idx: Tuple) returns (rnds: Tuple)
    requires Below(len, idx) && Distinct(idx)
    ensures IsSample(len, rnds, idx) && Drawn(len, rnds)
  {
    rnds := seq(|idx|, i requires 0 <= i < |idx| => |Skipped(idx[..i], idx[i])|);
    SampleDrawn(len, rnds, idx);
  }

  predicate Sorted(s: Tuple) {
    forall i, j :: 0 <= i < j < |s| ==> s[i] < s[j]
  }

  /** The number that takes place j of the used numbers in order, with k to skip */
  lemma Insertion(s: Tuple, q: Tuple, j: nat, k: nat)
    requires Sorted(s) && Elements(s) == Elements(q) && j <= |s| && j <= k
    requires (forall m :: 0 <= m < j ==> s[m] < k) && (forall m :: j <= m < |s| ==> k < s[m])
    ensures k !in q && |Skipped(q, k)| == k - j
    ensures Sorted(s[..j] + [k] + s[j..]) && Elements(s[..j] + [k] + s[j..]) == Elements(q + [k])
  {
    InsertedSkips(s, q, j, k);
    InsertedElements(s, q, j, k);
  }

  lemma InsertedSkips(s: Tuple, q: Tuple, j: nat, k: nat)
    requires Sorted(s) && Elements(s) == Elements(q) && j <= |s| && j <= k
    requires (forall m :: 0 <= m < j ==> s[m] < k) && (forall m :: j <= m < |s| ==> k < s[m])
    ensures k !in q && |Skipped(q, k)| == k - j
  {
    var below := set x | x in q && x < k;
    forall x
      ensures x in below <==> x in s[..j]
    {
      assert x in Elements(s) <==> x in Elements(q);
    }
    assert below == Elements(s[..j]);
    ElementsSize(s[..j]);
    SkippedSize(q, k, below);
    assert k !in Elements(s);
  }

  lemma InsertedElements(s: Tuple, q: Tuple, j: nat, k: nat)
    requires Elements(s) == Elements(q) && j <= |s|
    ensures Elements(s[..j] + [k] + s[j..]) == Elements(q + [k])
  {
    var t := s[..j] + [k] + s[j..];
    assert s == s[..j] + s[j..];
    forall x
      ensures x in t <==> x in q || x == k
    {
      assert x in Elements(s) <==> x in Elements(q);
    }
  }

  /** The sorted-insertion loop of rb_ary_sample */
  method SampleIndices(len: nat, rnds: Tuple) returns (idx: Tuple)
    requires Drawn(len, rnds) && rnds != []
    ensures IsSample(len, rnds, idx)
  {
    hide Sorted, Elements, Skipped, Distinct, SampleSoFar;
    var n := |rnds|;
    var sorted := new nat[n](_ => 0);
    sorted[0] := rnds[0];
    idx := [rnds[0]];
    assert sorted[..1] == [rnds[0]];
    FirstIndex(len, rnds);
    var i := 1;
    while i < n
      invariant 1 <= i <= n && |idx| == i && SampleSoFar(len, rnds, idx)
      invariant Sorted(sorted[..i]) && Elements(sorted[..i]) == Elements(idx)
    {
      var k := NextIndex(len, rnds, sorted, idx);
      idx := idx + [k];
      i := i + 1;
    }
    AllSampled(len, rnds, idx);
  }

  lemma FirstIndex(len: nat, rnds: Tuple)
    requires Drawn(len, rnds) && rnds != []
    ensures SampleSoFar(len, rnds, [rnds[0]]) && Sorted([rnds[0]])
  {
    SkippedSize([], rnds[0], {});
    Extended(len, rnds, [], rnds[0]);
    assert [] + [rnds[0]] == [rnds[0]];
  }

  lemma AllSampled(len: nat, rnds: Tuple, idx: Tuple)
    requires SampleSoFar(len, rnds, idx) && |idx| == |rnds|
    ensures IsSample(len, rnds, idx)
  {
  }

  /** One turn of the loop: the next index, which is also put in its place among the sorted ones */
  method NextIndex(len: nat, rnds: Tuple, sorted: array<nat>, idx: Tuple) returns (k: nat)
    requires Drawn(len, rnds) && sorted.Length == |rnds| && 1 <= |idx| < |rnds| && SampleSoFar(len, rnds, idx)
    requires Sorted(sorted[..|idx|]) && Elements(sorted[..|idx|]) == Elements(idx)
    modifies sorted
    ensures SampleSoFar(len, rnds, idx + [k])
    ensures Sorted(sorted[..|idx| + 1]) && Elements(sorted[..|idx| + 1]) == Elements(idx + [k])
  {
    hide Sorted, Elements, Skipped, Distinct, SampleSoFar;
    var i := |idx|;
    var j;
    j, k := Place(sorted, i, rnds[i]);
    ghost var s := sorted[..i];
    Insertion(s, idx, j, k);
    Shift(sorted, i, j, k);
    assert sorted[..i + 1] == s[..j] + [k] + s[j..];
    Extended(len, rnds, idx, k);
  }

  /** The tuple so far is the sample of the first numbers. */
  predicate SampleSoFar(len: nat, rnds: Tuple, idx: Tuple) {
    && |idx| <= |rnds| && Below(len, idx) && Distinct(idx)
    && forall i :: 0 <= i < |idx| ==> |Skipped(idx[..i], idx[i])| == rnds[i]
  }

  lemma Extended(len: nat, rnds: Tuple, idx: Tuple, k: nat)
    requires SampleSoFar(len, rnds, idx) && |idx| < |rnds| && k < len && k !in idx && |Skipped(idx, k)| == rnds[|idx|]
    ensures SampleSoFar(len, rnds, idx + [k])
  {
    var t := idx + [k];
    forall i | 0 <= i < |t|
      ensures |Skipped(t[..i], t[i])| == rnds[i]
    {
      if i < |idx| { assert t[..i] == idx[..i] && t[i] == idx[i]; } else { assert t[..i] == idx; }
    }
  }

  /** The inner loop: the place of the next index among the sorted ones, and the index */
  method Place(sorted: array<nat>, i: nat, r: nat) returns (j: nat, k: nat)
    requires i <= sorted.Length && Sorted(sorted[..i])
    ensures j <= i && k == r + j
    ensures (forall m :: 0 <= m < j ==> sorted[m] < k) && (forall m :: j <= m < i ==> k < sorted[m])
  {
    k, j := r, 0;
    while j < i && k >= sorted[j]
      invariant 0 <= j <= i && k == r + j && forall m :: 0 <= m < j ==> sorted[m] < k
    {
      k, j := k + 1, j + 1;
    }
    ghost var s := sorted[..i];
    assert forall m :: j < m < i ==> s[j] < s[m];
  }

  /** memmove of the numbers from place j on, and k at place j */
  method Shift(sorted: array<nat>, i: nat, j: nat, k: nat)
    requires j <= i < sorted.Length
    modifies sorted
    ensures sorted[..i + 1] == old(sorted[..j]) + [k] + old(sorted[j..i])
  {
    var m := i;
    while m > j
      invariant j <= m <= i
      invariant sorted[..m] == old(sorted[..m]) && sorted[m + 1..i + 1] == old(sorted[m..i])
    {
      sorted[m] := sorted[m - 1];
      m := m - 1;
    }
    sorted[j] := k;
  }

  /** The special code for two indices */
  method SampleTwo(len: nat, rnds: Tuple) returns (idx: Tuple)
    requires Drawn(len, rnds) && |rnds| == 2
    ensures IsSample(len, rnds, idx)
  {
    var i, j := rnds[0], rnds[1];
    if j >= i { j := j + 1; }
    idx := [i, j];
    TwoSkipped(i, j);
  }

  lemma TwoSkipped(i: nat, j: nat)
    ensures |Skipped([i, j][..0], i)| == i
    ensures |Skipped([i, j][..1], j)| == if i < j then j - 1 else j
  {
    SkippedSize([i, j][..0], i, {});
    assert [i, j][..1] == [i];
    SkippedSize([i], j, if i < j then {i} else {});
  }

  /** The special code for three indices */
  method SampleThree(len: nat, rnds: Tuple) returns (idx: Tuple)
    requires Drawn(len, rnds) && |rnds| == 3
    ensures IsSample(len, rnds, idx)
  {
    var i, j, k := rnds[0], rnds[1], rnds[2];
    var l, g := j, i;
    if j >= i {
      j := j + 1;
      l, g := i, j;
    }
    if k >= l {
      k := k + 1;
      if k >= g { k := k + 1; }
    }
    idx := [i, j, k];
    ThreeSkipped(i, j, k);
  }

  lemma ThreeSkipped(i: nat, j: nat, k: nat)
    requires i != j
    ensures |Skipped([i, j, k][..0], i)| == i
    ensures |Skipped([i, j, k][..1], j)| == if i < j then j - 1 else j
    ensures |Skipped([i, j, k][..2], k)| == k - (if i < k then 1 else 0) - (if j < k then 1 else 0)
  {
    SkippedSize([i, j, k][..0], i, {});
    assert [i, j, k][..1] == [i];
    SkippedSize([i], j, if i < j then {i} else {});
    assert [i, j, k][..2] == [i, j];
    var below := (if i < k then {i} else {}) + (if j < k then {j} else {});
    SkippedSize([i, j], k, below);
  }
}
