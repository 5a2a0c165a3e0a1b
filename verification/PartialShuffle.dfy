/** Array#sample of more than ten elements: the first places of a copy are filled by exchanges. */
module PartialShuffle {
  import opened Permutations
  import opened Sampling

  function Exchanged<T>(s: seq<T>, i: nat, j: nat): (t: seq<T>)
    requires i < |s| && j < |s|
    ensures |t| == |s|
  {
    s[i := s[j]][j := s[i]]
  }

  /** The numbers left to draw when i places are filled */
  predicate DrawnFrom(len: nat, i: nat, rnds: Tuple) {
    i + |rnds| <= len && forall k :: 0 <= k < |rnds| ==> rnds[k] < len - i - k
  }

  /** The list after the exchanges from place i on */
  function Exchanges<T>(s: seq<T>, i: nat, rnds: Tuple): (t: seq<T>)
    requires DrawnFrom(|s|, i, rnds)
    ensures |t| == |s|
    decreases |rnds|
  {
    if rnds == [] then s else Exchanges(Exchanged(s, i, i + rnds[0]), i + 1, rnds[1..])
  }

  /** All numbers below len, each once */
  predicate Arrangement(len: nat, t: Tuple) {
    |t| == len && Below(len, t) && Distinct(t) && forall x :: 0 <= x < len ==> x in t
  }

  function Indices(len: nat): (t: Tuple)
    ensures Arrangement(len, t)
  {
    var t := seq(len, i => i);
    InOrder(len, t);
    t
  }

  lemma InOrder(len: nat, t: Tuple)
    requires |t| == len && forall i :: 0 <= i < len ==> t[i] == i
    ensures Arrangement(len, t)
  {
    forall x | 0 <= x < len
      ensures x in t
    {
      assert t[x] == x;
    }
  }

  /** The indices of the elements that the random numbers choose */
  function Chosen(len: nat, rnds: Tuple): Tuple
    requires Drawn(len, rnds)
  {
    Exchanges(Indices(len), 0, rnds)[..|rnds|]
  }

  lemma ExchangedKeeps(len: nat, t: Tuple, i: nat, j: nat)
    requires Arrangement(len, t) && i < len && j < len
    ensures Arrangement(len, Exchanged(t, i, j))
  {
    var u := Exchanged(t, i, j);
    forall x | 0 <= x < len
      ensures x in u
    {
      assert x in t;
      var k :| 0 <= k < len && t[k] == x;
      assert u[if k == i then j else if k == j then i else k] == x;
    }
  }

  /** Places that are filled stay so, and the rest is arranged. */
  lemma {:induction false} ExchangesKeep(len: nat, t: Tuple, i: nat, rnds: Tuple)
    requires Arrangement(len, t) && DrawnFrom(len, i, rnds)
    ensures Arrangement(len, Exchanges(t, i, rnds)) && Exchanges(t, i, rnds)[..i] == t[..i]
    ensures rnds != [] ==> Exchanges(t, i, rnds)[i] == t[i + rnds[0]]
    decreases |rnds|
  {
    if rnds != [] {
      var u := Exchanged(t, i, i + rnds[0]);
      ExchangedKeeps(len, t, i, i + rnds[0]);
      ExchangesKeep(len, u, i + 1, rnds[1..]);
      var r := Exchanges(t, i, rnds);
      assert r[i] == r[..i + 1][i] == u[i];
      assert r[..i] == r[..i + 1][..i] == u[..i] == t[..i];
    }
  }

  /** Distinct indices in range are chosen. */
  lemma ChosenDistinct(len: nat, rnds: Tuple)
    requires Drawn(len, rnds)
    ensures |Chosen(len, rnds)| == |rnds| && Below(len, Chosen(len, rnds)) && Distinct(Chosen(len, rnds))
  {
    ExchangesKeep(len, Indices(len), 0, rnds);
  }

  lemma SameFirst(len: nat, t: Tuple, i: nat, a: Tuple, b: Tuple, n: nat)
    requires Arrangement(len, t) && DrawnFrom(len, i, a) && DrawnFrom(len, i, b) && a != [] && b != [] && i < n <= len
    requires Exchanges(t, i, a)[..n] == Exchanges(t, i, b)[..n]
    ensures a[0] == b[0]
  {
    ExchangesKeep(len, t, i, a);
    ExchangesKeep(len, t, i, b);
    hide Exchanges;
    assert Exchanges(t, i, a)[..n][i] == t[i + a[0]];
    assert Exchanges(t, i, b)[..n][i] == t[i + b[0]];
  }

  lemma {:induction false} ExchangesUnique(len: nat, t: Tuple, i: nat, a: Tuple, b: Tuple, n: nat)
    requires Arrangement(len, t) && DrawnFrom(len, i, a) && DrawnFrom(len, i, b) && n == i + |a| == i + |b|
    requires Exchanges(t, i, a)[..n] == Exchanges(t, i, b)[..n]
    ensures a == b
    decreases |a|
  {
    if a != [] {
      hide Arrangement, Exchanged;
      SameFirst(len, t, i, a, b, n);
      ExchangedKeeps(len, t, i, i + a[0]);
      ExchangesUnique(len, Exchanged(t, i, i + a[0]), i + 1, a[1..], b[1..], n);
      assert a == [a[0]] + a[1..] && b == [b[0]] + b[1..];
    }
  }

  /** Different random numbers choose different tuples. */
  lemma ChosenUnique(len: nat, a: Tuple, b: Tuple)
    requires Drawn(len, a) && Drawn(len, b) && |a| == |b| && Chosen(len, a) == Chosen(len, b)
    ensures a == b
  {
    ExchangesUnique(len, Indices(len), 0, a, b, |a|);
  }

  /** The place, not filled yet, of an index that has not been chosen */
  lemma FindPlace(len: nat, t: Tuple, idx: Tuple, i: nat) returns (j: nat)
    requires Arrangement(len, t) && Below(len, idx) && Distinct(idx) && i < |idx| <= len && t[..i] == idx[..i]
    ensures i <= j < len && t[j] == idx[i]
  {
    assert forall k :: 0 <= k < i ==> t[..i][k] == t[k] && idx[..i][k] == idx[k];
    assert idx[i] in t;
    j :| 0 <= j < len && t[j] == idx[i];
  }

  lemma {:induction false} ExchangesOnto(len: nat, t: Tuple, idx: Tuple, i: nat) returns (rnds: Tuple)
    requires Arrangement(len, t) && Below(len, idx) && Distinct(idx) && i <= |idx| <= len && t[..i] == idx[..i]
    ensures |rnds| == |idx| - i && DrawnFrom(len, i, rnds) && Exchanges(t, i, rnds)[..|idx|] == idx
    decreases |idx| - i
  {
    rnds := [];
    if i < |idx| {
      var j := FindPlace(len, t, idx, i);
      var u := Exchanged(t, i, j);
      ExchangedKeeps(len, t, i, j);
      assert u[..i + 1] == t[..i] + [t[j]] && idx[..i + 1] == idx[..i] + [idx[i]];
      var rest := ExchangesOnto(len, u, idx, i + 1);
      rnds := [j - i] + rest;
      assert rnds[1..] == rest;
    }
  }

  /** Every tuple of distinct indices is chosen by some random numbers in range. */
  lemma ChosenOnto(len: nat, idx: Tuple) returns (rnds: Tuple)
    requires Below(len, idx) && Distinct(idx)
    ensures |rnds| == |idx| && Drawn(len, rnds) && Chosen(len, rnds) == idx
  {
    AtMost(len, idx);
    rnds := ExchangesOnto(len, Indices(len), idx, 0);
  }

  /** The elements at the places t */
  function At<T>(s: seq<T>, t: Tuple): (r: seq<T>)
    requires Below(|s|, t)
    ensures |r| == |t|
  {
    seq(|t|, i requires 0 <= i < |t| => s[t[i]])
  }

  lemma {:induction false} ExchangesAt<T>(s: seq<T>, t: Tuple, i: nat, rnds: Tuple)
    requires Arrangement(|s|, t) && DrawnFrom(|s|, i, rnds)
    ensures Below(|s|, Exchanges(t, i, rnds)) && Exchanges(At(s, t), i, rnds) == At(s, Exchanges(t, i, rnds))
    decreases |rnds|
  {
    if rnds != [] {
      var j := i + rnds[0];
      ExchangedKeeps(|s|, t, i, j);
      assert Exchanged(At(s, t), i, j) == At(s, Exchanged(t, i, j));
      ExchangesAt(s, Exchanged(t, i, j), i + 1, rnds[1..]);
    }
  }

  /** The first places hold the elements at the chosen indices. */
  lemma ExchangesChoose<T>(s: seq<T>, rnds: Tuple)
    requires Drawn(|s|, rnds)
    ensures Below(|s|, Chosen(|s|, rnds)) && Exchanges(s, 0, rnds)[..|rnds|] == At(s, Chosen(|s|, rnds))
  {
    var t := Indices(|s|);
    assert At(s, t) == s;
    ExchangesAt(s, t, 0, rnds);
  }

  /** The exchanging loop of rb_ary_sample on the copy, cut to the number of elements asked for */
  method SampleMany<T>(copy: array<T>, rnds: Tuple) returns (result: seq<T>)
    requires Drawn(copy.Length, rnds)
    modifies copy
    ensures Below(copy.Length, Chosen(copy.Length, rnds)) && result == At(old(copy[..]), Chosen(copy.Length, rnds))
  {
    ghost var s := copy[..];
    var i := 0;
    assert rnds[0..] == rnds;
    while i < |rnds|
      invariant i <= |rnds| && DrawnFrom(copy.Length, i, rnds[i..])
      invariant Exchanges(copy[..], i, rnds[i..]) == Exchanges(s, 0, rnds)
    {
      ghost var before, rest := copy[..], rnds[i..];
      var j := rnds[i] + i;
      copy[i], copy[j] := copy[j], copy[i];
      assert copy[..] == Exchanged(before, i, j);
      assert rest[1..] == rnds[i + 1..];
      i := i + 1;
    }
    ExchangesChoose(s, rnds);
    result := copy[..i];
  }
}
