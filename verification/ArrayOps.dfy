/** The public operations of array.c, each with its meaning on plain sequences. */
module ArrayOps {
  import opened Options
  import opened ArrayState
  import opened ArrayHeap

  /** What a Ruby program knows of an array */
  datatype Seen = Seen(elems: seq<Value>, frozen: bool)

  datatype Error = FrozenError | IndexError | ArgumentError

  /** What an operation answers: the receiver, an element, a new array, nil, or an exception */
  datatype Answer = Self | Element(v: Value) | Fresh(id: nat) | NilAnswer | Raise(e: Error)

  /** All the arrays of a state as a Ruby program knows them */
  function Abs(s: State): map<nat, Seen>
    requires Inv(s)
  {
    map a | a in s.objs && s.objs[a].visible :: Seen(View(s, a), s.objs[a].frozen)
  }

  lemma BecomesAbs(s: State, s': State, a: nat, v: seq<Value>)
    requires Becomes(s, s', a, v)
    ensures a in Abs(s) && Abs(s') == Abs(s)[a := Seen(v, Abs(s)[a].frozen)]
  {
    var m := Abs(s)[a := Seen(v, Abs(s)[a].frozen)];
    forall b
      ensures b in Abs(s') <==> b in m
    {
      assert Visible(s, b) <==> b in Abs(s);
      assert Visible(s', b) <==> b in Abs(s');
    }
    forall b | b in m
      ensures Abs(s')[b] == m[b]
    {
      assert Visible(s, b) && Visible(s', b);
      assert View(s', b) == m[b].elems;
    }
  }

  lemma CreatesAbs(s: State, s': State, r: nat, v: seq<Value>)
    requires Creates(s, s', r, v)
    ensures r !in Abs(s) && Abs(s') == Abs(s)[r := Seen(v, false)]
  {
    var m := Abs(s)[r := Seen(v, false)];
    forall b
      ensures b in Abs(s') <==> b in m
    {
      assert Visible(s, b) <==> b in Abs(s);
      assert Visible(s', b) <==> b in Abs(s');
    }
    forall b | b in m
      ensures Abs(s')[b] == m[b]
    {
      assert Visible(s', b);
      assert View(s', b) == m[b].elems;
    }
  }

  /** rb_ary_cat, of which rb_ary_push is the case of one element */
  method Cat(h: Heap, a: nat, vals: seq<Value>) returns (ans: Answer)
    requires Inv(h.s) && Visible(h.s, a)
    modifies h
    ensures ans == if old(h.s.objs[a].frozen) then Raise(FrozenError) else Self
    ensures Becomes(old(h.s), h.s, a, if ans.Self? then old(View(h.s, a)) + vals else old(View(h.s, a)))
  {
    ghost var s0 := h.s;
    Stays(h.s, a);
    if h.s.objs[a].frozen { return Raise(FrozenError); }
    NotRoot(h.s, a);
    var idx := h.Length(a);
    h.EnsureRoomForPush(a, |vals|);
    ghost var s1 := h.s;
    h.Poke(a, idx, vals);
    ghost var s2 := h.s;
    h.SetLen(a, idx + |vals|);
    Then(s0, s1, s2, a, View(s1, a), View(s2, a));
    Then(s0, s2, h.s, a, View(s2, a), View(h.s, a));
    assert View(h.s, a) == View(s0, a) + vals;
    return Self;
  }

  /** rb_ary_pop */
  method Pop(h: Heap, a: nat) returns (ans: Answer)
    requires Inv(h.s) && Visible(h.s, a)
    modifies h
    ensures var w := old(View(h.s, a));
            && ans == (if old(h.s.objs[a].frozen) then Raise(FrozenError)
                       else if w == [] then NilAnswer else Element(w[|w| - 1]))
            && Becomes(old(h.s), h.s, a, if ans.Element? then w[..|w| - 1] else w)
  {
    ghost var s0 := h.s;
    Stays(h.s, a);
    if h.s.objs[a].frozen { return Raise(FrozenError); }
    NotRoot(h.s, a);
    var n := h.Length(a);
    if n == 0 { return NilAnswer; }
    if h.s.objs[a].rep.Own? {
      var capa := h.Capa(a);
      if n * 3 < capa && capa > DEFAULT_SIZE {
        h.ResizeCapa(a, n * 2);
        ViewLen(s0, h.s, a);
      }
    }
    ghost var s1 := h.s;
    n := n - 1;
    h.SetLen(a, n);
    Then(s0, s1, h.s, a, View(s1, a), View(h.s, a));
    assert ObjOk(h.s, a);
    return Element(Tail(h.s, a)[n]);
  }

  /** ary_take_first_or_last, first half: the number of elements to take */
  function TakeCount(n: int, len: nat): (k: int)
    ensures n >= 0 ==> 0 <= k <= len && k <= n && (k == n || k == len)
  {
    if n > len then len else n
  }

  /** rb_ary_pop_m with an argument */
  method PopM(h: Heap, a: nat, n: int) returns (ans: Answer)
    requires Inv(h.s) && Visible(h.s, a)
    modifies h
    ensures var w := old(View(h.s, a));
            if old(h.s.objs[a].frozen) then ans == Raise(FrozenError) && h.s == old(h.s)
            else if n < 0 then ans == Raise(ArgumentError) && h.s == old(h.s)
            else
              var k := |w| - TakeCount(n, |w|);
              ans.Fresh? && Takes(old(h.s), h.s, a, w[..k], ans.id, w[k..])
  {
    ghost var s0 := h.s;
    ghost var w := View(h.s, a);
    if h.s.objs[a].frozen { return Raise(FrozenError); }
    var len := h.Length(a);
    assert |w| == len;
    var k := TakeCount(n, len);
    if k < 0 { return Raise(ArgumentError); }
    assert w[len - k..len] == w[len - k..];
    var r := h.MakePartial(a, len - k, k);
    ghost var s1 := h.s;
    StillThere(s0, s1, a, r);
    h.SetLen(a, len - k);
    assert View(h.s, a) == w[..len - k];
    return Fresh(r);
  }

  /** The size of the buffer that array a lies in */
  function Storage(s: State, a: nat): nat
    requires Inv(s) && a in s.objs
  {
    if s.objs[a].rep.Win? then |RootBuf(s, a)| else |Tail(s, a)|
  }

  /** ARY_INCREASE_PTR and ARY_INCREASE_LEN: the window of a lets go of its first n elements. */
  method Advance(h: Heap, a: nat, n: nat)
    requires Inv(h.s) && Visible(h.s, a) && h.s.objs[a].rep.Win? && n <= Len(h.s, a)
    modifies h
    ensures Becomes(old(h.s), h.s, a, old(View(h.s, a))[n..])
    ensures h.s.objs[a].rep.Win? && Writable(h.s, a) == old(Writable(h.s, a)) && Storage(h.s, a) == old(Storage(h.s, a))
  {
    assert ObjOk(h.s, a);
    var off, len := h.s.objs[a].rep.off, h.s.objs[a].rep.wlen;
    assert RootBuf(h.s, a)[off + n..off + len] == View(h.s, a)[n..];
    h.MoveWindow(a, off + n, len - n);
  }

  /** MEMMOVE of the elements of a to its front by n places, and ARY_INCREASE_LEN */
  method SlideDown(h: Heap, a: nat, n: nat)
    requires Inv(h.s) && Visible(h.s, a) && !h.s.objs[a].rep.Win? && Writable(h.s, a) && n <= Len(h.s, a)
    modifies h
    ensures Becomes(old(h.s), h.s, a, old(View(h.s, a))[n..])
  {
    ghost var s0 := h.s;
    var len := h.Length(a);
    h.Poke(a, 0, Tail(h.s, a)[n..len]);
    ghost var s1 := h.s;
    h.SetLen(a, len - n);
    Then(s0, s1, h.s, a, View(s1, a), View(h.s, a));
    assert View(h.s, a) == View(s0, a)[n..];
  }

  /** ary_mem_clear of the first n elements when the root of window a is occupied */
  method ForgetFirst(h: Heap, a: nat, n: nat)
    requires Inv(h.s) && Visible(h.s, a) && h.s.objs[a].rep.Win? && n <= Len(h.s, a)
    modifies h
    ensures h.s.objs == old(h.s.objs)
    ensures Inv(h.s) && OnlyChanges(old(h.s), h.s, a) && View(h.s, a)[n..] == old(View(h.s, a))[n..]
    ensures Writable(h.s, a) == old(Writable(h.s, a)) && Storage(h.s, a) == old(Storage(h.s, a))
  {
    assert ObjOk(h.s, a);
    if h.s.objs[h.s.objs[a].rep.root].rep.num == 1 {
      assert |RootBuf(h.s, a)| == h.s.objs[a].rep.off + |Tail(h.s, a)|;
      h.Poke(a, 0, seq(n, _ => Nil));
      assert ObjOk(h.s, a);
      assert |RootBuf(h.s, a)| == h.s.objs[a].rep.off + |Tail(h.s, a)|;
    }
  }

  /** rb_ary_shift */
  method Shift(h: Heap, a: nat) returns (ans: Answer)
    requires Inv(h.s) && Visible(h.s, a)
    modifies h
    ensures var w := old(View(h.s, a));
            && ans == (if old(h.s.objs[a].frozen) then Raise(FrozenError)
                       else if w == [] then NilAnswer else Element(w[0]))
            && Becomes(old(h.s), h.s, a, if ans.Element? then w[1..] else w)
    ensures ans.Element? && old(Writable(h.s, a) && (h.s.objs[a].rep.Win? || Len(h.s, a) >= DEFAULT_SIZE)) ==>
              h.s.objs[a].rep.Win? && Writable(h.s, a) && Storage(h.s, a) == old(Storage(h.s, a))
  {
    ghost var s0 := h.s;
    Stays(h.s, a);
    var len := h.Length(a);
    if h.s.objs[a].frozen { return Raise(FrozenError); }
    NotRoot(h.s, a);
    if len == 0 { return NilAnswer; }
    var top := Tail(h.s, a)[0];
    if !h.s.objs[a].rep.Win? {
      if len < DEFAULT_SIZE {
        SlideDown(h, a, 1);
        return Element(top);
      }
      assert ObjOk(h.s, a);
      h.Poke(a, 0, [Nil]);
      ghost var s1 := h.s;
      var r := h.MakeShared(a);
      Then(s0, s1, h.s, a, View(s1, a), View(h.s, a));
    } else {
      ForgetFirst(h, a, 1);
    }
    ghost var s2 := h.s;
    ViewRest(s0, s2, a);
    Advance(h, a, 1);
    Then(s0, s2, h.s, a, View(s2, a), View(h.s, a));
    return Element(top);
  }

  lemma ViewRest(s: State, s': State, a: nat)
    requires Inv(s) && Inv(s') && Visible(s, a) && Visible(s', a) && View(s, a) != []
    requires |View(s', a)| == |View(s, a)| && forall i :: 1 <= i < |View(s, a)| ==> View(s', a)[i] == View(s, a)[i]
    ensures View(s', a)[1..] == View(s, a)[1..]
  {
  }

  /** rb_ary_shift_m with an argument */
  method ShiftM(h: Heap, a: nat, n: int) returns (ans: Answer)
    requires Inv(h.s) && Visible(h.s, a)
    modifies h
    ensures var w := old(View(h.s, a));
            if old(h.s.objs[a].frozen) then ans == Raise(FrozenError) && h.s == old(h.s)
            else if n < 0 then ans == Raise(ArgumentError) && h.s == old(h.s)
            else ans.Fresh? && Takes(old(h.s), h.s, a, w[TakeCount(n, |w|)..], ans.id, w[..TakeCount(n, |w|)])
  {
    ghost var s0 := h.s;
    ghost var w := View(h.s, a);
    if h.s.objs[a].frozen { return Raise(FrozenError); }
    var len := h.Length(a);
    var k := TakeCount(n, len);
    if k < 0 { return Raise(ArgumentError); }
    var r := h.MakePartial(a, 0, k);
    ghost var s1 := h.s;
    StillThere(s0, s1, a, r);
    assert w[0..k] == w[..k];
    if h.s.objs[a].rep.Win? {
      ForgetFirst(h, a, k);
      ghost var s2 := h.s;
      Advance(h, a, k);
      Then(s1, s2, h.s, a, View(s2, a), w[k..]);
    } else {
      SlideDown(h, a, k);
    }
    return Fresh(r);
  }

  /** Window a is the only user of a root with more room than n further elements need.  Only
      then does ary_ensure_room_for_unshift go ahead without rb_ary_modify_check. */
  predicate Unchecked(s: State, a: nat, n: nat)
    requires Inv(s) && a in s.objs
  {
    s.objs[a].rep.Win? && Writable(s, a) && |RootBuf(s, a)| > Len(s, a) + n
  }

  /** The elements of a stand n places behind its pointer, and the room before them may be written. */
  ghost predicate RoomBefore(s: State, a: nat, n: nat, elems: seq<Value>) {
    && Inv(s) && Visible(s, a) && Writable(s, a) && Len(s, a) == |elems|
    && n + |elems| <= |Tail(s, a)| && Tail(s, a)[n..n + |elems|] == elems
  }

  /** The makeroom part of ary_ensure_room_for_unshift: the elements move towards the end of the
      root's buffer, leaving room in front of the new ones as well. */
  method MakeRoom(h: Heap, a: nat, n: nat)
    requires Inv(h.s) && Visible(h.s, a) && h.s.objs[a].rep.Win? && Writable(h.s, a)
    requires Len(h.s, a) + n <= |RootBuf(h.s, a)|
    modifies h
    ensures RoomBefore(h.s, a, n, old(View(h.s, a))) && Becomes(old(h.s), h.s, a, View(h.s, a))
  {
    ghost var s0 := h.s;
    var elems := View(h.s, a);
    var room := |RootBuf(h.s, a)| - (|elems| + n);
    room := room - room / 16;
    h.MoveWindow(a, room, |elems|);
    ghost var s1 := h.s;
    h.Poke(a, n, elems);
    Then(s0, s1, h.s, a, View(s1, a), View(h.s, a));
  }

  /** The pointer of window a moves back by n places. */
  method StepBack(h: Heap, a: nat, n: nat)
    requires Inv(h.s) && Visible(h.s, a) && h.s.objs[a].rep.Win? && Writable(h.s, a) && n <= h.s.objs[a].rep.off
    modifies h
    ensures RoomBefore(h.s, a, n, old(View(h.s, a))) && Becomes(old(h.s), h.s, a, View(h.s, a))
  {
    assert ObjOk(h.s, a);
    var off, len := h.s.objs[a].rep.off, h.s.objs[a].rep.wlen;
    h.MoveWindow(a, off - n, len);
  }

  /** ary_ensure_room_for_unshift on an array that is unfrozen or escapes the check */
  method EnsureRoomForUnshift(h: Heap, a: nat, n: nat)
    requires Inv(h.s) && Visible(h.s, a) && !h.s.objs[a].rep.Root? && (h.s.objs[a].frozen ==> Unchecked(h.s, a, n))
    modifies h
    ensures RoomBefore(h.s, a, n, old(View(h.s, a))) && Becomes(old(h.s), h.s, a, View(h.s, a))
  {
    ghost var s0 := h.s;
    var len := h.Length(a);
    var newLen := len + n;
    if h.s.objs[a].rep.Win? {
      assert ObjOk(h.s, a);
      var r, off := h.s.objs[a].rep.root, h.s.objs[a].rep.off;
      if h.s.objs[r].rep.num == 1 && |h.s.bufs[h.s.objs[r].rep.rbuf]| > newLen {
        if off < n {
          MakeRoom(h, a, n);
        } else {
          StepBack(h, a, n);
        }
        return;
      }
    }
    h.Modify(a);
    ViewLen(s0, h.s, a);
    ghost var s1 := h.s;
    var capa := h.Capa(a);
    if capa - capa / 64 <= newLen {
      h.DoubleCapa(a, newLen);
      Then(s0, s1, h.s, a, View(s0, a), View(s0, a));
      ViewLen(s0, h.s, a);
    }
    if newLen > DEFAULT_SIZE * 4 {
      Rehoused(h, a, n, s0);
    } else {
      ghost var s2 := h.s;
      h.Poke(a, n, Tail(h.s, a)[..len]);
      Then(s0, s2, h.s, a, View(s0, a), View(h.s, a));
    }
  }

  /** The part for big queues: the array becomes the only window of a new root. */
  method Rehoused(h: Heap, a: nat, n: nat, ghost s0: State)
    requires Inv(s0) && Visible(s0, a) && Becomes(s0, h.s, a, View(s0, a)) && !h.s.objs[a].rep.Win? && Writable(h.s, a)
    requires EMBED_LEN_MAX < Len(h.s, a) + n <= |Tail(h.s, a)| && !h.s.objs[a].frozen
    modifies h
    ensures RoomBefore(h.s, a, n, View(s0, a)) && Becomes(s0, h.s, a, View(h.s, a))
  {
    ghost var s1 := h.s;
    assert ObjOk(h.s, a);
    var r := h.MakeShared(a);
    ghost var s2 := h.s;
    ViewLen(s1, s2, a);
    Then(s0, s1, s2, a, View(s0, a), View(s0, a));
    MakeRoom(h, a, n);
    Then(s0, s2, h.s, a, View(s0, a), View(h.s, a));
  }

  /** rb_ary_unshift_m.  A frozen array is refused unless it is Unchecked. */
  method Unshift(h: Heap, a: nat, vals: seq<Value>) returns (ans: Answer)
    requires Inv(h.s) && Visible(h.s, a)
    modifies h
    ensures ans
         == if old(h.s.objs[a].frozen && (vals == [] || !Unchecked(h.s, a, |vals|))) then Raise(FrozenError) else Self
    ensures Becomes(old(h.s), h.s, a, if ans.Self? then vals + old(View(h.s, a)) else old(View(h.s, a)))
  {
    ghost var s0 := h.s;
    Stays(h.s, a);
    if |vals| == 0 {
      assert vals + View(h.s, a) == View(h.s, a);
      return if h.s.objs[a].frozen then Raise(FrozenError) else Self;
    }
    if h.s.objs[a].frozen && !Unchecked(h.s, a, |vals|) { return Raise(FrozenError); }
    if !h.s.objs[a].frozen { NotRoot(h.s, a); }
    EnsureRoomForUnshift(h, a, |vals|);
    FillRoom(h, a, vals, s0, View(s0, a));
    return Self;
  }

  /** The rest of rb_ary_unshift_m: the new elements are written before the old ones. */
  method FillRoom(h: Heap, a: nat, vals: seq<Value>, ghost s0: State, ghost elems: seq<Value>)
    requires RoomBefore(h.s, a, |vals|, elems) && Becomes(s0, h.s, a, View(h.s, a))
    modifies h
    ensures Becomes(s0, h.s, a, vals + elems)
  {
    hide Inv, OnlyChanges, Tail;
    var len := h.Length(a);
    ghost var s1 := h.s;
    h.Poke(a, 0, vals);
    ghost var s2 := h.s;
    h.SetLen(a, len + |vals|);
    Then(s0, s1, s2, a, View(s1, a), View(s2, a));
    Then(s0, s2, h.s, a, View(s2, a), View(h.s, a));
    InFront(Tail(s1, a), vals, elems);
  }

  /** Elements written before those that stand behind their room */
  lemma InFront(t: seq<Value>, vals: seq<Value>, elems: seq<Value>)
    requires |vals| + |elems| <= |t| && t[|vals|..|vals| + |elems|] == elems
    ensures Overwrite(t, 0, vals)[..|elems| + |vals|] == vals + elems
  {
    assert Overwrite(t, 0, vals) == vals + t[|vals|..];
    assert t[|vals|..][..|elems|] == elems;
  }

  function Nils(n: nat): seq<Value> {
    seq(n, _ => Nil)
  }

  /** The meaning of a store at a non-negative index: a gap is filled with nil. */
  function Stored(w: seq<Value>, i: nat, v: Value): (r: seq<Value>)
    ensures |r| == (if i < |w| then |w| else i + 1) && r[i] == v
  {
    if i < |w| then w[i := v] else w + Nils(i - |w|) + [v]
  }

  /** rb_ary_store */
  method Store(h: Heap, a: nat, index: int, v: Value) returns (ans: Answer)
    requires Inv(h.s) && Visible(h.s, a)
    modifies h
    ensures var w := old(View(h.s, a));
            && ans == (if index + |w| < 0 || index >= MAX_SIZE then Raise(IndexError)
                       else if old(h.s.objs[a].frozen) then Raise(FrozenError) else Self)
            && Becomes(old(h.s), h.s, a, if ans.Raise? then w
                                         else Stored(w, if index < 0 then index + |w| else index, v))
  {
    ghost var s0 := h.s;
    Stays(h.s, a);
    var len := h.Length(a);
    var idx := index;
    if idx < 0 {
      idx := idx + len;
      if idx < 0 { return Raise(IndexError); }
    } else if idx >= MAX_SIZE {
      return Raise(IndexError);
    }
    if h.s.objs[a].frozen { return Raise(FrozenError); }
    NotRoot(h.s, a);
    h.Modify(a);
    ViewLen(s0, h.s, a);
    var capa := h.Capa(a);
    if idx >= capa {
      ghost var s1 := h.s;
      h.DoubleCapa(a, idx);
      Then(s0, s1, h.s, a, View(s0, a), View(s0, a));
      ViewLen(s0, h.s, a);
    }
    StoreInPlace(h, a, idx, v, s0);
    return Self;
  }

  method StoreInPlace(h: Heap, a: nat, idx: nat, v: Value, ghost s0: State)
    requires Inv(s0) && Visible(s0, a) && Becomes(s0, h.s, a, View(s0, a)) && Writable(h.s, a)
    requires idx < |Tail(h.s, a)|
    modifies h
    ensures Becomes(s0, h.s, a, Stored(View(s0, a), idx, v))
  {
    hide Inv, Tail, OnlyChanges;
    ghost var w := View(s0, a);
    ViewLen(s0, h.s, a);
    var len := h.Length(a);
    if idx > len {
      ghost var s1 := h.s;
      h.Poke(a, len, Nils(idx - len + 1));
      Then(s0, s1, h.s, a, w, w);
    }
    if idx >= len {
      ghost var s1 := h.s;
      h.SetLen(a, idx + 1);
      Then(s0, s1, h.s, a, w, View(h.s, a));
    }
    ghost var s2 := h.s;
    h.Poke(a, idx, [v]);
    Then(s0, s2, h.s, a, View(s2, a), View(h.s, a));
    assert View(h.s, a) == Stored(w, idx, v);
  }

  /** Where a splice of len elements from beg on ends in an array of n elements */
  function SpliceEnd(n: nat, beg: nat, len: nat): (e: nat)
    requires beg <= n
    ensures beg <= e <= n && (e == beg + len || (e == n && n < beg + len))
  {
    if beg + len <= n then beg + len else n
  }

  /** The meaning of a splice at a non-negative index: x takes the place of the len elements
      from beg on; a gap before beg is filled with nil. */
  function Spliced(w: seq<Value>, beg: nat, len: nat, x: seq<Value>): (r: seq<Value>) {
    if beg >= |w| then w + Nils(beg - |w|) + x
    else w[..beg] + x + w[SpliceEnd(|w|, beg, len)..]
  }

  function Contents(s: State, rpl: Option<nat>): seq<Value>
    requires Inv(s) && (rpl.Some? ==> rpl.value in s.objs)
  {
    if rpl.Some? then View(s, rpl.value) else []
  }

  /** A splice that would end beyond the largest size */
  predicate TooBig(w: seq<Value>, beg: int, x: seq<Value>) {
    beg >= |w| && beg > MAX_SIZE - |x|
  }

  /** A splice of array w raises an index error. */
  predicate SpliceError(w: seq<Value>, start: int, length: int, x: seq<Value>) {
    length < 0 || start + |w| < 0 || TooBig(w, start, x)
  }

  /** rb_ary_splice; the replacement is an array, perhaps a itself, or missing. */
  method Splice(h: Heap, a: nat, start: int, length: int, rpl: Option<nat>) returns (ans: Answer)
    requires Inv(h.s) && Visible(h.s, a) && (rpl.Some? ==> Visible(h.s, rpl.value))
    modifies h
    ensures var w, x := old(View(h.s, a)), old(Contents(h.s, rpl));
            && ans == (if SpliceError(w, start, length, x) then Raise(IndexError)
                       else if old(h.s.objs[a].frozen) then Raise(FrozenError) else Self)
            && Becomes(old(h.s), h.s, a, if ans.Raise? then w
                                         else Spliced(w, if start < 0 then start + |w| else start, length, x))
  {
    hide Inv, Tail, OnlyChanges, Spliced;
    Stays(h.s, a);
    ghost var w, x := View(h.s, a), Contents(h.s, rpl);
    if length < 0 { return Raise(IndexError); }
    var olen := h.Length(a);
    var beg, len := start, length;
    if beg < 0 {
      beg := beg + olen;
      if beg < 0 { return Raise(IndexError); }
    }
    if olen < len || olen < beg + len { len := olen - beg; }
    var rlen := 0;
    if rpl.Some? { rlen := h.Length(rpl.value); }
    if beg >= olen && beg > MAX_SIZE - rlen { return Raise(IndexError); }
    if h.s.objs[a].frozen { return Raise(FrozenError); }
    NotRoot(h.s, a);
    SplicedIs(w, beg, length, x);
    if beg >= olen {
      SpliceBehind(h, a, beg, rpl);
    } else {
      SpliceInside(h, a, beg, len, rpl);
    }
    return Self;
  }

  lemma SplicedIs(w: seq<Value>, beg: nat, length: nat, x: seq<Value>)
    ensures beg >= |w| ==> Spliced(w, beg, length, x) == w + Nils(beg - |w|) + x
    ensures beg < |w| ==> var e := if |w| < length || |w| < beg + length then |w| else beg + length;
                          Spliced(w, beg, length, x) == w[..beg] + x + w[e..]
  {
  }

  /** The elements of the replacement, read from its storage */
  method ReadContents(h: Heap, rpl: Option<nat>, rlen: nat) returns (x: seq<Value>)
    requires Inv(h.s) && (rpl.Some? ==> Visible(h.s, rpl.value) && rlen <= |Tail(h.s, rpl.value)|)
    ensures x == if rpl.Some? then Tail(h.s, rpl.value)[..rlen] else []
  {
    x := if rpl.Some? then Tail(h.s, rpl.value)[..rlen] else [];
  }

  /** The replacement keeps its elements while a changes, as long as a keeps its own at the front. */
  lemma RplKept(s: State, s': State, a: nat, rpl: Option<nat>)
    requires Inv(s) && Visible(s, a) && (rpl.Some? ==> Visible(s, rpl.value))
    requires Inv(s') && Visible(s', a) && Becomes(s, s', a, View(s', a))
    requires rpl == Some(a) ==> Len(s, a) <= |Tail(s', a)| && Tail(s', a)[..Len(s, a)] == View(s, a)
    ensures rpl.Some? ==> Visible(s', rpl.value) && |Contents(s, rpl)| <= |Tail(s', rpl.value)|
    ensures rpl.Some? ==> Tail(s', rpl.value)[..|Contents(s, rpl)|] == Contents(s, rpl)
  {
    if rpl.Some? && rpl.value != a {
      assert View(s', rpl.value) == View(s, rpl.value);
      ViewLen(s, s', rpl.value);
    }
  }

  /** The part of rb_ary_splice at or behind the end of a */
  method SpliceBehind(h: Heap, a: nat, beg: nat, rpl: Option<nat>)
    requires Inv(h.s) && Visible(h.s, a) && !h.s.objs[a].rep.Root? && (rpl.Some? ==> Visible(h.s, rpl.value))
    requires Len(h.s, a) <= beg
    modifies h
    ensures Becomes(old(h.s), h.s, a, old(View(h.s, a)) + Nils(beg - old(Len(h.s, a))) + old(Contents(h.s, rpl)))
  {
    hide Inv, Tail, OnlyChanges;
    ghost var s0 := h.s;
    ghost var w := View(s0, a);
    var rlen := 0;
    if rpl.Some? { rlen := h.Length(rpl.value); }
    var olen := h.Length(a);
    h.EnsureRoomForPush(a, rlen + (beg - olen));
    ghost var s1 := h.s;
    h.Poke(a, olen, Nils(beg - olen));
    ghost var s2 := h.s;
    Then(s0, s1, s2, a, w, View(s2, a));
    RplKept(s0, s2, a, rpl);
    var x := ReadContents(h, rpl, rlen);
    h.Poke(a, beg, x);
    ghost var s3 := h.s;
    h.SetLen(a, beg + rlen);
    Then(s0, s2, s3, a, View(s2, a), View(s3, a));
    Then(s0, s3, h.s, a, View(s3, a), View(h.s, a));
    assert View(h.s, a) == w + Nils(beg - olen) + x;
  }

  /** The part of rb_ary_splice inside a */
  method SpliceInside(h: Heap, a: nat, beg: nat, len: nat, rpl: Option<nat>)
    requires Inv(h.s) && Visible(h.s, a) && !h.s.objs[a].rep.Root? && (rpl.Some? ==> Visible(h.s, rpl.value))
    requires beg + len <= Len(h.s, a)
    modifies h
    ensures var w := old(View(h.s, a));
            Becomes(old(h.s), h.s, a, w[..beg] + old(Contents(h.s, rpl)) + w[beg + len..])
  {
    hide Inv, Tail, OnlyChanges;
    ghost var s0 := h.s;
    ghost var w := View(s0, a);
    var rlen := 0;
    if rpl.Some? { rlen := h.Length(rpl.value); }
    var olen := h.Length(a);
    h.Modify(a);
    ViewLen(s0, h.s, a);
    var alen := olen + rlen - len;
    var capa := h.Capa(a);
    if alen >= capa {
      ghost var s1 := h.s;
      h.DoubleCapa(a, alen);
      Then(s0, s1, h.s, a, w, w);
      ViewLen(s0, h.s, a);
    }
    MoveTail(h, a, beg, len, rlen, s0);
    PutReplacement(h, a, beg, len, rlen, rpl, s0);
  }

  /** The replacement is written in the room made for it. */
  method PutReplacement(h: Heap, a: nat, beg: nat, len: nat, rlen: nat, rpl: Option<nat>, ghost s0: State)
    requires Inv(s0) && Visible(s0, a) && (rpl.Some? ==> Visible(s0, rpl.value)) && rlen == |Contents(s0, rpl)|
    requires Inv(h.s) && Visible(h.s, a) && Becomes(s0, h.s, a, View(h.s, a)) && Writable(h.s, a)
    requires beg + len <= Len(s0, a) && Len(h.s, a) == Len(s0, a) + rlen - len
    requires View(h.s, a)[..beg] == View(s0, a)[..beg] && View(h.s, a)[beg + rlen..] == View(s0, a)[beg + len..]
    requires rpl == Some(a) ==> rlen <= |Tail(h.s, a)| && Tail(h.s, a)[..rlen] == View(s0, a)
    modifies h
    ensures Becomes(s0, h.s, a, View(s0, a)[..beg] + Contents(s0, rpl) + View(s0, a)[beg + len..])
  {
    hide Inv, Tail, OnlyChanges, View, Becomes, Contents;
    ghost var s2 := h.s;
    ghost var w, t, n := View(s0, a), Tail(s2, a), Len(s2, a);
    var x := ReadReplacement(h, a, rlen, rpl, s0);
    ViewIs(s0, a);
    ViewIs(s2, a);
    h.Poke(a, beg, x);
    Then(s0, s2, h.s, a, View(s2, a), Overwrite(t, beg, x)[..n]);
    ThreeParts(t, n, w, beg, len, x);
  }

  lemma ViewIs(s: State, a: nat)
    requires Inv(s) && a in s.objs
    ensures View(s, a) == Tail(s, a)[..Len(s, a)] && |View(s, a)| == Len(s, a)
  {
  }

  /** The elements of the replacement, which a has kept */
  method ReadReplacement(h: Heap, a: nat, rlen: nat, rpl: Option<nat>, ghost s0: State) returns (x: seq<Value>)
    requires Inv(s0) && Visible(s0, a) && (rpl.Some? ==> Visible(s0, rpl.value)) && rlen == |Contents(s0, rpl)|
    requires Inv(h.s) && Visible(h.s, a) && Becomes(s0, h.s, a, View(h.s, a))
    requires rpl == Some(a) ==> rlen <= |Tail(h.s, a)| && Tail(h.s, a)[..rlen] == View(s0, a)
    ensures x == Contents(s0, rpl) && |x| == rlen
  {
    hide Inv, Tail, OnlyChanges;
    RplKept(s0, h.s, a, rpl);
    x := ReadContents(h, rpl, rlen);
  }

  /** Elements written in the room between the front and the rest of w */
  lemma ThreeParts(t: seq<Value>, n: nat, w: seq<Value>, beg: nat, len: nat, x: seq<Value>)
    requires beg + len <= |w| && n == |w| + |x| - len && n <= |t|
    requires t[..n][..beg] == w[..beg] && t[..n][beg + |x|..] == w[beg + len..]
    ensures Overwrite(t, beg, x)[..n] == w[..beg] + x + w[beg + len..]
  {
    assert Overwrite(t, beg, x)[..n] == t[..n][..beg] + x + t[..n][beg + |x|..];
  }

  /** The elements behind the replaced ones move to where they belong. */
  method MoveTail(h: Heap, a: nat, beg: nat, len: nat, rlen: nat, ghost s0: State)
    requires Inv(s0) && Visible(s0, a) && Becomes(s0, h.s, a, View(s0, a)) && Writable(h.s, a)
    requires beg + len <= Len(s0, a) && Len(s0, a) + rlen - len <= |Tail(h.s, a)|
    modifies h
    ensures Inv(h.s) && Visible(h.s, a) && Becomes(s0, h.s, a, View(h.s, a))
    ensures Writable(h.s, a) && Len(h.s, a) == Len(s0, a) + rlen - len
    ensures View(h.s, a)[..beg] == View(s0, a)[..beg] && View(h.s, a)[beg + rlen..] == View(s0, a)[beg + len..]
    ensures rlen == Len(s0, a) ==> Tail(h.s, a)[..rlen] == View(s0, a)
  {
    hide Inv, Tail, OnlyChanges;
    ghost var w := View(s0, a);
    ghost var s1 := h.s;
    ViewLen(s0, h.s, a);
    var olen := h.Length(a);
    if len != rlen {
      h.Poke(a, beg + rlen, Tail(h.s, a)[beg + len..olen]);
      ghost var s2 := h.s;
      h.SetLen(a, olen + rlen - len);
      Then(s0, s1, s2, a, w, View(s2, a));
      Then(s0, s2, h.s, a, View(s2, a), View(h.s, a));
    }
  }

  /** An array lets go of its storage: an owned buffer is freed, a root loses a user
      (rb_ary_unshare), and the array is embedded and empty. */
  method Release(h: Heap, a: nat)
    requires Inv(h.s) && Visible(h.s, a) && !h.s.objs[a].rep.Root?
    modifies h
    ensures Becomes(old(h.s), h.s, a, [])
    ensures h.s.objs[a].rep.Embed?
    ensures forall b :: b in old(h.s).objs && b != a && old(h.s).objs[b].visible ==>
                          b in h.s.objs && (old(h.s).objs[b].rep.Root? ==> SameRoot(old(h.s), h.s, b))
                          && (old(h.s).objs[b].rep.Win? ==> h.s.objs[b] == old(h.s).objs[b])
  {
    ghost var s0 := h.s;
    assert ObjOk(h.s, a);
    var rep := h.s.objs[a].rep;
    var junk := Junk(EMBED_LEN_MAX);
    WithSlotsOk(h.s, a, junk, 0);
    h.s := WithSlots(h.s, a, junk, 0);
    assert junk[..0] == [];
    ghost var s1 := h.s;
    if rep.Win? {
      assert ObjOk(s0, rep.root) && a in Sharers(s0.objs, rep.root);
      Heap.Leave(s0, s1, a, rep.root);
      h.DecrementShare(rep.root);
      ThenUnseen(s0, s1, h.s, a, []);
    }
    forall b | b in s0.objs && b != a && s0.objs[b].visible
      ensures b in h.s.objs && (s0.objs[b].rep.Root? ==> SameRoot(s0, h.s, b))
      ensures (s0.objs[b].rep.Win? ==> h.s.objs[b] == s0.objs[b])
    {
      assert ObjOk(s0, b);
      if s0.objs[b].rep.Root? { ReleaseRoot(s0, s1, h.s, a, b, rep); }
    }
  }

  lemma ReleaseRoot(s0: State, s1: State, s2: State, a: nat, b: nat, rep: Rep)
    requires Inv(s0) && Visible(s0, a) && Visible(s0, b) && a != b && s0.objs[a].rep == rep && s0.objs[b].rep.Root?
    requires !rep.Root?
    requires s1.bufs == FreedBufs(s0, a) && b in s1.objs && s1.objs[b] == s0.objs[b]
    requires Inv(s1) && (rep.Win? && rep.root == b && s1.objs[b].rep.num > 1 ==> SameRoot(s1, s2, b))
    requires rep.Win? ==> rep.root in s1.objs && s1.objs[rep.root].rep.Root?
    requires rep.Win? ==> RoomForSharer(s1, rep.root)
    requires rep.Win? && rep.root != b ==> b in s2.objs && s2.objs[b] == s1.objs[b]
    requires rep.Win? ==>
              forall f :: f in s1.bufs && f != s1.objs[rep.root].rep.rbuf ==> f in s2.bufs && s2.bufs[f] == s1.bufs[f]
    requires !rep.Win? ==> s2 == s1
    ensures SameRoot(s0, s2, b)
  {
    assert ObjOk(s0, b) && ObjOk(s1, b);
    if rep.Own? { assert HasBuf(s0.objs[a]) && HasBuf(s0.objs[b]); }
    if rep.Win? && rep.root != b { assert HasBuf(s1.objs[rep.root]) && HasBuf(s1.objs[b]) && ObjOk(s1, rep.root); }
  }

  /** rb_ary_replace */
  method Replace(h: Heap, a: nat, orig: nat) returns (ans: Answer)
    requires Inv(h.s) && Visible(h.s, a) && Visible(h.s, orig)
    modifies h
    ensures ans == if old(h.s.objs[a].frozen) then Raise(FrozenError) else Self
    ensures Becomes(old(h.s), h.s, a, if ans.Self? then old(View(h.s, orig)) else old(View(h.s, a)))
  {
    ghost var s0 := h.s;
    Stays(h.s, a);
    if h.s.objs[a].frozen { return Raise(FrozenError); }
    if a == orig { return Self; }
    NotRoot(h.s, a);
    var len := h.Length(orig);
    if len <= EMBED_LEN_MAX {
      var elems := Tail(h.s, orig)[..len];
      Release(h, a);
      ghost var s1 := h.s;
      assert ObjOk(h.s, a);
      h.Poke(a, 0, elems);
      ghost var s2 := h.s;
      h.SetLen(a, len);
      Then(s0, s1, s2, a, [], View(s2, a));
      Then(s0, s2, h.s, a, View(s2, a), View(h.s, a));
      assert View(h.s, a) == View(s0, orig);
    } else {
      EmbeddedIsShort(h.s, orig);
      var r := h.MakeShared(orig);
      ghost var s1 := h.s;
      OtherKept(s0, s1, orig, a);
      NotRoot(h.s, a);
      Release(h, a);
      JoinRoot(h, a, orig, r, s1);
      ThenOther(s0, s1, h.s, orig, a, View(s0, orig));
    }
    return Self;
  }

  lemma OtherKept(s: State, s': State, a: nat, b: nat)
    requires Inv(s) && Visible(s, a) && Becomes(s, s', a, View(s, a)) && Visible(s, b)
    ensures Visible(s', b) && View(s', b) == View(s, b) && s'.objs[b].frozen == s.objs[b].frozen
  {
    assert View(s', b) == View(s, b);
  }

  lemma ThenOther(s: State, s1: State, s2: State, b: nat, a: nat, v: seq<Value>)
    requires Inv(s) && Visible(s, a) && Visible(s, b) && Becomes(s, s1, b, View(s, b)) && Becomes(s1, s2, a, v)
    ensures Becomes(s, s2, a, v)
  {
    SameIsUnseen(s, s1, b);
    OtherKept(s, s1, b, a);
  }

  lemma OneMoreUser(s1: State, s2: State, a: nat, r: nat)
    requires Becomes(s1, s2, a, []) && s2.objs[a].rep.Embed?
    requires r in s2.objs && s2.objs[r].rep.Root? && s2.objs[r].rep.rbuf in s2.bufs
    requires Counted(s2.objs, r) && s2.objs[r].rep.num >= 1
    ensures var s3 := WithCount(s2, r, s2.objs[r].rep.num + 1);
            && Inv(s3) && Becomes(s1, s3, a, []) && Visible(s3, a) && s3.bufs == s2.bufs
            && s3.objs[a].rep.Embed? && r in s3.objs && s3.objs[r].rep.Root?
            && s3.objs[r].rep.rbuf == s2.objs[r].rep.rbuf && RoomForSharer(s3, r)
  {
    hide View, OnlyChanges;
    CountOk(s2, r, s2.objs[r].rep.num + 1);
    ThenUnseen(s1, s2, WithCount(s2, r, s2.objs[r].rep.num + 1), a, []);
  }

  /** The elements of an array whose root is r, which may be the array itself */
  lemma WindowOf(s: State, a: nat, r: nat)
    requires Inv(s) && Visible(s, a) && !s.objs[a].rep.Embed? && !s.objs[a].rep.Own?
    requires if s.objs[a].rep.Win? then s.objs[a].rep.root == r else r == a
    ensures r in s.objs && s.objs[r].rep.Root? && s.objs[r].rep.rbuf in s.bufs
    ensures Counted(s.objs, r) && s.objs[r].rep.num >= 1
    ensures var off := if s.objs[a].rep.Win? then s.objs[a].rep.off else 0;
            && off + Len(s, a) <= |s.bufs[s.objs[r].rep.rbuf]|
            && s.bufs[s.objs[r].rep.rbuf][off..off + Len(s, a)] == View(s, a)
  {
    assert ObjOk(s, a);
    assert ObjOk(s, r);
  }

  /** rb_ary_set_shared: a becomes one more window of the root of orig, on the same elements. */
  method JoinRoot(h: Heap, a: nat, orig: nat, r: nat, ghost s1: State)
    requires Inv(s1) && Visible(s1, a) && Visible(s1, orig) && a != orig && Becomes(s1, h.s, a, [])
    requires h.s.objs[a].rep.Embed?
    requires !s1.objs[orig].rep.Embed? && !s1.objs[orig].rep.Own? && orig in h.s.objs
    requires if s1.objs[orig].rep.Win? then s1.objs[orig].rep.root == r && h.s.objs[orig] == s1.objs[orig]
             else r == orig && SameRoot(s1, h.s, r)
    modifies h
    ensures Becomes(s1, h.s, a, View(s1, orig))
  {
    ghost var s2 := h.s;
    assert Visible(h.s, orig) && View(h.s, orig) == View(s1, orig);
    WindowOf(h.s, orig, r);
    var off := if h.s.objs[orig].rep.Win? then h.s.objs[orig].rep.off else 0;
    var len := h.Length(orig);
    hide Inv, View, OnlyChanges, Becomes;
    OneMoreUser(s1, s2, a, r);
    h.s := WithCount(h.s, r, h.s.objs[r].rep.num + 1);
    ghost var s3 := h.s;
    WithWindowOk(h.s, a, r, off, len);
    h.s := WithWindow(h.s, a, r, off, len);
    Then(s1, s3, h.s, a, [], View(s1, orig));
  }

  /** rb_ary_clear */
  method Clear(h: Heap, a: nat) returns (ans: Answer)
    requires Inv(h.s) && Visible(h.s, a)
    modifies h
    ensures ans == if old(h.s.objs[a].frozen) then Raise(FrozenError) else Self
    ensures Becomes(old(h.s), h.s, a, if ans.Self? then [] else old(View(h.s, a)))
  {
    ghost var s0 := h.s;
    Stays(h.s, a);
    if h.s.objs[a].frozen { return Raise(FrozenError); }
    NotRoot(h.s, a);
    h.SetLen(a, 0);
    ghost var s1 := h.s;
    assert View(s1, a) == [];
    if h.s.objs[a].rep.Win? {
      Release(h, a);
      Then(s0, s1, h.s, a, [], []);
    } else {
      assert ObjOk(h.s, a);
      var capa := h.Capa(a);
      if DEFAULT_SIZE * 2 < capa {
        h.ResizeCapa(a, DEFAULT_SIZE * 2);
        Then(s0, s1, h.s, a, [], []);
      }
    }
    return Self;
  }

  /** rb_ary_aref with two arguments and rb_ary_subseq */
  method Slice(h: Heap, a: nat, start: int, length: int) returns (ans: Answer)
    requires Inv(h.s) && Visible(h.s, a)
    modifies h
    ensures var w := old(View(h.s, a));
            var beg := if start < 0 then start + |w| else start;
            if beg > |w| || beg < 0 || length < 0 then ans == NilAnswer && h.s == old(h.s)
            else ans.Fresh? && Creates(old(h.s), h.s, ans.id, w[beg..SpliceEnd(|w|, beg, length)])
  {
    var alen := h.Length(a);
    var beg, len := start, length;
    if beg < 0 { beg := beg + alen; }
    if beg > alen { return NilAnswer; }
    if beg < 0 || len < 0 { return NilAnswer; }
    if alen < len || alen < beg + len { len := alen - beg; }
    var r;
    if len == 0 {
      r := New(h, []);
    } else {
      r := h.MakePartial(a, beg, len);
    }
    return Fresh(r);
  }

  /** rb_ary_s_create */
  method New(h: Heap, vals: seq<Value>) returns (r: nat)
    requires Inv(h.s)
    modifies h
    ensures Creates(old(h.s), h.s, r, vals)
    ensures Writable(h.s, r) && !h.s.objs[r].rep.Win? && |Tail(h.s, r)| >= |vals|
  {
    r := h.s.next;
    var rep := Own(h.s.next + 1, |vals|);
    if |vals| <= EMBED_LEN_MAX {
      var junk := Junk(EMBED_LEN_MAX);
      rep := Embed(vals + junk[|vals|..], |vals|);
    }
    WithArrayOk(h.s, rep, vals);
    h.s := WithArray(h.s, rep, vals);
    assert ObjOk(h.s, r);
    assert View(h.s, r) == vals;
  }

  function WithFrozen(s: State, a: nat): State
    requires a in s.objs
  {
    s.(objs := s.objs[a := s.objs[a].(frozen := true)])
  }

  lemma FrozenExclusive(s: State, a: nat)
    requires Inv(s) && a in s.objs
    ensures Exclusive(WithFrozen(s, a).objs)
  {
  }

  lemma FrozenInv(s: State, a: nat)
    requires Inv(s) && Visible(s, a)
    ensures Inv(WithFrozen(s, a))
  {
    var s' := WithFrozen(s, a);
    FrozenExclusive(s, a);
    hide Exclusive;
    forall b | b in s'.objs
      ensures ObjOk(s', b)
    {
      assert ObjOk(s, b);
      SameSharers(s.objs, s'.objs, b);
    }
  }

  lemma WithFrozenOk(s: State, a: nat)
    requires Inv(s) && Visible(s, a)
    ensures Inv(WithFrozen(s, a)) && Abs(WithFrozen(s, a)) == Abs(s)[a := Seen(View(s, a), true)]
  {
    var s' := WithFrozen(s, a);
    FrozenInv(s, a);
    hide Exclusive;
    forall b | b in s.objs
      ensures View(s', b) == View(s, b)
    {
      assert ObjOk(s, b);
    }
  }

  /** rb_ary_freeze */
  method Freeze(h: Heap, a: nat)
    requires Inv(h.s) && Visible(h.s, a)
    modifies h
    ensures Inv(h.s) && Abs(h.s) == Abs(old(h.s))[a := Seen(old(View(h.s, a)), true)]
    ensures h.s == WithFrozen(old(h.s), a)
  {
    WithFrozenOk(h.s, a);
    h.s := WithFrozen(h.s, a);
  }

  /** Not every frozen array is safe from unshift: one that was shifted twice before is still
      the only user of its root, which has room in front. */
  method FrozenUnshift(h: Heap) returns (a: nat, ans: Answer, ghost mid: State)
    requires Inv(h.s)
    modifies h
    ensures Inv(mid) && Visible(mid, a) && mid.objs[a].frozen && ans == Self
    ensures Becomes(mid, h.s, a, [Nil] + View(mid, a))
  {
    a := New(h, Nils(17));
    ans := Shift(h, a);
    ans := Shift(h, a);
    FrozenUnchecked(h.s, a, 1);
    hide Inv, Abs, View, Unchecked;
    Freeze(h, a);
    mid := h.s;
    ans := Unshift(h, a, [Nil]);
  }

  lemma FrozenUnchecked(s: State, a: nat, n: nat)
    requires Inv(s) && Visible(s, a) && Unchecked(s, a, n)
    ensures Inv(WithFrozen(s, a)) && Visible(WithFrozen(s, a), a)
    ensures WithFrozen(s, a).objs[a].frozen && Unchecked(WithFrozen(s, a), a, n)
  {
    FrozenInv(s, a);
    assert ObjOk(s, a) && ObjOk(WithFrozen(s, a), a);
  }

  /** The collector may take an array that no live window looks into. */
  predicate Collectable(s: State, a: nat) {
    a in s.objs && Sharers(s.objs, a) == {}
  }

  function Collected(s: State, a: nat): State
    requires a in s.objs
  {
    State(s.objs - {a}, if HasBuf(s.objs[a]) then s.bufs - {BufOf(s.objs[a])} else s.bufs, s.next)
  }

  lemma CollectedOk(s: State, a: nat)
    requires Inv(s) && Collectable(s, a)
    ensures Inv(Collected(s, a)) && Abs(Collected(s, a)) == Abs(s) - {a}
  {
    var s' := Collected(s, a);
    forall b | b in s'.objs
      ensures ObjOk(s', b) && Steady(s, s', b)
    {
      CollectedSteady(s, a, b);
    }
    assert Inv(s');
    forall b | b in s'.objs
      ensures View(s', b) == View(s, b)
    {
      SteadyView(s, s', b);
    }
  }

  lemma CollectedSteady(s: State, a: nat, b: nat)
    requires Inv(s) && Collectable(s, a) && b in s.objs && b != a
    ensures Steady(s, Collected(s, a), b) && ObjOk(Collected(s, a), b)
  {
    var s' := Collected(s, a);
    assert ObjOk(s, b) && b !in Sharers(s.objs, a);
    if s.objs[b].rep.Win? { assert ObjOk(s, s.objs[b].rep.root) && HasBuf(s.objs[s.objs[b].rep.root]); }
    if s.objs[b].rep.Root? { FewerSharers(s.objs, a, b); }
    SteadyOk(s, s', b);
  }

  lemma FewerSharers(os: map<nat, Obj>, a: nat, r: nat)
    requires a in os
    ensures |Sharers(os - {a}, r)| <= |Sharers(os, r)|
  {
    assert Sharers(os - {a}, r) == Sharers(os, r) - {a};
    if a in Sharers(os, r) {
      assert Sharers(os, r) == (Sharers(os, r) - {a}) + {a};
    } else {
      assert Sharers(os, r) - {a} == Sharers(os, r);
    }
  }

  /** rb_ary_free by the collector: a window goes without its root being told, so that counts
      become over-estimates. */
  method Collect(h: Heap, a: nat)
    requires Inv(h.s) && Collectable(h.s, a)
    modifies h
    ensures Inv(h.s) && Abs(h.s) == Abs(old(h.s)) - {a}
  {
    CollectedOk(h.s, a);
    h.s := Collected(h.s, a);
  }

  /** From s to s' a new array r holding vr appears, and then a comes to hold va. */
  ghost predicate Takes(s: State, s': State, a: nat, va: seq<Value>, r: nat, vr: seq<Value>) {
    exists s1 :: Creates(s, s1, r, vr) && Becomes(s1, s', a, va) && a in s.objs && s1.objs[a].frozen == s.objs[a].frozen
  }

  lemma StillThere(s: State, s': State, a: nat, r: nat)
    requires Inv(s) && Inv(s') && Visible(s, a) && OnlyChanges(s, s', r) && a != r && !s.objs[a].frozen
    ensures Visible(s', a) && View(s', a) == View(s, a) && Len(s', a) == Len(s, a)
    ensures !s'.objs[a].frozen && !s'.objs[a].rep.Root?
  {
    assert View(s', a) == View(s, a);
    ViewLen(s, s', a);
    NotRoot(s', a);
  }
}
