/** The array operations of array.c on a heap of arrays. */
module ArrayHeap {
  import opened ArrayState

  /** From s to s' array a comes to hold v; no other array changes, appears or disappears. */
  ghost predicate Becomes(s: State, s': State, a: nat, v: seq<Value>) {
    && Inv(s) && Inv(s') && OnlyChanges(s, s', a)
    && Visible(s, a) && Visible(s', a) && View(s', a) == v && s'.objs[a].frozen == s.objs[a].frozen
  }

  lemma Then(s: State, s1: State, s2: State, a: nat, v1: seq<Value>, v2: seq<Value>)
    requires Becomes(s, s1, a, v1) && Becomes(s1, s2, a, v2)
    ensures Becomes(s, s2, a, v2)
  {
  }

  lemma ThenUnseen(s: State, s1: State, s2: State, a: nat, v: seq<Value>)
    requires Becomes(s, s1, a, v) && Inv(s2) && Unseen(s1, s2)
    ensures Becomes(s, s2, a, v)
  {
  }

  /** From s to s' a new array r with elements v appears and nothing else changes. */
  ghost predicate Creates(s: State, s': State, r: nat, v: seq<Value>) {
    && Inv(s) && Inv(s') && OnlyChanges(s, s', r)
    && !Visible(s, r) && Visible(s', r) && View(s', r) == v && !s'.objs[r].frozen
  }

  lemma NotRoot(s: State, a: nat)
    requires Inv(s) && Visible(s, a) && !s.objs[a].frozen
    ensures !s.objs[a].rep.Root?
  {
    assert ObjOk(s, a);
  }

  lemma Stays(s: State, a: nat)
    requires Inv(s) && Visible(s, a)
    ensures Becomes(s, s, a, View(s, a))
  {
  }

  /** Uninitialised memory */
  method Junk(n: nat) returns (j: seq<Value>)
    ensures |j| == n
  {
    assert |seq<Value>(n, _ => Nil)| == n;
    j :| |j| == n;
  }

  function FreedBufs(s: State, a: nat): map<nat, seq<Value>>
    requires a in s.objs
  {
    if s.objs[a].rep.Own? then s.bufs - {s.objs[a].rep.buf} else s.bufs
  }

  /** a gets a fresh buffer; a buffer it owned is freed. */
  function WithStorage(s: State, a: nat, contents: seq<Value>, n: nat): State
    requires a in s.objs
  {
    State(s.objs[a := s.objs[a].(rep := Own(s.next, n))], FreedBufs(s, a)[s.next := contents], s.next + 1)
  }

  lemma FreedKept(s: State, s': State, a: nat)
    requires Inv(s) && Visible(s, a) && (forall b :: b in FreedBufs(s, a) ==> b in s'.bufs && s'.bufs[b] == s.bufs[b])
    ensures OtherBufsKept(s, s', a)
  {
    forall b | b in s.objs && b != a && HasBuf(s.objs[b]) && BufOf(s.objs[b]) in s.bufs
      ensures BufOf(s.objs[b]) in s'.bufs && s'.bufs[BufOf(s.objs[b])] == s.bufs[BufOf(s.objs[b])]
    {
      if s.objs[a].rep.Own? { assert HasBuf(s.objs[a]) && BufOf(s.objs[a]) != BufOf(s.objs[b]); }
    }
  }

  lemma WithStorageOk(s: State, a: nat, contents: seq<Value>, n: nat)
    requires Inv(s) && Visible(s, a) && !s.objs[a].rep.Root? && n <= |contents|
    ensures var s' := WithStorage(s, a, contents, n);
            && Becomes(s, s', a, contents[..n]) && Tail(s', a) == contents && Len(s', a) == n
  {
    var s' := WithStorage(s, a, contents, n);
    NextIsNew(s);
    FreedKept(s, s', a);
    BufsOld(s);
    ReplaceOk(s, s', a);
    assert ObjOk(s', a);
  }

  lemma BufsOld(s: State)
    requires Inv(s)
    ensures forall b :: b in s.objs && HasBuf(s.objs[b]) ==> BufOf(s.objs[b]) < s.next
  {
    forall b | b in s.objs && HasBuf(s.objs[b])
      ensures BufOf(s.objs[b]) < s.next
    {
      assert ObjOk(s, b);
    }
  }

  /** a is embedded; a buffer it owned is freed. */
  function WithSlots(s: State, a: nat, slots: seq<Value>, n: nat): State
    requires a in s.objs
  {
    State(s.objs[a := s.objs[a].(rep := Embed(slots, n))], FreedBufs(s, a), s.next)
  }

  lemma WithSlotsOk(s: State, a: nat, slots: seq<Value>, n: nat)
    requires Inv(s) && Visible(s, a) && !s.objs[a].rep.Root? && |slots| == EMBED_LEN_MAX && n <= EMBED_LEN_MAX
    ensures var s' := WithSlots(s, a, slots, n);
            && Becomes(s, s', a, slots[..n]) && Tail(s', a) == slots && Len(s', a) == n
  {
    var s' := WithSlots(s, a, slots, n);
    FreedKept(s, s', a);
    ReplaceOk(s, s', a);
    assert ObjOk(s', a);
  }

  /** a becomes a window of root r; a buffer it owned is freed. */
  function WithWindow(s: State, a: nat, r: nat, off: nat, n: nat): State
    requires a in s.objs
  {
    State(s.objs[a := s.objs[a].(rep := Win(r, off, n))], FreedBufs(s, a), s.next)
  }

  lemma WithWindowOk(s: State, a: nat, r: nat, off: nat, n: nat)
    requires Inv(s) && Visible(s, a) && !s.objs[a].rep.Root?
    requires r in s.objs && s.objs[r].rep.Root? && s.objs[r].rep.rbuf in s.bufs
    requires off + n <= |s.bufs[s.objs[r].rep.rbuf]|
    requires a in Sharers(s.objs, r) || RoomForSharer(s, r)
    ensures var s' := WithWindow(s, a, r, off, n);
            && Becomes(s, s', a, s.bufs[s.objs[r].rep.rbuf][off..off + n])
            && Tail(s', a) == s.bufs[s.objs[r].rep.rbuf][off..] && Len(s', a) == n
  {
    var s' := WithWindow(s, a, r, off, n);
    FreedKept(s, s', a);
    assert ObjOk(s, r);
    assert HasBuf(s.objs[r]);
    ReplaceOk(s, s', a);
    assert ObjOk(s', a);
  }

  class Heap {
    var s: State

    constructor ()
      ensures Inv(s) && s.objs == map[]
    {
      s := State(map[], map[], 0);
    }

    /** Raw writes behind the pointer of a (RARRAY_PTR_USE, ary_memcpy, MEMMOVE) */
    method Poke(a: nat, i: nat, vals: seq<Value>)
      requires Inv(s) && Visible(s, a) && Writable(s, a) && i + |vals| <= |Tail(s, a)|
      modifies this
      ensures Becomes(old(s), s, a, Overwrite(old(Tail(s, a)), i, vals)[..old(Len(s, a))])
      ensures Writable(s, a) && Tail(s, a) == Overwrite(old(Tail(s, a)), i, vals) && Len(s, a) == old(Len(s, a))
      ensures s.objs[a].rep.Embed? == old(s.objs[a].rep.Embed?) && (!s.objs[a].rep.Embed? ==> s.objs == old(s.objs))
    {
      PokeOk(s, a, i, vals);
      s := Poked(s, a, i, vals);
    }

    /** ARY_SET_LEN */
    method SetLen(a: nat, n: nat)
      requires Inv(s) && Visible(s, a) && !s.objs[a].rep.Root? && n <= |Tail(s, a)|
      modifies this
      ensures Becomes(old(s), s, a, old(Tail(s, a))[..n])
      ensures Tail(s, a) == old(Tail(s, a)) && Len(s, a) == n && Writable(s, a) == old(Writable(s, a))
      ensures s.objs[a].rep.Win? == old(s.objs[a].rep.Win?) && s.objs[a].rep.Own? == old(s.objs[a].rep.Own?)
    {
      ghost var s0 := s;
      assert ObjOk(s, a);
      var o := s.objs[a];
      var rep := match o.rep
        case Embed(slots, _) => Embed(slots, n)
        case Own(b, _) => Own(b, n)
        case Win(r, off, _) => Win(r, off, n);
      s := s.(objs := s.objs[a := o.(rep := rep)]);
      ReplaceOk(s0, s, a);
      assert ObjOk(s, a);
    }

    /** ary_resize_capa */
    method ResizeCapa(a: nat, capacity: nat)
      requires Inv(s) && Visible(s, a) && (s.objs[a].rep.Embed? || s.objs[a].rep.Own?) && Len(s, a) <= capacity
      modifies this
      ensures Becomes(old(s), s, a, old(View(s, a)))
      ensures s.objs[a].rep.Embed? || s.objs[a].rep.Own?
      ensures |Tail(s, a)| == if capacity > EMBED_LEN_MAX then capacity else EMBED_LEN_MAX
    {
      ghost var s0 := s;
      assert ObjOk(s, a);
      var len := if s.objs[a].rep.Embed? then s.objs[a].rep.elen else s.objs[a].rep.len;
      var ptr := if s.objs[a].rep.Embed? then s.objs[a].rep.slots else s.bufs[s.objs[a].rep.buf];
      if capacity > EMBED_LEN_MAX {
        var junk := Junk(capacity);
        var keep := if capacity < |ptr| then capacity else |ptr|;
        if s.objs[a].rep.Embed? { keep := len; }
        var contents := ptr[..keep] + junk[keep..];
        WithStorageOk(s, a, contents, len);
        assert contents[..len] == ptr[..len];
        s := WithStorage(s, a, contents, len);
      } else if !s.objs[a].rep.Embed? {
        var junk := Junk(EMBED_LEN_MAX);
        var slots := ptr[..len] + junk[len..];
        WithSlotsOk(s, a, slots, len);
        assert slots[..len] == ptr[..len];
        s := WithSlots(s, a, slots, len);
      }
    }

    /** ary_double_capa */
    method DoubleCapa(a: nat, min: nat)
      requires Inv(s) && Visible(s, a) && (s.objs[a].rep.Embed? || s.objs[a].rep.Own?)
      requires Len(s, a) <= min + DEFAULT_SIZE
      modifies this
      ensures Becomes(old(s), s, a, old(View(s, a)))
      ensures (s.objs[a].rep.Embed? || s.objs[a].rep.Own?) && min + DEFAULT_SIZE <= |Tail(s, a)|
    {
      var capa := Capa(a);
      var newCapa := capa / 2;
      if newCapa < DEFAULT_SIZE { newCapa := DEFAULT_SIZE; }
      newCapa := newCapa + min;
      ResizeCapa(a, newCapa);
    }

    /** ARY_CAPA of an array that is not shared */
    method Capa(a: nat) returns (c: nat)
      requires Inv(s) && Visible(s, a) && (s.objs[a].rep.Embed? || s.objs[a].rep.Own?)
      ensures c == |Tail(s, a)|
    {
      assert ObjOk(s, a);
      c := if s.objs[a].rep.Embed? then EMBED_LEN_MAX else |s.bufs[s.objs[a].rep.buf]|;
    }

    /** RARRAY_LEN */
    method Length(a: nat) returns (n: nat)
      requires Inv(s) && a in s.objs
      ensures n == Len(s, a)
    {
      n := Len(s, a);
    }

    /** rb_ary_decrement_share, by a user that has already let go of the root */
    method DecrementShare(r: nat)
      requires Inv(s) && r in s.objs && s.objs[r].rep.Root?
      requires RoomForSharer(s, r)
      modifies this
      ensures Inv(s) && Unseen(old(s), s)
      ensures forall b :: b in old(s).objs && b != r ==> b in s.objs && s.objs[b] == old(s).objs[b]
      ensures forall f :: f in old(s).bufs && f != old(s).objs[r].rep.rbuf ==>
                            f in s.bufs && s.bufs[f] == old(s).bufs[f]
      ensures old(s).objs[r].rep.num > 1 ==> SameRoot(old(s), s, r)
    {
      assert ObjOk(s, r);
      var num := s.objs[r].rep.num - 1;
      if num == 0 {
        assert |Sharers(s.objs, r)| == 0 && !s.objs[r].visible;
        assert Sharers(s.objs, r) == {};
        WithoutRootOk(s, r);
        s := WithoutRoot(s, r, true);
      } else {
        CountOk(s, r, num);
        s := WithCount(s, r, num);
      }
    }

    /** rb_ary_modify on an unfrozen array: afterwards it has its storage to itself. */
    method Modify(a: nat)
      requires Inv(s) && Visible(s, a) && !s.objs[a].rep.Root?
      modifies this
      ensures Becomes(old(s), s, a, old(View(s, a)))
      ensures s.objs[a].rep.Embed? || s.objs[a].rep.Own?
    {
      ghost var s0 := s;
      if s.objs[a].rep.Win? {
        assert ObjOk(s, a);
        var r, off, len := s.objs[a].rep.root, s.objs[a].rep.off, s.objs[a].rep.wlen;
        assert ObjOk(s, r) && a in Sharers(s.objs, r);
        var shared := s.bufs[s.objs[r].rep.rbuf];
        var ptr := shared[off..];
        if len <= EMBED_LEN_MAX {
          var junk := Junk(EMBED_LEN_MAX);
          var slots := ptr[..len] + junk[len..];
          WithSlotsOk(s, a, slots, len);
          s := WithSlots(s, a, slots, len);
          assert slots[..len] == ptr[..len];
          Leave(s0, s, a, r);
          ghost var s1 := s;
          DecrementShare(r);
          ThenUnseen(s0, s1, s, a, ptr[..len]);
        } else if s.objs[r].rep.num == 1 && len > |shared| / 2 {
          // the buffer is taken over, and its elements moved to the front
          var contents := Overwrite(shared, 0, ptr[..len]);
          TakeOverOk(s, a, contents);
          assert contents[..len] == ptr[..len];
          s := TakenOver(s, a, contents);
        } else {
          WithStorageOk(s, a, ptr[..len], len);
          s := WithStorage(s, a, ptr[..len], len);
          assert ptr[..len][..len] == ptr[..len];
          Leave(s0, s, a, r);
          ghost var s1 := s;
          DecrementShare(r);
          ThenUnseen(s0, s1, s, a, ptr[..len]);
        }
      }
    }

    /** A window that lets go of its root leaves it over-counted by one. */
    static lemma Leave(s0: State, s1: State, a: nat, r: nat)
      requires Inv(s0) && a in s0.objs && a in s1.objs && s1.objs == s0.objs[a := s1.objs[a]] && a != r
      requires r in s0.objs && s0.objs[r].rep.Root? && a in Sharers(s0.objs, r) && !s1.objs[a].rep.Win?
      ensures r in s1.objs && s1.objs[r] == s0.objs[r]
      ensures RoomForSharer(s1, r)
    {
      assert ObjOk(s0, r);
      SharersAfter(s0.objs, s1.objs, a, r);
    }

    /** The window of a moves within its root (ARY_SET_PTR, ARY_INCREASE_PTR) and changes length. */
    method MoveWindow(a: nat, off: nat, n: nat)
      requires Inv(s) && Visible(s, a) && s.objs[a].rep.Win? && off + n <= |RootBuf(s, a)|
      modifies this
      ensures Becomes(old(s), s, a, old(RootBuf(s, a))[off..off + n])
      ensures s.objs[a].rep == Win(old(s.objs[a].rep.root), off, n) && RootBuf(s, a) == old(RootBuf(s, a))
      ensures Tail(s, a) == RootBuf(s, a)[off..] && Len(s, a) == n && Writable(s, a) == old(Writable(s, a))
    {
      assert ObjOk(s, a);
      var r := s.objs[a].rep.root;
      assert ObjOk(s, r) && a in Sharers(s.objs, r);
      WithWindowOk(s, a, r, off, n);
      s := WithWindow(s, a, r, off, n);
    }

    /** ary_ensure_room_for_push on an unfrozen array: afterwards there is writable room for
        add more elements behind it. */
    method EnsureRoomForPush(a: nat, add: nat)
      requires Inv(s) && Visible(s, a) && !s.objs[a].rep.Root?
      modifies this
      ensures Becomes(old(s), s, a, old(View(s, a)))
      ensures Writable(s, a) && Len(s, a) == old(Len(s, a)) && Len(s, a) + add <= |Tail(s, a)|
    {
      ghost var s0 := s;
      Stays(s, a);
      var len := Length(a);
      var newLen := len + add;
      if s.objs[a].rep.Win? && newLen > EMBED_LEN_MAX {
        assert ObjOk(s, a);
        var r := s.objs[a].rep.root;
        if s.objs[r].rep.num == 1 {
          if s.objs[a].rep.off + newLen <= |s.bufs[s.objs[r].rep.rbuf]| {
            return;
          }
          Modify(a);
          ViewLen(s0, s, a);
          var capa := Capa(a);
          if newLen > capa - capa / 64 {
            ghost var s1 := s;
            DoubleCapa(a, newLen);
            ViewLen(s1, s, a);
            Then(s0, s1, s, a, View(s0, a), View(s0, a));
          }
          return;
        }
      }
      Modify(a);
      ViewLen(s0, s, a);
      var capa := Capa(a);
      if newLen > capa {
        ghost var s1 := s;
        DoubleCapa(a, newLen);
        ViewLen(s1, s, a);
        Then(s0, s1, s, a, View(s0, a), View(s0, a));
      }
    }

    /** ary_make_shared */
    method MakeShared(a: nat) returns (r: nat)
      requires Inv(s) && Visible(s, a) && !s.objs[a].rep.Embed?
      modifies this
      ensures Becomes(old(s), s, a, old(View(s, a)))
      ensures r in s.objs && s.objs[r].rep.Root? && s.objs[r].rep.rbuf in s.bufs
      ensures if s.objs[a].rep.Win? then s.objs[a].rep.root == r else r == a
      ensures !old(s.objs[a].frozen) && old(s.objs[a].rep.Own?) ==>
                s.objs[a].rep.Win? && s.objs[a].rep.off == 0 && Writable(s, a)
      ensures |Tail(s, a)| >= Len(s, a)
      ensures (old(s.objs[a].rep.Own?) && !old(s.objs[a].frozen) ==> |RootBuf(s, a)| == old(|Tail(s, a)|))
    {
      Stays(s, a);
      assert ObjOk(s, a);
      if s.objs[a].rep.Win? {
        r := s.objs[a].rep.root;
        assert ObjOk(s, r);
      } else if s.objs[a].rep.Root? {
        r := a;
      } else if s.objs[a].frozen {
        MadeRootOk(s, a);
        s := MadeRoot(s, a);
        r := a;
        assert ObjOk(s, a);
      } else {
        r := s.next;
        MadeSharedOk(s, a);
        s := MadeShared(s, a);
        assert ObjOk(s, a) && ObjOk(s, r);
      }
    }

    /** ary_increment_share, and a new array that is a window of root */
    method NewWindow(root: nat, off: nat, len: nat) returns (r: nat)
      requires Inv(s) && root in s.objs && s.objs[root].rep.Root?
      requires s.objs[root].rep.rbuf in s.bufs && off + len <= |s.bufs[s.objs[root].rep.rbuf]|
      modifies this
      ensures Creates(old(s), s, r, old(s.bufs[s.objs[root].rep.rbuf])[off..off + len])
    {
      ghost var s0 := s;
      assert ObjOk(s, root);
      CountOk(s, root, s.objs[root].rep.num + 1);
      s := WithCount(s, root, s.objs[root].rep.num + 1);
      ghost var s1 := s;
      assert ObjOk(s, root);
      WithArrayOk(s, Win(root, off, len), []);
      r := s.next;
      s := WithArray(s, Win(root, off, len), []);
      assert ObjOk(s, r);
      NextIsNew(s1);
      CreatesFrom(s0, s1, s, r, View(s, r));
    }

    /** ary_make_partial: a new array of len elements of a from offset on */
    method MakePartial(a: nat, offset: nat, len: nat) returns (r: nat)
      requires Inv(s) && Visible(s, a) && offset + len <= Len(s, a)
      modifies this
      ensures Creates(old(s), s, r, old(View(s, a))[offset..offset + len])
    {
      ghost var s0 := s;
      ghost var v := View(s, a)[offset..offset + len];
      if len <= EMBED_LEN_MAX {
        var junk := Junk(EMBED_LEN_MAX);
        var slots := Tail(s, a)[offset..offset + len] + junk[len..];
        WithArrayOk(s, Embed(slots, len), []);
        r := s.next;
        s := WithArray(s, Embed(slots, len), []);
        assert ObjOk(s, r);
        assert slots[..len] == v;
      } else {
        EmbeddedIsShort(s, a);
        r := PartialWindow(a, offset, len);
      }
    }

    /** A new window of the root of a, on a part of its elements */
    method PartialWindow(a: nat, offset: nat, len: nat) returns (r: nat)
      requires Inv(s) && Visible(s, a) && offset + len <= Len(s, a) && !s.objs[a].rep.Embed?
      modifies this
      ensures Creates(old(s), s, r, old(View(s, a))[offset..offset + len])
    {
      ghost var s0 := s;
      ghost var v := View(s, a)[offset..offset + len];
      var root := MakeShared(a);
      ghost var s1 := s;
      assert ObjOk(s, root) && ObjOk(s, a);
      ViewLen(s0, s1, a);
      var off := (if s.objs[a].rep.Win? then s.objs[a].rep.off else 0) + offset;
      assert s.bufs[s.objs[root].rep.rbuf][off..off + len] == View(s, a)[offset..offset + len];
      r := NewWindow(root, off, len);
      SameIsUnseen(s0, s1, a);
      CreatesFrom(s0, s1, s, r, v);
    }
  }

  lemma SameIsUnseen(s: State, s': State, a: nat)
    requires Inv(s) && Visible(s, a) && Becomes(s, s', a, View(s, a))
    ensures Unseen(s, s')
  {
  }

  lemma ViewLen(s: State, s': State, a: nat)
    requires Inv(s) && Inv(s') && Visible(s, a) && Visible(s', a) && View(s', a) == View(s, a)
    ensures Len(s', a) == Len(s, a)
  {
    assert |View(s, a)| == Len(s, a) && |View(s', a)| == Len(s', a);
  }

  lemma EmbeddedIsShort(s: State, a: nat)
    requires Inv(s) && Visible(s, a) && Len(s, a) > EMBED_LEN_MAX
    ensures !s.objs[a].rep.Embed?
  {
    assert ObjOk(s, a);
  }

  lemma CreatesFrom(s0: State, s1: State, s2: State, r: nat, v: seq<Value>)
    requires Inv(s0) && Inv(s1) && Unseen(s0, s1) && Creates(s1, s2, r, v)
    ensures Creates(s0, s2, r, v)
  {
  }

  /** The whole buffer of the root that window a looks into */
  function RootBuf(s: State, a: nat): seq<Value>
    requires Inv(s) && a in s.objs && s.objs[a].rep.Win?
  {
    assert ObjOk(s, a);
    s.bufs[s.objs[s.objs[a].rep.root].rep.rbuf]
  }
}
