/** The representation of Ruby arrays in array.c: embedded elements, an owned buffer, or a
    window into the buffer of a counted shared root. */
module ArrayState {

  datatype Value = Nil | Ref(id: nat)

  const EMBED_LEN_MAX: nat := 3
  const DEFAULT_SIZE: nat := 16

  /** ARY_MAX_SIZE: how many words of 8 bytes a signed 64-bit length allows */
  const MAX_SIZE: nat := 0x0fff_ffff_ffff_ffff

  /** RArray: embedded slots; an owned heap buffer; a window of a shared root (ELTS_SHARED);
      or a shared root itself (RARRAY_SHARED_ROOT_FLAG) with its share count. */
  datatype Rep =
    | Embed(slots: seq<Value>, elen: nat)
    | Own(buf: nat, len: nat)
    | Win(root: nat, off: nat, wlen: nat)
    | Root(rbuf: nat, num: int)

  /** A shared root made for an unfrozen array is hidden: no Ruby program sees it. */
  datatype Obj = Obj(rep: Rep, frozen: bool, visible: bool)

  /** The arrays and the malloc'ed buffers.  Identifiers are below next. */
  datatype State = State(objs: map<nat, Obj>, bufs: map<nat, seq<Value>>, next: nat)

  function Sharers(os: map<nat, Obj>, r: nat): set<nat> {
    set a | a in os && os[a].rep.Win? && os[a].rep.root == r
  }

  /** The share count covers every window of the root, and the root itself when it is a
      frozen array that programs can see. */
  predicate Counted(os: map<nat, Obj>, r: nat)
    requires r in os && os[r].rep.Root?
  {
    os[r].rep.num >= |Sharers(os, r)| + (if os[r].visible then 1 else 0)
  }

  /** The count of root r covers one window more than it has. */
  predicate RoomForSharer(s: State, r: nat)
    requires r in s.objs && s.objs[r].rep.Root?
  {
    s.objs[r].rep.num >= |Sharers(s.objs, r)| + 1 + (if s.objs[r].visible then 1 else 0)
  }

  predicate HasBuf(o: Obj) {
    o.rep.Own? || o.rep.Root?
  }

  function BufOf(o: Obj): nat
    requires HasBuf(o)
  {
    if o.rep.Own? then o.rep.buf else o.rep.rbuf
  }

  /** One object is well formed in the state. */
  predicate ObjOk(s: State, a: nat)
    requires a in s.objs
  {
    var o := s.objs[a];
    && (match o.rep
        case Embed(slots, n) => o.visible && |slots| == EMBED_LEN_MAX && n <= EMBED_LEN_MAX
        case Own(b, n) => o.visible && b in s.bufs && n <= |s.bufs[b]|
        case Win(r, off, n) =>
          && o.visible && r in s.objs && s.objs[r].rep.Root?
          && s.objs[r].rep.rbuf in s.bufs && off + n <= |s.bufs[s.objs[r].rep.rbuf]|
        case Root(b, num) => o.frozen && b in s.bufs && 1 <= num && Counted(s.objs, a))
  }

  /** No two objects hold the same buffer. */
  predicate Exclusive(os: map<nat, Obj>) {
    forall a, b {:trigger os[a], os[b]} ::
      a in os && b in os && a != b && HasBuf(os[a]) && HasBuf(os[b]) ==> BufOf(os[a]) != BufOf(os[b])
  }

  predicate Inv(s: State) {
    && (forall a {:trigger ObjOk(s, a)} :: a in s.objs ==> ObjOk(s, a))
    && Exclusive(s.objs)
    && (forall a {:trigger a in s.objs} :: a in s.objs ==> a < s.next)
    && (forall b {:trigger b in s.bufs} :: b in s.bufs ==> b < s.next)
  }

  /** The storage from the array's pointer on: its elements and the room behind them. */
  function Tail(s: State, a: nat): seq<Value>
    requires Inv(s) && a in s.objs
  {
    assert ObjOk(s, a);
    match s.objs[a].rep
    case Embed(slots, _) => slots
    case Own(b, _) => s.bufs[b]
    case Win(r, off, _) => s.bufs[s.objs[r].rep.rbuf][off..]
    case Root(b, _) => s.bufs[b]
  }

  function Len(s: State, a: nat): nat
    requires Inv(s) && a in s.objs
    ensures Len(s, a) <= |Tail(s, a)|
  {
    assert ObjOk(s, a);
    match s.objs[a].rep
    case Embed(_, n) => n
    case Own(_, n) => n
    case Win(_, _, n) => n
    case Root(b, _) => |s.bufs[b]|
  }

  /** The elements of an array, which is all a Ruby program sees of it. */
  function View(s: State, a: nat): seq<Value>
    requires Inv(s) && a in s.objs
  {
    Tail(s, a)[..Len(s, a)]
  }

  predicate Visible(s: State, a: nat) {
    a in s.objs && s.objs[a].visible
  }

  /** Object b and the storage it stands for are the same in both states; only the count of a
      root may differ. */
  predicate Steady(s: State, s': State, b: nat) {
    && b in s.objs && b in s'.objs
    && s'.objs[b].visible == s.objs[b].visible && s'.objs[b].frozen == s.objs[b].frozen
    && (match s.objs[b].rep
        case Embed(_, _) => s'.objs[b].rep == s.objs[b].rep
        case Own(f, _) => s'.objs[b].rep == s.objs[b].rep && SameBuf(s, s', f)
        case Win(r, _, _) => s'.objs[b].rep == s.objs[b].rep && SameRoot(s, s', r)
        case Root(_, _) => SameRoot(s, s', b))
  }

  predicate SameBuf(s: State, s': State, f: nat) {
    f in s.bufs && f in s'.bufs && s'.bufs[f] == s.bufs[f]
  }

  predicate SameRoot(s: State, s': State, r: nat) {
    && r in s.objs && r in s'.objs && s.objs[r].rep.Root? && s'.objs[r].rep.Root?
    && s'.objs[r].rep.rbuf == s.objs[r].rep.rbuf && SameBuf(s, s', s.objs[r].rep.rbuf)
  }

  lemma SteadyOk(s: State, s': State, b: nat)
    requires Steady(s, s', b) && ObjOk(s, b)
    requires s'.objs[b].rep.Root? ==> 1 <= s'.objs[b].rep.num && Counted(s'.objs, b)
    ensures ObjOk(s', b)
  {
  }

  lemma SteadyView(s: State, s': State, b: nat)
    requires Inv(s) && Inv(s') && Steady(s, s', b)
    ensures View(s', b) == View(s, b)
  {
  }

  /** Every array but a keeps its elements and its frozen flag, and no array appears or
      disappears but a. */
  ghost predicate OnlyChanges(s: State, s': State, a: nat)
    requires Inv(s) && Inv(s')
  {
    && s.next <= s'.next
    && (forall b {:trigger Visible(s', b)} {:trigger Visible(s, b)} :: b != a ==> (Visible(s, b) <==> Visible(s', b)))
    && (forall b {:trigger View(s', b)} ::
          b != a && Visible(s, b) ==> View(s', b) == View(s, b) && s'.objs[b].frozen == s.objs[b].frozen)
  }

  /** The storage of a may be written in place: it is its own, or the window is the only user
      of its root (ARY_SHARED_OCCUPIED). */
  predicate Writable(s: State, a: nat)
    requires Inv(s) && a in s.objs
  {
    assert ObjOk(s, a);
    match s.objs[a].rep
    case Embed(_, _) => true
    case Own(_, _) => true
    case Win(r, _, _) => s.objs[r].rep.num == 1
    case Root(_, _) => false
  }

  lemma SoleSharer(os: map<nat, Obj>, r: nat, a: nat)
    requires r in os && os[r].rep.Root? && Counted(os, r) && os[r].rep.num == 1 && a in Sharers(os, r)
    ensures Sharers(os, r) == {a} && !os[r].visible
  {
    var rest := Sharers(os, r) - {a};
    assert |Sharers(os, r)| == |rest| + 1;
    assert rest == {};
    assert Sharers(os, r) == {a};
  }

  function Overwrite(t: seq<Value>, i: nat, vals: seq<Value>): (r: seq<Value>)
    requires i + |vals| <= |t|
    ensures |r| == |t|
  {
    t[..i] + vals + t[i + |vals|..]
  }

  /** The buffers that objects other than a hold are as before. */
  ghost predicate OtherBufsKept(s: State, s': State, a: nat) {
    forall b {:trigger s.objs[b]} ::
      b in s.objs && b != a && HasBuf(s.objs[b]) && BufOf(s.objs[b]) in s.bufs
      ==> BufOf(s.objs[b]) in s'.bufs && s'.bufs[BufOf(s.objs[b])] == s.bufs[BufOf(s.objs[b])]
  }

  /** Giving array a another representation, with whatever buffers change along with it,
      touches no other array, as long as it takes no buffer of another object, leaves their
      buffers alone, and is counted by the root it now points to. */
  lemma ReplaceOk(s: State, s': State, a: nat)
    requires Inv(s) && Visible(s, a) && !s.objs[a].rep.Root?
    requires a in s'.objs && s'.objs == s.objs[a := s'.objs[a]] && s.next <= s'.next
    requires s'.objs[a].visible && !s'.objs[a].rep.Root?
    requires forall b :: b in s'.bufs ==> b < s'.next
    requires OtherBufsKept(s, s', a)
    requires s'.objs[a].rep.Embed? ==> |s'.objs[a].rep.slots| == EMBED_LEN_MAX && s'.objs[a].rep.elen <= EMBED_LEN_MAX
    requires s'.objs[a].rep.Own? ==>
              s'.objs[a].rep.buf in s'.bufs && s'.objs[a].rep.len <= |s'.bufs[s'.objs[a].rep.buf]|
    requires s'.objs[a].rep.Own? ==>
               forall b :: b in s.objs && b != a && HasBuf(s.objs[b]) ==> BufOf(s.objs[b]) != s'.objs[a].rep.buf
    requires s'.objs[a].rep.Win? ==>
               var r := s'.objs[a].rep.root;
               && r in s.objs && s.objs[r].rep.Root? && s.objs[r].rep.rbuf in s.bufs
               && s'.objs[a].rep.off + s'.objs[a].rep.wlen <= |s.bufs[s.objs[r].rep.rbuf]|
               && (a in Sharers(s.objs, r) || RoomForSharer(s, r))
    ensures Inv(s') && OnlyChanges(s, s', a)
  {
    forall b | b in s'.objs
      ensures ObjOk(s', b)
    {
      if b != a {
        ReplaceSteady(s, s', a, b);
        assert ObjOk(s, b);
        if s.objs[b].rep.Root? { SharersAfter(s.objs, s'.objs, a, b); }
        SteadyOk(s, s', b);
      }
    }
    assert Inv(s');
    forall b | b != a && Visible(s, b)
      ensures View(s', b) == View(s, b)
    {
      ReplaceSteady(s, s', a, b);
      SteadyView(s, s', b);
    }
  }

  lemma ReplaceSteady(s: State, s': State, a: nat, b: nat)
    requires Inv(s) && Visible(s, a) && !s.objs[a].rep.Root?
    requires a in s'.objs && s'.objs == s.objs[a := s'.objs[a]] && OtherBufsKept(s, s', a) && b in s.objs && b != a
    ensures Steady(s, s', b)
  {
    assert ObjOk(s, b);
    if s.objs[b].rep.Win? { assert ObjOk(s, s.objs[b].rep.root); }
  }

  lemma SharersAfter(os: map<nat, Obj>, os': map<nat, Obj>, a: nat, r: nat)
    requires a in os && a in os' && os' == os[a := os'[a]] && a != r && r in os
    ensures Sharers(os', r)
         == (if os'[a].rep.Win? && os'[a].rep.root == r then Sharers(os, r) + {a} else Sharers(os, r) - {a})
    ensures |Sharers(os', r)|
         <= |Sharers(os, r)| + (if os'[a].rep.Win? && os'[a].rep.root == r && a !in Sharers(os, r) then 1 else 0)
    ensures a in Sharers(os, r) && !(os'[a].rep.Win? && os'[a].rep.root == r) ==>
              |Sharers(os', r)| == |Sharers(os, r)| - 1
  {
    assert Sharers(os', r)
        == (if os'[a].rep.Win? && os'[a].rep.root == r then Sharers(os, r) + {a} else Sharers(os, r) - {a});
    WithOrWithout(Sharers(os, r), a);
  }

  lemma WithOrWithout(s: set<nat>, a: nat)
    ensures if a in s then s + {a} == s && |s - {a}| == |s| - 1 else s - {a} == s && |s + {a}| == |s| + 1
  {
    if a in s {
      assert s + {a} == s;
    } else {
      assert s - {a} == s;
    }
  }

  /** An overwrite of the storage of a, from index i behind its pointer on */
  function Poked(s: State, a: nat, i: nat, vals: seq<Value>): State
    requires Inv(s) && a in s.objs && Writable(s, a) && i + |vals| <= |Tail(s, a)|
  {
    assert ObjOk(s, a);
    match s.objs[a].rep
    case Embed(slots, n) => s.(objs := s.objs[a := s.objs[a].(rep := Embed(Overwrite(slots, i, vals), n))])
    case Own(b, _) => s.(bufs := s.bufs[b := Overwrite(s.bufs[b], i, vals)])
    case Win(r, off, _) =>
      var b := s.objs[r].rep.rbuf;
      s.(bufs := s.bufs[b := Overwrite(s.bufs[b], off + i, vals)])
  }

  lemma PokeOk(s: State, a: nat, i: nat, vals: seq<Value>)
    requires Inv(s) && Visible(s, a) && Writable(s, a) && i + |vals| <= |Tail(s, a)|
    ensures var s' := Poked(s, a, i, vals);
            && Inv(s') && OnlyChanges(s, s', a) && Visible(s', a) && Writable(s', a)
            && Tail(s', a) == Overwrite(Tail(s, a), i, vals) && Len(s', a) == Len(s, a)
  {
    var s' := Poked(s, a, i, vals);
    assert ObjOk(s, a);
    match s.objs[a].rep
    case Embed(_, _) =>
      ReplaceOk(s, s', a);
    case Own(_, _) =>
      PokeOwnOk(s, a, i, vals);
    case Win(_, _, _) =>
      PokeRootOk(s, s', a);
  }

  lemma PokeOwnOk(s: State, a: nat, i: nat, vals: seq<Value>)
    requires Inv(s) && Visible(s, a) && s.objs[a].rep.Own? && i + |vals| <= |Tail(s, a)|
    ensures var s' := Poked(s, a, i, vals); Inv(s') && OnlyChanges(s, s', a)
  {
    var s' := Poked(s, a, i, vals);
    assert ObjOk(s, a);
    assert s'.objs == s.objs[a := s'.objs[a]];
    ReplaceOk(s, s', a);
  }

  /** Writing through a window that is the only user of its root changes no other array. */
  lemma PokeRootOk(s: State, s': State, a: nat)
    requires Inv(s) && Visible(s, a) && s.objs[a].rep.Win? && Writable(s, a) && s.objs[a].rep.root in s.objs
    requires s.objs[s.objs[a].rep.root].rep.Root?
    requires var b := s.objs[s.objs[a].rep.root].rep.rbuf;
             b in s.bufs && b in s'.bufs && s' == s.(bufs := s.bufs[b := s'.bufs[b]]) && |s'.bufs[b]| == |s.bufs[b]|
    ensures Inv(s') && OnlyChanges(s, s', a)
  {
    var r := s.objs[a].rep.root;
    assert ObjOk(s, r);
    assert a in Sharers(s.objs, r);
    SoleSharer(s.objs, r, a);
    forall b | b in s'.objs
      ensures ObjOk(s', b)
    {
      assert ObjOk(s, b);
    }
    assert Inv(s');
    forall b | b != a && Visible(s, b)
      ensures View(s', b) == View(s, b)
    {
      assert ObjOk(s, b);
      assert b !in Sharers(s.objs, r);
      SteadyView(s, s', b);
    }
  }

  /** Nothing a program can see has changed. */
  ghost predicate Unseen(s: State, s': State)
    requires Inv(s) && Inv(s')
  {
    && s.next <= s'.next
    && (forall b {:trigger Visible(s', b)} {:trigger Visible(s, b)} :: Visible(s, b) <==> Visible(s', b))
    && (forall b {:trigger View(s', b)} ::
          Visible(s, b) ==> View(s', b) == View(s, b) && s'.objs[b].frozen == s.objs[b].frozen)
  }

  function WithCount(s: State, r: nat, num: int): State
    requires r in s.objs && s.objs[r].rep.Root?
  {
    s.(objs := s.objs[r := s.objs[r].(rep := Root(s.objs[r].rep.rbuf, num))])
  }

  lemma SameSharers(os: map<nat, Obj>, os': map<nat, Obj>, r: nat)
    requires forall a :: a in os' && os'[a].rep.Win? <==> a in os && os[a].rep.Win?
    requires forall a :: a in os && os[a].rep.Win? ==> os'[a].rep.root == os[a].rep.root
    ensures Sharers(os', r) == Sharers(os, r)
  {
  }

  lemma CountOk(s: State, r: nat, num: int)
    requires Inv(s) && r in s.objs && s.objs[r].rep.Root? && 1 <= num
    requires num >= |Sharers(s.objs, r)| + (if s.objs[r].visible then 1 else 0)
    ensures Inv(WithCount(s, r, num)) && Unseen(s, WithCount(s, r, num))
    ensures Sharers(WithCount(s, r, num).objs, r) == Sharers(s.objs, r)
  {
    var s' := WithCount(s, r, num);
    CountInv(s, r, num);
    SameSharers(s.objs, s'.objs, r);
    hide Inv;
    forall b | Visible(s, b)
      ensures View(s', b) == View(s, b)
    {
      CountSteady(s, r, num, b);
      SteadyView(s, s', b);
    }
  }

  lemma CountSteady(s: State, r: nat, num: int, b: nat)
    requires Inv(s) && r in s.objs && s.objs[r].rep.Root? && 1 <= num && b in s.objs
    requires num >= |Sharers(s.objs, r)| + (if s.objs[r].visible then 1 else 0)
    ensures ObjOk(WithCount(s, r, num), b) && Steady(s, WithCount(s, r, num), b)
  {
    var s' := WithCount(s, r, num);
    assert ObjOk(s, b);
    if s.objs[b].rep.Win? { assert ObjOk(s, s.objs[b].rep.root); }
    SameSharers(s.objs, s'.objs, b);
    SteadyOk(s, s', b);
  }

  lemma CountInv(s: State, r: nat, num: int)
    requires Inv(s) && r in s.objs && s.objs[r].rep.Root? && 1 <= num
    requires num >= |Sharers(s.objs, r)| + (if s.objs[r].visible then 1 else 0)
    ensures Inv(WithCount(s, r, num))
  {
    var s' := WithCount(s, r, num);
    CountExclusive(s, r, num);
    hide ObjOk, Exclusive;
    forall b | b in s'.objs
      ensures ObjOk(s', b)
    {
      CountSteady(s, r, num, b);
    }
  }

  lemma CountExclusive(s: State, r: nat, num: int)
    requires Exclusive(s.objs) && r in s.objs && s.objs[r].rep.Root?
    ensures Exclusive(WithCount(s, r, num).objs)
  {
  }

  /** rb_ary_free and rb_gc_force_recycle on a shared root: the object goes, and with it its
      buffer unless that was taken over (FL_SET_EMBED on the root). */
  function WithoutRoot(s: State, r: nat, freeBuf: bool): State
    requires r in s.objs && s.objs[r].rep.Root?
  {
    State(s.objs - {r}, if freeBuf then s.bufs - {s.objs[r].rep.rbuf} else s.bufs, s.next)
  }

  lemma WithoutRootOk(s: State, r: nat)
    requires Inv(s) && r in s.objs && s.objs[r].rep.Root? && Sharers(s.objs, r) == {} && !s.objs[r].visible
    ensures Inv(WithoutRoot(s, r, true)) && Unseen(s, WithoutRoot(s, r, true))
  {
    var s' := WithoutRoot(s, r, true);
    assert ObjOk(s, r);
    forall b | b in s'.objs
      ensures ObjOk(s', b) && Steady(s, s', b)
    {
      assert ObjOk(s, b);
      assert b !in Sharers(s.objs, r);
      if s.objs[b].rep.Win? { assert ObjOk(s, s.objs[b].rep.root); }
      SameSharers(s.objs, s'.objs, b);
      SteadyOk(s, s', b);
    }
    assert Inv(s');
    forall b | Visible(s, b)
      ensures View(s', b) == View(s, b)
    {
      SteadyView(s, s', b);
    }
  }

  /** The occupied root of window a gives up its buffer to a. */
  function TakenOver(s: State, a: nat, contents: seq<Value>): State
    requires a in s.objs && s.objs[a].rep.Win? && s.objs[a].rep.root in s.objs && s.objs[s.objs[a].rep.root].rep.Root?
  {
    var r := s.objs[a].rep.root;
    var b := s.objs[r].rep.rbuf;
    State((s.objs - {r})[a := s.objs[a].(rep := Own(b, s.objs[a].rep.wlen))], s.bufs[b := contents], s.next)
  }

  lemma TakeOverOk(s: State, a: nat, contents: seq<Value>)
    requires Inv(s) && Visible(s, a) && s.objs[a].rep.Win? && Writable(s, a)
    requires s.objs[a].rep.root in s.objs && s.objs[s.objs[a].rep.root].rep.Root? && s.objs[a].rep.wlen <= |contents|
    ensures var s' := TakenOver(s, a, contents);
            && Inv(s') && OnlyChanges(s, s', a) && Visible(s', a)
            && Tail(s', a) == contents && Len(s', a) == s.objs[a].rep.wlen
  {
    var r := s.objs[a].rep.root;
    var s' := TakenOver(s, a, contents);
    assert ObjOk(s, r) && ObjOk(s, a) && a in Sharers(s.objs, r);
    SoleSharer(s.objs, r, a);
    forall b | b in s'.objs && b != a
      ensures ObjOk(s', b) && Steady(s, s', b)
    {
      assert ObjOk(s, b) && b !in Sharers(s.objs, r);
      if s.objs[b].rep.Win? { assert ObjOk(s, s.objs[b].rep.root); }
      if s.objs[b].rep.Root? { OtherSharers(s.objs, s'.objs, a, r, b); }
      SteadyOk(s, s', b);
    }
    assert ObjOk(s', a);
    assert Inv(s');
    forall b | b != a && Visible(s, b)
      ensures View(s', b) == View(s, b)
    {
      SteadyView(s, s', b);
    }
  }

  lemma OtherSharers(os: map<nat, Obj>, os': map<nat, Obj>, a: nat, r: nat, b: nat)
    requires a in os && r in os && b in os && a != r && b != r && os[a].rep.Win? && os[a].rep.root == r
    requires os[r].rep.Root?
    requires a in os' && os' == (os - {r})[a := os'[a]] && !os'[a].rep.Win?
    ensures Sharers(os', b) == Sharers(os, b)
  {
  }

  /** ary_make_shared of an unfrozen array: its buffer goes to a new hidden root, of which the
      array becomes the first window.  The room behind its elements is cleared. */
  function MadeShared(s: State, a: nat): State
    requires a in s.objs && s.objs[a].rep.Own? && s.objs[a].rep.buf in s.bufs
    requires s.objs[a].rep.len <= |s.bufs[s.objs[a].rep.buf]|
  {
    var b, n := s.objs[a].rep.buf, s.objs[a].rep.len;
    State(s.objs[s.next := Obj(Root(b, 1), true, false)][a := s.objs[a].(rep := Win(s.next, 0, n))],
          s.bufs[b := s.bufs[b][..n] + seq(|s.bufs[b]| - n, _ => Nil)], s.next + 1)
  }

  lemma MadeSharedInv(s: State, a: nat)
    requires Inv(s) && Visible(s, a) && s.objs[a].rep.Own? && s.objs[a].rep.buf in s.bufs
    requires s.objs[a].rep.len <= |s.bufs[s.objs[a].rep.buf]|
    ensures var s' := MadeShared(s, a);
            Inv(s') && Visible(s', a) && s.next in s'.objs && Sharers(s'.objs, s.next) == {a}
  {
    var r, s' := s.next, MadeShared(s, a);
    assert ObjOk(s, a);
    NextIsNew(s);
    NoSharers(s, r);
    assert Sharers(s'.objs, r) == {a} by {
      assert forall c :: c in Sharers(s'.objs, r) ==> c == a || c in Sharers(s.objs, r);
    }
    forall b | b in s.objs && b != a
      ensures ObjOk(s', b)
    {
      MadeSharedSteady(s, a, b);
    }
    assert ObjOk(s', a) && ObjOk(s', r);
    MadeSharedExclusive(s, a);
  }

  lemma MadeSharedExclusive(s: State, a: nat)
    requires Inv(s) && Visible(s, a) && s.objs[a].rep.Own? && s.objs[a].rep.buf in s.bufs
    requires s.objs[a].rep.len <= |s.bufs[s.objs[a].rep.buf]|
    ensures Exclusive(MadeShared(s, a).objs)
  {
    NextIsNew(s);
  }

  lemma MadeSharedOk(s: State, a: nat)
    requires Inv(s) && Visible(s, a) && s.objs[a].rep.Own? && s.objs[a].rep.buf in s.bufs
    requires s.objs[a].rep.len <= |s.bufs[s.objs[a].rep.buf]|
    ensures var s' := MadeShared(s, a);
            && Inv(s') && OnlyChanges(s, s', a) && Visible(s', a) && View(s', a) == View(s, a)
            && |Tail(s', a)| == |Tail(s, a)| && Writable(s', a) && s.next in s'.objs && Sharers(s'.objs, s.next) == {a}
  {
    var s' := MadeShared(s, a);
    MadeSharedInv(s, a);
    NextIsNew(s);
    hide Inv;
    forall b | b != a && Visible(s, b)
      ensures View(s', b) == View(s, b)
    {
      MadeSharedSteady(s, a, b);
      SteadyView(s, s', b);
    }
  }

  lemma MadeSharedSteady(s: State, a: nat, b: nat)
    requires Inv(s) && Visible(s, a) && s.objs[a].rep.Own? && s.objs[a].rep.buf in s.bufs
    requires s.objs[a].rep.len <= |s.bufs[s.objs[a].rep.buf]|
    requires b in s.objs && b != a
    ensures Steady(s, MadeShared(s, a), b) && ObjOk(MadeShared(s, a), b)
  {
    var s' := MadeShared(s, a);
    NextIsNew(s);
    assert ObjOk(s, b);
    if s.objs[b].rep.Win? { assert ObjOk(s, s.objs[b].rep.root); }
    if s.objs[b].rep.Root? { assert Sharers(s'.objs, b) == Sharers(s.objs, b); }
    SteadyOk(s, s', b);
  }

  lemma NextIsNew(s: State)
    requires Inv(s)
    ensures s.next !in s.objs && s.next !in s.bufs
  {
  }

  lemma NoSharers(s: State, r: nat)
    requires Inv(s) && (r in s.objs ==> !s.objs[r].rep.Root?)
    ensures Sharers(s.objs, r) == {}
  {
    forall a | a in s.objs && s.objs[a].rep.Win?
      ensures s.objs[a].rep.root != r
    {
      assert ObjOk(s, a);
    }
  }

  /** ary_make_shared of a frozen array: its buffer is shrunk to its length and it becomes a
      root itself. */
  function MadeRoot(s: State, a: nat): State
    requires a in s.objs && s.objs[a].rep.Own? && s.objs[a].rep.buf in s.bufs
    requires s.objs[a].rep.len <= |s.bufs[s.objs[a].rep.buf]|
  {
    var b, n := s.objs[a].rep.buf, s.objs[a].rep.len;
    State(s.objs[a := s.objs[a].(rep := Root(b, 1))], s.bufs[b := s.bufs[b][..n]], s.next)
  }

  lemma MadeRootOk(s: State, a: nat)
    requires Inv(s) && Visible(s, a) && s.objs[a].frozen
    requires s.objs[a].rep.Own? && s.objs[a].rep.buf in s.bufs && s.objs[a].rep.len <= |s.bufs[s.objs[a].rep.buf]|
    ensures Inv(MadeRoot(s, a)) && Unseen(s, MadeRoot(s, a)) && Sharers(MadeRoot(s, a).objs, a) == {}
  {
    var s' := MadeRoot(s, a);
    NoSharers(s, a);
    SameSharers(s.objs, s'.objs, a);
    MadeRootInv(s, a);
    assert ObjOk(s, a);
    hide Inv;
    forall b | b != a && Visible(s, b)
      ensures View(s', b) == View(s, b)
    {
      MadeRootSteady(s, a, b);
      SteadyView(s, s', b);
    }
  }

  lemma MadeRootInv(s: State, a: nat)
    requires Inv(s) && Visible(s, a) && s.objs[a].frozen
    requires s.objs[a].rep.Own? && s.objs[a].rep.buf in s.bufs && s.objs[a].rep.len <= |s.bufs[s.objs[a].rep.buf]|
    requires Sharers(MadeRoot(s, a).objs, a) == {}
    ensures Inv(MadeRoot(s, a))
  {
    var s' := MadeRoot(s, a);
    MadeRootExclusive(s, a);
    assert ObjOk(s, a);
    assert ObjOk(s', a);
    hide ObjOk, Exclusive;
    forall b | b in s'.objs && b != a
      ensures ObjOk(s', b)
    {
      MadeRootSteady(s, a, b);
    }
  }

  lemma MadeRootExclusive(s: State, a: nat)
    requires Inv(s) && Visible(s, a) && s.objs[a].rep.Own? && s.objs[a].rep.buf in s.bufs
    requires s.objs[a].rep.len <= |s.bufs[s.objs[a].rep.buf]|
    ensures Exclusive(MadeRoot(s, a).objs)
  {
  }

  lemma MadeRootSteady(s: State, a: nat, b: nat)
    requires Inv(s) && Visible(s, a) && s.objs[a].rep.Own? && s.objs[a].rep.buf in s.bufs
    requires s.objs[a].rep.len <= |s.bufs[s.objs[a].rep.buf]|
    requires b in s.objs && b != a
    ensures Steady(s, MadeRoot(s, a), b) && ObjOk(MadeRoot(s, a), b)
  {
    var s' := MadeRoot(s, a);
    assert ObjOk(s, b);
    if s.objs[b].rep.Win? { assert ObjOk(s, s.objs[b].rep.root); }
    SameSharers(s.objs, s'.objs, b);
    SteadyOk(s, s', b);
  }

  /** A new array */
  function WithArray(s: State, rep: Rep, buf: seq<Value>): State {
    State(s.objs[s.next := Obj(rep, false, true)], if rep.Own? then s.bufs[rep.buf := buf] else s.bufs, s.next + 2)
  }

  lemma WithArrayOk(s: State, rep: Rep, buf: seq<Value>)
    requires Inv(s)
    requires match rep
             case Embed(slots, n) => |slots| == EMBED_LEN_MAX && n <= EMBED_LEN_MAX
             case Own(b, n) => b == s.next + 1 && n <= |buf|
             case Win(r, off, n) =>
               && r in s.objs && s.objs[r].rep.Root? && s.objs[r].rep.rbuf in s.bufs
               && off + n <= |s.bufs[s.objs[r].rep.rbuf]| && RoomForSharer(s, r)
             case Root(_, _) => false
    ensures var s' := WithArray(s, rep, buf);
            && Inv(s') && OnlyChanges(s, s', s.next)
            && Visible(s', s.next) && !Visible(s, s.next) && !s'.objs[s.next].frozen
  {
    var a, s' := s.next, WithArray(s, rep, buf);
    NextIsNew(s);
    forall b | b in s.objs
      ensures ObjOk(s', b) && Steady(s, s', b)
    {
      assert ObjOk(s, b);
      if s.objs[b].rep.Win? { assert ObjOk(s, s.objs[b].rep.root); }
      if s.objs[b].rep.Root? { NewSharer(s.objs, s'.objs, a, b); }
      SteadyOk(s, s', b);
    }
    assert ObjOk(s', a);
    WithArrayExclusive(s, rep, buf);
    assert Inv(s');
    forall b | b != a && Visible(s, b)
      ensures View(s', b) == View(s, b)
    {
      SteadyView(s, s', b);
    }
  }

  lemma WithArrayExclusive(s: State, rep: Rep, buf: seq<Value>)
    requires Inv(s) && !rep.Root? && (rep.Own? ==> rep.buf == s.next + 1)
    ensures Exclusive(WithArray(s, rep, buf).objs)
  {
    NextIsNew(s);
    forall b | b in s.objs && HasBuf(s.objs[b])
      ensures BufOf(s.objs[b]) < s.next
    {
      assert ObjOk(s, b);
    }
  }

  lemma NewSharer(os: map<nat, Obj>, os': map<nat, Obj>, a: nat, r: nat)
    requires a !in os && a in os' && os' == os[a := os'[a]] && r in os
    ensures |Sharers(os', r)| == |Sharers(os, r)| + (if os'[a].rep.Win? && os'[a].rep.root == r then 1 else 0)
  {
    if os'[a].rep.Win? && os'[a].rep.root == r {
      assert Sharers(os', r) == Sharers(os, r) + {a};
    } else {
      assert Sharers(os', r) == Sharers(os, r);
    }
  }
}
