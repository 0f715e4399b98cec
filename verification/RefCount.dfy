/**
  Reference-counted handles. The memory holds the counters and objects that have not been
  deleted; a handle names one counter and one object, or nothing.
  */
module RefCounting {
  import opened Options

  type Handle = nat
  type Cell = nat
  type Obj = nat
  datatype Ref = Null | Ref(used: Cell, obj: Obj)
  datatype Op =
    | NewEmpty(h: Handle)
    | Wrap(h: Handle, obj: Obj, cell: Cell)
    | Copy(h: Handle, src: Handle)
    | Assign(h: Handle, src: Handle)
    | Destroy(h: Handle)

  datatype World = World(handles: map<Handle, Ref>, counters: map<Cell, nat>, objects: set<Obj>, deleted: seq<Obj>)

  function Holders(handles: map<Handle, Ref>, c: Cell): set<Handle>
  {
    set h | h in handles && handles[h].Ref? && handles[h].used == c
  }

  function Holds(r: Ref, c: Cell): nat
  {
    if r.Ref? && r.used == c then 1 else 0
  }

  lemma Split(s: set<Handle>, h: Handle)
    ensures |s| == |s - {h}| + if h in s then 1 else 0
  {
    if h in s {
      assert s == (s - {h}) + {h};
    } else {
      assert s == s - {h};
    }
  }

  lemma HoldersUpdate(handles: map<Handle, Ref>, h: Handle, r: Ref, c: Cell)
    ensures |Holders(handles[h := r], c)| ==
      |Holders(handles, c)| - (if h in handles then Holds(handles[h], c) else 0) + Holds(r, c)
  {
    var before, after := Holders(handles, c), Holders(handles[h := r], c);
    OthersSame(handles, h, r, c);
    Split(before, h);
    Split(after, h);
    assert h in before <==> h in handles && Holds(handles[h], c) == 1;
    assert h in after <==> Holds(r, c) == 1;
    hide Holders;
  }

  lemma OthersSame(handles: map<Handle, Ref>, h: Handle, r: Ref, c: Cell)
    ensures Holders(handles[h := r], c) - {h} == Holders(handles, c) - {h}
  {
  }

  lemma HoldersRemove(handles: map<Handle, Ref>, h: Handle, c: Cell)
    requires h in handles
    ensures |Holders(handles - {h}, c)| == |Holders(handles, c)| - Holds(handles[h], c)
  {
    var before, after := Holders(handles, c), Holders(handles - {h}, c);
    assert after == before - {h};
    assert h in before <==> Holds(handles[h], c) == 1;
  }

  /** Every counter counts its handles, and what is counted is alive. */
  ghost predicate Counted(w: World)
  {
    && (forall c <- w.counters :: w.counters[c] == |Holders(w.handles, c)| > 0)
    && (forall h <- w.handles :: w.handles[h].Ref? ==> w.handles[h].used in w.counters && w.handles[h].obj in w.objects)
  }

  /** One counter per object, and objects live exactly as long as they are held. */
  ghost predicate Owned(w: World)
  {
    && (forall g, h :: g in w.handles && h in w.handles && w.handles[g].Ref? && w.handles[h].Ref? ==>
          (w.handles[g].used == w.handles[h].used <==> w.handles[g].obj == w.handles[h].obj))
    && (forall o <- w.objects :: o !in w.deleted && exists h :: h in w.handles && w.handles[h].Ref? && w.handles[h].obj == o)
    && (forall i, j :: 0 <= i < j < |w.deleted| ==> w.deleted[i] != w.deleted[j])
  }

  ghost predicate Exact(w: World)
  {
    Counted(w) && Owned(w)
  }

  // ---- counting references up and down

  /** One more reference, unless it is to nothing. */
  function Increment(w: World, r: Ref): World
    requires r.Ref? ==> r.used in w.counters
  {
    if r.Null? then w else w.(counters := w.counters[r.used := w.counters[r.used] + 1])
  }

  /** One reference less; with the last one the counter and its object go. */
  function Release(w: World, r: Ref): World
    requires r.Ref? ==> r.used in w.counters && w.counters[r.used] > 0 && r.obj in w.objects
  {
    if r.Null? then w
    else if w.counters[r.used] > 1 then w.(counters := w.counters[r.used := w.counters[r.used] - 1])
    else w.(counters := w.counters - {r.used}, objects := w.objects - {r.obj}, deleted := w.deleted + [r.obj])
  }

  function Bound(w: World, h: Handle): Ref
  {
    if h in w.handles then w.handles[h] else Null
  }

  /** Makes `h` refer to `r`: count the new reference, then release the old one. */
  function Rebind(w: World, h: Handle, r: Ref): World
    requires r.Ref? ==> r.used in w.counters
    requires Bound(w, h).Ref? ==>
      Bound(w, h).used in w.counters && w.counters[Bound(w, h).used] > 0 && Bound(w, h).obj in w.objects
  {
    var done := Release(Increment(w, r), Bound(w, h));
    done.(handles := done.handles[h := r])
  }

  lemma OnlyHolder(handles: map<Handle, Ref>, c: Cell, h: Handle, g: Handle)
    requires |Holders(handles, c)| == 1 && h in Holders(handles, c) && g in Holders(handles, c)
    ensures g == h
  {
    Split(Holders(handles, c), h);
  }

  /** When the last reference goes, no other handle has the counter or the object. */
  lemma LastReference(w: World, h: Handle, g: Handle)
    requires Exact(w) && h in w.handles && w.handles[h].Ref? && w.counters[w.handles[h].used] == 1
    requires g in w.handles && w.handles[g].Ref? && g != h
    ensures w.handles[g].used != w.handles[h].used && w.handles[g].obj != w.handles[h].obj
  {
    var c := w.handles[h].used;
    assert h in Holders(w.handles, c);
    if w.handles[g].used == c {
      OnlyHolder(w.handles, c, h, g);
    }
  }

  ghost predicate Known(w: World, r: Ref)
  {
    r.Ref? ==> exists g :: g in w.handles && w.handles[g] == r
  }

  lemma RebindCounted(w: World, h: Handle, r: Ref)
    requires Exact(w) && Known(w, r)
    ensures Counted(Rebind(w, h, r))
  {
    var v := Rebind(w, h, r);
    var was := Bound(w, h);
    forall c | c in v.counters ensures v.counters[c] == |Holders(v.handles, c)| > 0 {
      HoldersUpdate(w.handles, h, r, c);
    }
    forall g | g in v.handles && v.handles[g].Ref?
      ensures v.handles[g].used in v.counters && v.handles[g].obj in v.objects
    {
      if was.Ref? && w.counters[was.used] == 1 {
        if g != h {
          LastReference(w, h, g);
        } else if r.used != was.used {
          var src :| src in w.handles && w.handles[src] == r;
          LastReference(w, h, src);
        }
      }
    }
  }

  lemma RebindOwned(w: World, h: Handle, r: Ref)
    requires Exact(w) && Known(w, r)
    ensures Owned(Rebind(w, h, r))
  {
    var v := Rebind(w, h, r);
    var was := Bound(w, h);
    forall o | o in v.objects ensures exists g :: g in v.handles && v.handles[g].Ref? && v.handles[g].obj == o {
      var g :| g in w.handles && w.handles[g].Ref? && w.handles[g].obj == o;
      if g != h {
        assert v.handles[g] == w.handles[g];
      } else if r == was {
        assert v.handles[h] == r;
      } else {
        var other := AnotherHolder(w, h, r);
        assert v.handles[other].obj == o;
      }
    }
  }

  /** If the object survives the loss of this reference, another handle holds it. */
  lemma AnotherHolder(w: World, h: Handle, r: Ref) returns (g: Handle)
    requires Exact(w) && Known(w, r) && h in w.handles && w.handles[h].Ref? && w.handles[h] != r
    requires w.handles[h].obj in Rebind(w, h, r).objects
    ensures g in w.handles && g != h && w.handles[g].Ref? && w.handles[g].obj == w.handles[h].obj
  {
    var c := w.handles[h].used;
    var hs := Holders(w.handles, c);
    if r.Ref? {
      var src :| src in w.handles && w.handles[src] == r;
      assert r.used != c;
    }
    assert w.counters[c] > 1;
    Split(hs, h);
    assert hs - {h} != {};
    g :| g in hs - {h};
  }

  // ---- the class

  ghost predicate Allowed(w: World, op: Op)
  {
    match op
    case NewEmpty(h) => h !in w.handles
    case Wrap(h, o, c) => h !in w.handles && o !in w.objects && o !in w.deleted && c !in w.counters
    case Copy(h, src) => h !in w.handles && src in w.handles
    case Assign(h, src) => h in w.handles && src in w.handles
    case Destroy(h) => h in w.handles
  }

  ghost function Step(w: World, op: Op): World
    requires Exact(w) && Allowed(w, op)
  {
    match op
    case NewEmpty(h) => w.(handles := w.handles[h := Null])
    case Wrap(h, o, c) =>
      w.(handles := w.handles[h := Ref(c, o)], counters := w.counters[c := 1], objects := w.objects + {o})
    case Copy(h, src) => Rebind(w, h, w.handles[src])
    case Assign(h, src) => Rebind(w, h, w.handles[src])
    case Destroy(h) => Release(w, w.handles[h]).(handles := w.handles - {h})
  }

  lemma WrapExact(w: World, h: Handle, o: Obj, c: Cell)
    requires Exact(w) && Allowed(w, Wrap(h, o, c))
    ensures Exact(Step(w, Wrap(h, o, c)))
  {
    var v := Step(w, Wrap(h, o, c));
    assert Holders(w.handles, c) == {};
    forall d | d in v.counters ensures v.counters[d] == |Holders(v.handles, d)| > 0 {
      HoldersUpdate(w.handles, h, Ref(c, o), d);
    }
    forall p | p in v.objects ensures exists g :: g in v.handles && v.handles[g].Ref? && v.handles[g].obj == p {
      if p == o {
        assert v.handles[h].obj == o;
      } else {
        var g :| g in w.handles && w.handles[g].Ref? && w.handles[g].obj == p;
        assert v.handles[g] == w.handles[g];
      }
    }
  }

  /** Dropping a handle that refers to nothing. */
  lemma DropNull(w: World, h: Handle)
    requires Exact(w) && h in w.handles && w.handles[h].Null?
    ensures Exact(w.(handles := w.handles - {h}))
  {
    var v := w.(handles := w.handles - {h});
    forall d | d in v.counters ensures v.counters[d] == |Holders(v.handles, d)| > 0 {
      HoldersRemove(w.handles, h, d);
    }
    forall p | p in v.objects ensures exists g :: g in v.handles && v.handles[g].Ref? && v.handles[g].obj == p {
      var g :| g in w.handles && w.handles[g].Ref? && w.handles[g].obj == p;
      assert v.handles[g] == w.handles[g];
    }
  }

  lemma AddNull(w: World, h: Handle)
    requires Exact(w) && h !in w.handles
    ensures Exact(w.(handles := w.handles[h := Null]))
  {
    var v := w.(handles := w.handles[h := Null]);
    forall d | d in v.counters ensures v.counters[d] == |Holders(v.handles, d)| > 0 {
      HoldersUpdate(w.handles, h, Null, d);
    }
    forall p | p in v.objects ensures exists g :: g in v.handles && v.handles[g].Ref? && v.handles[g].obj == p {
      var g :| g in w.handles && w.handles[g].Ref? && w.handles[g].obj == p;
      assert v.handles[g] == w.handles[g];
    }
  }

  lemma RebindExact(w: World, h: Handle, r: Ref)
    requires Exact(w) && Known(w, r)
    ensures Exact(Rebind(w, h, r))
  {
    RebindCounted(w, h, r);
    RebindOwned(w, h, r);
    hide Counted, Owned, Known;
  }

  lemma DestroyExact(w: World, h: Handle)
    requires Exact(w) && h in w.handles
    ensures Exact(Release(w, w.handles[h]).(handles := w.handles - {h}))
  {
    var v := Rebind(w, h, Null);
    RebindExact(w, h, Null);
    hide Exact;
    DropNull(v, h);
    assert v.handles - {h} == w.handles - {h};
  }

  /** Counts stay exact under every operation. */
  lemma StepExact(w: World, op: Op)
    requires Exact(w) && Allowed(w, op)
    ensures Exact(Step(w, op))
  {
    match op
    case NewEmpty(h) => AddNull(w, h);
    case Wrap(h, o, c) => WrapExact(w, h, o, c);
    case Copy(h, src) => RebindExact(w, h, w.handles[src]);
    case Assign(h, src) => RebindExact(w, h, w.handles[src]);
    case Destroy(h) => DestroyExact(w, h);
  }

  ghost predicate Held(w: World, o: Obj)
  {
    exists h :: h in w.handles && w.handles[h].Ref? && w.handles[h].obj == o
  }

  /** An operation deletes exactly the objects that some handle held before it and none holds after. */
  lemma DeletedWhenLast(w: World, op: Op, o: Obj)
    requires Exact(w) && Allowed(w, op)
    ensures o in Step(w, op).deleted && o !in w.deleted <==> Held(w, o) && !Held(Step(w, op), o)
    ensures w.deleted <= Step(w, op).deleted
  {
    StepExact(w, op);
    AliveIffHeld(w, o);
    AliveIffHeld(Step(w, op), o);
    hide Exact, Held;
  }

  lemma AliveIffHeld(w: World, o: Obj)
    requires Exact(w)
    ensures o in w.objects <==> Held(w, o)
    ensures o in w.objects ==> o !in w.deleted
  {
  }

  ghost predicate AllowedRun(w: World, ops: seq<Op>)
    requires Exact(w)
    decreases |ops|
  {
    ops == [] || (Allowed(w, ops[0]) && (StepExact(w, ops[0]); AllowedRun(Step(w, ops[0]), ops[1..])))
  }

  ghost function After(w: World, ops: seq<Op>): (v: World)
    requires Exact(w) && AllowedRun(w, ops)
    ensures Exact(v)
    decreases |ops|
  {
    if ops == [] then w else (StepExact(w, ops[0]); After(Step(w, ops[0]), ops[1..]))
  }

  predicate Wraps(ops: seq<Op>, o: Obj)
  {
    exists i :: 0 <= i < |ops| && ops[i].Wrap? && ops[i].obj == o
  }

  /** Objects only enter by being wrapped, and leave by being deleted. */
  lemma StepAccounts(w: World, op: Op, o: Obj)
    requires Exact(w) && Allowed(w, op)
    ensures o in Step(w, op).objects || o in Step(w, op).deleted <==>
      o in w.objects || o in w.deleted || (op.Wrap? && op.obj == o)
  {
  }

  lemma {:induction false} RunAccounts(w: World, ops: seq<Op>, o: Obj)
    requires Exact(w) && AllowedRun(w, ops)
    ensures o in After(w, ops).objects || o in After(w, ops).deleted <==>
      o in w.objects || o in w.deleted || Wraps(ops, o)
    decreases |ops|
  {
    if ops != [] {
      StepExact(w, ops[0]);
      StepAccounts(w, ops[0], o);
      WrapsFirst(ops, o);
      hide Exact, Allowed, Wraps;
      RunAccounts(Step(w, ops[0]), ops[1..], o);
    }
  }

  lemma WrapsFirst(ops: seq<Op>, o: Obj)
    requires ops != []
    ensures Wraps(ops, o) <==> (ops[0].Wrap? && ops[0].obj == o) || Wraps(ops[1..], o)
  {
    var rest := ops[1..];
    if i :| 0 <= i < |rest| && rest[i].Wrap? && rest[i].obj == o { assert ops[i + 1] == rest[i]; }
    if i :| 0 < i < |ops| && ops[i].Wrap? && ops[i].obj == o { assert rest[i - 1] == ops[i]; }
  }

  /** What a program's handles refer to, without any counting: a copy or an assignment makes the left
      handle refer to what the right one refers to. */
  function Named(names: map<Handle, Option<Obj>>, op: Op): map<Handle, Option<Obj>>
  {
    match op
    case NewEmpty(h) => names[h := None]
    case Wrap(h, o, _) => names[h := Some(o)]
    case Copy(h, src) => if src in names then names[h := names[src]] else names
    case Assign(h, src) => if src in names then names[h := names[src]] else names
    case Destroy(h) => names - {h}
  }

  function NamedAfter(names: map<Handle, Option<Obj>>, ops: seq<Op>): map<Handle, Option<Obj>>
    decreases |ops|
  {
    if ops == [] then names else NamedAfter(Named(names, ops[0]), ops[1..])
  }

  /** The object a handle refers to, if any. */
  function Target(r: Ref): Option<Obj>
  {
    if r.Null? then None else Some(r.obj)
  }

  predicate Names(names: map<Handle, Option<Obj>>, handles: map<Handle, Ref>)
  {
    names.Keys == handles.Keys && forall h <- names :: names[h] == Target(handles[h])
  }

  /** What each operation does to the handles. */
  lemma StepHandles(w: World, op: Op)
    requires Exact(w) && Allowed(w, op)
    ensures op.NewEmpty? ==> Step(w, op).handles == w.handles[op.h := Null]
    ensures op.Wrap? ==> Step(w, op).handles == w.handles[op.h := Ref(op.cell, op.obj)]
    ensures op.Copy? || op.Assign? ==> Step(w, op).handles == w.handles[op.h := w.handles[op.src]]
    ensures op.Destroy? ==> Step(w, op).handles == w.handles - {op.h}
  {
  }

  /** Over every run each handle refers to the object that the program gave it, and none is missing. */
  lemma {:induction false} RunNames(w: World, ops: seq<Op>, names: map<Handle, Option<Obj>>)
    requires Exact(w) && AllowedRun(w, ops) && Names(names, w.handles)
    ensures Names(NamedAfter(names, ops), After(w, ops).handles)
    decreases |ops|
  {
    if ops != [] {
      StepExact(w, ops[0]);
      StepHandles(w, ops[0]);
      assert Names(Named(names, ops[0]), Step(w, ops[0]).handles);
      hide Exact, Step, Names, Named;
      RunNames(Step(w, ops[0]), ops[1..], Named(names, ops[0]));
    }
  }

  /** For example: after assigning the second handle to the first, both refer to the second object. */
  lemma AssignExample()
    ensures var ops := [Wrap(1, 10, 100), Wrap(2, 20, 200), Assign(1, 2)];
      NamedAfter(map[], ops) == map[1 := Some(20), 2 := Some(20)]
  {
    var ops := [Wrap(1, 10, 100), Wrap(2, 20, 200), Assign(1, 2)];
    var names: map<Handle, Option<Obj>> := map[];
    assert ops[1..] == [ops[1], ops[2]] && ops[1..][1..] == [ops[2]] && [ops[2]][1..] == [];
    assert NamedAfter(names, ops) == NamedAfter(map[1 := Some(10)], ops[1..]);
    assert NamedAfter(map[1 := Some(10)], ops[1..]) == NamedAfter(map[1 := Some(10), 2 := Some(20)], [ops[2]]);
  }

  /** Over every run from an empty program: counts are exact, every wrapped object is either alive and
      held or was deleted once, and when no handle is left nothing is left. */
  lemma RunExact(ops: seq<Op>)
    requires AllowedRun(World(map[], map[], {}, []), ops)
    ensures var w := After(World(map[], map[], {}, []), ops);
      && (forall c <- w.counters :: w.counters[c] == |Holders(w.handles, c)| > 0)
      && (forall o :: o in w.objects <==> Held(w, o))
      && (forall o :: o in w.objects || o in w.deleted <==> Wraps(ops, o))
      && (forall o <- w.objects :: o !in w.deleted)
      && (forall i, j :: 0 <= i < j < |w.deleted| ==> w.deleted[i] != w.deleted[j])
      && Names(NamedAfter(map[], ops), w.handles)
      && (w.handles == map[] ==> w.counters == map[] && w.objects == {})
  {
    RunNames(World(map[], map[], {}, []), ops, map[]);
    var w := After(World(map[], map[], {}, []), ops);
    assert Exact(w);
    forall o ensures (o in w.objects <==> Held(w, o)) && (o in w.objects || o in w.deleted <==> Wraps(ops, o)) {
      AliveIffHeld(w, o);
      RunAccounts(World(map[], map[], {}, []), ops, o);
    }
    hide Wraps, Held, Names, NamedAfter;
    if w.handles == map[] {
      forall c ensures c !in w.counters {
        NobodyHolds(c);
      }
    }
  }

  lemma NobodyHolds(c: Cell)
    ensures Holders(map[], c) == {}
  {
  }

  /** Wrapping nothing makes an empty handle. */
  function WrapOp(h: Handle, o: Option<Obj>, cell: Cell): Op
  {
    match o
    case None => NewEmpty(h)
    case Some(obj) => Wrap(h, obj, cell)
  }

  /** The memory shared by all handles of the program. */
  class Memory {
    var handles: map<Handle, Ref>
    var counters: map<Cell, nat>
    var objects: set<Obj>
    ghost var deleted: seq<Obj>

    ghost function Now(): World
      reads this
    {
      World(handles, counters, objects, deleted)
    }

    constructor ()
      ensures Now() == World(map[], map[], {}, []) && Exact(Now())
    {
      handles, counters, objects, deleted := map[], map[], {}, [];
    }

    /** The default constructor. */
    method NewHandle(h: Handle)
      requires Exact(Now()) && Allowed(Now(), NewEmpty(h))
      modifies this
      ensures Exact(Now()) && Now() == Step(old(Now()), NewEmpty(h))
      ensures handles == old(handles)[h := Null]
    {
      StepExact(Now(), NewEmpty(h));
      handles := handles[h := Null];
    }

    /** The constructor from a raw object, or from none; `cell` is the address of the new counter. */
    method WrapObject(h: Handle, o: Option<Obj>, cell: Cell)
      requires Exact(Now()) && Allowed(Now(), WrapOp(h, o, cell))
      modifies this
      ensures Exact(Now()) && Now() == Step(old(Now()), WrapOp(h, o, cell))
      ensures handles == old(handles)[h := if o.None? then Null else Ref(cell, o.value)]
    {
      StepExact(Now(), WrapOp(h, o, cell));
      match o
      case None => handles := handles[h := Null];
      case Some(obj) =>
        objects := objects + {obj};
        counters := counters[cell := 1];
        handles := handles[h := Ref(cell, obj)];
    }

    /** The copy constructor. */
    method CopyHandle(h: Handle, src: Handle)
      requires Exact(Now()) && Allowed(Now(), Copy(h, src))
      modifies this
      ensures Exact(Now()) && Now() == Step(old(Now()), Copy(h, src))
      ensures handles == old(handles)[h := old(handles)[src]]
    {
      StepExact(Now(), Copy(h, src));
      handles := handles[h := handles[src]];
      if handles[h].Ref? {
        counters := counters[handles[h].used := counters[handles[h].used] + 1];
      }
    }

    /** Gives up a reference, as the destructor and the assignment both do. */
    method LetGo(r: Ref)
      requires r.Ref? ==> r.used in counters && counters[r.used] > 0 && r.obj in objects
      modifies this`counters, this`objects, this`deleted
      ensures Now() == Release(old(Now()), r)
    {
      if r.Ref? {
        var n := counters[r.used] - 1;
        counters := counters[r.used := n];
        if n == 0 {
          counters := counters - {r.used};
          objects := objects - {r.obj};
          deleted := deleted + [r.obj];
          assert counters == old(counters) - {r.used};
        }
      }
    }

    /** The destructor. */
    method DestroyHandle(h: Handle)
      requires Exact(Now()) && Allowed(Now(), Destroy(h))
      modifies this
      ensures Exact(Now()) && Now() == Step(old(Now()), Destroy(h))
      ensures handles == old(handles) - {h}
    {
      StepExact(Now(), Destroy(h));
      LetGo(handles[h]);
      handles := handles - {h};
    }

    /** Assignment, also of a handle to itself. */
    method AssignHandle(h: Handle, src: Handle)
      requires Exact(Now()) && Allowed(Now(), Assign(h, src))
      modifies this
      ensures Exact(Now()) && Now() == Step(old(Now()), Assign(h, src))
      ensures handles == old(handles)[h := old(handles)[src]]
    {
      StepExact(Now(), Assign(h, src));
      var r := handles[src];
      if r.Ref? {
        counters := counters[r.used := counters[r.used] + 1];
      }
      LetGo(handles[h]);
      handles := handles[h := handles[src]];
    }
  }

  /** Carries out any allowed program of operations. */
  method Execute(mem: Memory, ops: seq<Op>)
    requires Exact(mem.Now()) && AllowedRun(mem.Now(), ops)
    modifies mem
    ensures mem.Now() == After(old(mem.Now()), ops)
    decreases |ops|
  {
    hide Exact, Allowed;
    if ops != [] {
      match ops[0] {
        case NewEmpty(h) => mem.NewHandle(h);
        case Wrap(h, o, c) => mem.WrapObject(h, Some(o), c);
        case Copy(h, src) => mem.CopyHandle(h, src);
        case Assign(h, src) => mem.AssignHandle(h, src);
        case Destroy(h) => mem.DestroyHandle(h);
      }
      Execute(mem, ops[1..]);
    }
  }
}
