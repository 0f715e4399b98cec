/**
  What both list pools promise: ids handed out first come, first served, and the ids in use
  kept in the order in which they were allocated.
  */
module ListPoolModel {
  import opened Ring

  function Range(from: nat, to: nat): (s: seq<nat>)
    requires from <= to
    ensures |s| == to - from
    ensures forall i :: 0 <= i < |s| ==> s[i] == from + i
  {
    seq(to - from, i requires 0 <= i => from + i)
  }

  /** `s` without its element number `k`. */
  function Without<T>(s: seq<T>, k: nat): seq<T>
    requires k < |s|
  {
    s[..k] + s[k + 1..]
  }

  /** Position of `x`. */
  function IndexOf<T(==)>(s: seq<T>, x: T): (k: nat)
    requires x in s
    ensures k < |s| && s[k] == x
  {
    if s[0] == x then 0 else 1 + IndexOf(s[1..], x)
  }

  datatype ListPool = ListPool(size: nat, queue: seq<nat>, order: seq<nat>, canGrow: bool)
  {
    /** Free ids and ids in use are all different and below `size`, and there are `size` of them. */
    ghost predicate Consistent()
    {
      && 0 < size
      && |queue| + |order| == size
      && Distinct(queue) && Distinct(order)
      && (forall id <- queue :: id < size && id !in order)
      && (forall id <- order :: id < size)
    }

    predicate Exhausted()
    {
      queue == [] && !canGrow
    }

    function Grow(newSize: nat): ListPool
      requires size <= newSize
    {
      ListPool(newSize, queue + Range(size, newSize), order, canGrow)
    }

    function Stocked(): (p: ListPool)
      ensures 0 < size && !Exhausted() ==> p.queue != []
    {
      if queue == [] && canGrow then Grow(size * 2) else this
    }

    function Pop(): ListPool
      requires queue != []
    {
      ListPool(size, queue[1..], order + [queue[0]], canGrow)
    }

    function Free(id: nat): ListPool
      requires id in order
    {
      ListPool(size, queue + [id], Without(order, IndexOf(order, id)), canGrow)
    }
  }

  /** Free and used ids together are exactly 0 .. size-1. */
  lemma Partition(p: ListPool)
    requires p.Consistent()
    ensures forall id :: 0 <= id < p.size <==> (id in p.queue) != (id in p.order)
  {
    var below := Range(0, p.size);
    DistinctCardinality(p.queue);
    DistinctCardinality(p.order);
    DistinctCardinality(below);
    var all := Elements(p.queue) + Elements(p.order);
    assert Elements(p.queue) !! Elements(p.order);
    forall id | id in all ensures id in Elements(below) {
      assert below[id] == id;
    }
    SubsetOfSameSize(all, Elements(below));
    forall id ensures 0 <= id < p.size <==> (id in p.queue) != (id in p.order) {
      if 0 <= id < p.size {
        assert below[id] == id;
        assert id in all;
      }
    }
  }

  lemma SubsetOfSameSize<T>(a: set<T>, b: set<T>)
    requires a <= b && |a| == |b|
    ensures a == b
  {
    assert |b| == |a| + |b - a| by { assert b == a + (b - a); }
  }

  lemma GrowConsistent(p: ListPool, newSize: nat)
    requires p.Consistent() && p.size <= newSize
    ensures p.Grow(newSize).Consistent()
  {
    var g := p.Grow(newSize);
    forall i, j | 0 <= i < j < |g.queue| ensures g.queue[i] != g.queue[j] {
      if i < |p.queue| { assert p.queue[i] in p.queue; }
    }
  }

  lemma PopConsistent(p: ListPool)
    requires p.Consistent() && p.queue != []
    ensures p.Pop().Consistent() && p.queue[0] !in p.order
  {
    var q := p.queue;
    assert q[0] in q && q[0] !in q[1..];
    assert forall id :: id in q[1..] ==> id in q;
  }

  lemma FreeConsistent(p: ListPool, id: nat)
    requires p.Consistent() && id in p.order
    ensures p.Free(id).Consistent()
  {
    WithoutFacts(p.order, IndexOf(p.order, id));
  }

  lemma WithoutFacts<T>(s: seq<T>, k: nat)
    requires k < |s| && Distinct(s)
    ensures Distinct(Without(s, k))
    ensures forall x :: x in Without(s, k) <==> x in s && x != s[k]
  {
    var w := Without(s, k);
    forall x ensures x in w <==> x in s && x != s[k] {
      if x in s && x != s[k] {
        var i := IndexOfGhost(s, x);
        assert w[if i < k then i else i - 1] == x;
      }
    }
  }

  ghost function IndexOfGhost<T>(s: seq<T>, x: T): (k: nat)
    requires x in s
    ensures k < |s| && s[k] == x
  {
    var k :| 0 <= k < |s| && s[k] == x; k
  }

  // ---- whole runs

  datatype Op = AllocOp | FreeOp(id: nat)
  datatype Event = Allocated(id: nat) | Freed(id: nat) | Refused

  predicate Allowed(p: ListPool, op: Op)
  {
    op.FreeOp? ==> op.id in p.order
  }

  function Step(p: ListPool, op: Op): (q: ListPool)
    requires 0 < p.size && Allowed(p, op)
    ensures 0 < q.size
  {
    match op
    case AllocOp => if p.Exhausted() then p else p.Stocked().Pop()
    case FreeOp(id) => p.Free(id)
  }

  function EventOf(p: ListPool, op: Op): Event
    requires 0 < p.size && Allowed(p, op)
  {
    match op
    case AllocOp => if p.Exhausted() then Refused else Allocated(p.Stocked().queue[0])
    case FreeOp(id) => Freed(id)
  }

  lemma StepConsistent(p: ListPool, op: Op)
    requires p.Consistent() && Allowed(p, op)
    ensures Step(p, op).Consistent()
    ensures EventOf(p, op).Allocated? ==> EventOf(p, op).id !in p.order
  {
    match op
    case AllocOp =>
      if !p.Exhausted() {
        GrowConsistent(p, p.size * 2);
        PopConsistent(p.Stocked());
      }
    case FreeOp(id) => FreeConsistent(p, id);
  }

  predicate AllowedRun(p: ListPool, ops: seq<Op>)
    requires 0 < p.size
    decreases |ops|
  {
    ops == [] || (Allowed(p, ops[0]) && AllowedRun(Step(p, ops[0]), ops[1..]))
  }

  function After(p: ListPool, ops: seq<Op>): ListPool
    requires 0 < p.size && AllowedRun(p, ops)
    decreases |ops|
  {
    if ops == [] then p else After(Step(p, ops[0]), ops[1..])
  }

  function Events(p: ListPool, ops: seq<Op>): seq<Event>
    requires 0 < p.size && AllowedRun(p, ops)
    decreases |ops|
  {
    if ops == [] then [] else [EventOf(p, ops[0])] + Events(Step(p, ops[0]), ops[1..])
  }

  predicate About(e: Event, id: nat)
  {
    !e.Refused? && e.id == id
  }

  /** Time of the last event about `id`, or -1. */
  function LastEvent(h: seq<Event>, id: nat): (t: int)
    ensures -1 <= t < |h|
    ensures 0 <= t ==> About(h[t], id)
    ensures forall u :: t < u < |h| ==> !About(h[u], id)
  {
    if h == [] then -1
    else if About(h[|h| - 1], id) then |h| - 1
    else LastEvent(h[..|h| - 1], id)
  }

  /** The ids whose last event is an allocation. */
  ghost predicate InUse(h: seq<Event>, id: nat)
  {
    LastEvent(h, id) >= 0 && h[LastEvent(h, id)].Allocated?
  }

  /** The working list, read off a history: the ids in use, each once, oldest allocation first. */
  ghost predicate ListsInUse(h: seq<Event>, order: seq<nat>)
  {
    && (forall id :: id in order <==> InUse(h, id))
    && (forall i, j :: 0 <= i < j < |order| ==> LastEvent(h, order[i]) < LastEvent(h, order[j]))
  }

  lemma LastEventStep(h: seq<Event>, e: Event, id: nat)
    ensures LastEvent(h + [e], id) == if About(e, id) then |h| else LastEvent(h, id)
    ensures InUse(h + [e], id) <==> (if About(e, id) then e.Allocated? else InUse(h, id))
  {
    assert (h + [e])[..|h|] == h;
  }

  lemma AllocateLists(h: seq<Event>, order: seq<nat>, id: nat)
    requires ListsInUse(h, order) && id !in order
    ensures ListsInUse(h + [Allocated(id)], order + [id])
  {
    var e := Allocated(id);
    forall x: nat ensures x in order + [id] <==> InUse(h + [e], x) { LastEventStep(h, e, x); }
    forall i, j | 0 <= i < j <= |order|
      ensures LastEvent(h + [e], (order + [id])[i]) < LastEvent(h + [e], (order + [id])[j])
    {
      assert order[i] in order;
      LastEventStep(h, e, order[i]);
      LastEventStep(h, e, (order + [id])[j]);
    }
  }

  lemma FreeLists(h: seq<Event>, order: seq<nat>, k: nat)
    requires ListsInUse(h, order) && k < |order|
    ensures ListsInUse(h + [Freed(order[k])], Without(order, k))
  {
    var e, w := Freed(order[k]), Without(order, k);
    assert Distinct(order);
    WithoutFacts(order, k);
    forall x: nat ensures x in w <==> InUse(h + [e], x) { LastEventStep(h, e, x); }
    forall i, j | 0 <= i < j < |w| ensures LastEvent(h + [e], w[i]) < LastEvent(h + [e], w[j]) {
      assert w[i] in w && w[j] in w;
      LastEventStep(h, e, w[i]);
      LastEventStep(h, e, w[j]);
    }
  }

  lemma RefuseLists(h: seq<Event>, order: seq<nat>)
    requires ListsInUse(h, order)
    ensures ListsInUse(h + [Refused], order)
  {
    forall x: nat { LastEventStep(h, Refused, x); }
  }

  lemma StepLists(p: ListPool, op: Op, h: seq<Event>)
    requires p.Consistent() && Allowed(p, op) && ListsInUse(h, p.order)
    ensures ListsInUse(h + [EventOf(p, op)], Step(p, op).order)
  {
    StepConsistent(p, op);
    match EventOf(p, op)
    case Allocated(id) => AllocateLists(h, p.order, id);
    case Freed(id) => FreeLists(h, p.order, IndexOf(p.order, id));
    case Refused => RefuseLists(h, p.order);
  }

  /** After any run of a new pool, the working list is exactly what the history of calls says. */
  lemma {:induction false} RunLists(p: ListPool, ops: seq<Op>, h: seq<Event>)
    requires p.Consistent() && AllowedRun(p, ops) && ListsInUse(h, p.order)
    ensures After(p, ops).Consistent()
    ensures ListsInUse(h + Events(p, ops), After(p, ops).order)
    decreases |ops|
  {
    if ops == [] {
      assert h + Events(p, ops) == h;
    } else {
      StepConsistent(p, ops[0]);
      StepLists(p, ops[0], h);
      var e, q := EventOf(p, ops[0]), Step(p, ops[0]);
      RunLists(q, ops[1..], h + [e]);
      assert (h + [e]) + Events(q, ops[1..]) == h + Events(p, ops);
    }
  }

  // ---- first come, first served

  /** The ids handed out, in order. */
  function Handed(h: seq<Event>): seq<nat>
  {
    if h == [] then []
    else if h[0].Allocated? then [h[0].id] + Handed(h[1..])
    else Handed(h[1..])
  }

  /** The ids that came into the queue, in order, when those in `s` did before and `taken` of them are
      out: freed ids, and as many new ones as there are each time one is wanted and none is left. */
  function Supplied(s: seq<nat>, size: nat, taken: nat, h: seq<Event>): seq<nat>
    decreases |h|
  {
    if h == [] then s
    else match h[0]
      case Freed(id) => Supplied(s + [id], size, taken, h[1..])
      case Refused => Supplied(s, size, taken, h[1..])
      case Allocated(_) =>
        if taken < |s| then Supplied(s, size, taken + 1, h[1..])
        else Supplied(s + Range(size, 2 * size), 2 * size, taken + 1, h[1..])
  }

  lemma StepServes(p: ListPool, op: Op, done: seq<nat>, h: seq<Event>)
    requires p.Consistent() && Allowed(p, op)
    ensures var e, q := EventOf(p, op), Step(p, op);
      var out := done + Handed([e]);
      Supplied(done + p.queue, p.size, |done|, [e] + h) == Supplied(out + q.queue, q.size, |out|, h)
  {
    var e, q := EventOf(p, op), Step(p, op);
    assert ([e] + h)[1..] == h && Handed([]) == [];
    match e {
      case Freed(id) => assert done + p.queue + [id] == (done + []) + q.queue;
      case Refused => assert done + [] == done;
      case Allocated(id) =>
        assert p.queue == [] ==> done + p.queue + Range(p.size, 2 * p.size) == done + p.Stocked().queue;
        assert done + p.Stocked().queue == (done + [id]) + q.queue && Handed([e]) == [id];
    }
  }

  /** `done` are the ids handed out before. */
  lemma {:induction false} RunServes(p: ListPool, ops: seq<Op>, done: seq<nat>)
    requires p.Consistent() && AllowedRun(p, ops)
    ensures var h := Events(p, ops);
      done + Handed(h) + After(p, ops).queue == Supplied(done + p.queue, p.size, |done|, h)
    decreases |ops|
  {
    assert done + Handed([]) == done;
    hide ListPool.Consistent, Step, EventOf, Handed;
    if ops != [] {
      StepConsistent(p, ops[0]);
      var q, e := Step(p, ops[0]), EventOf(p, ops[0]);
      var h := Events(q, ops[1..]);
      StepServes(p, ops[0], done, h);
      RunServes(q, ops[1..], done + Handed([e]));
      HandedCons(e, h);
      assert done + Handed([e]) + Handed(h) == done + Handed([e] + h);
    }
  }

  lemma HandedCons(e: Event, h: seq<Event>)
    ensures Handed([e] + h) == Handed([e]) + Handed(h)
  {
    assert ([e] + h)[1..] == h && [e][1..] == [];
  }

  /** Over any run of a new pool, ids are handed out in exactly the order in which they came into the
      queue; the rest of them is still queued. */
  lemma FirstComeFirstServed(n: nat, canGrow: bool, ops: seq<Op>)
    requires 0 < n && AllowedRun(ListPool(n, Range(0, n), [], canGrow), ops)
    ensures var p := ListPool(n, Range(0, n), [], canGrow);
      var h := Events(p, ops);
      Handed(h) + After(p, ops).queue == Supplied(Range(0, n), n, 0, h)
  {
    var p := ListPool(n, Range(0, n), [], canGrow);
    RunServes(p, ops, []);
    assert [] + p.queue == p.queue && [] + Handed(Events(p, ops)) == Handed(Events(p, ops));
  }

  // ---- growth

  function Allocs(n: nat): (ops: seq<Op>)
    ensures |ops| == n && forall i :: 0 <= i < n ==> ops[i] == AllocOp
  {
    seq(n, _ => AllocOp)
  }

  /** From a queue alone, the ids come out in its order. */
  lemma {:induction false} ServesQueue(p: ListPool, n: nat)
    requires 0 < p.size && n <= |p.queue|
    ensures AllowedRun(p, Allocs(n)) && After(p, Allocs(n)).size == p.size
    ensures |Events(p, Allocs(n))| == n && forall i :: 0 <= i < n ==> Events(p, Allocs(n))[i] == Allocated(p.queue[i])
    decreases n
  {
    if n > 0 {
      assert Allocs(n)[1..] == Allocs(n - 1);
      assert Step(p, AllocOp) == p.Pop();
      ServesQueue(p.Pop(), n - 1);
    }
  }

  /** A full pool that may grow doubles on the next request, and then hands out exactly the new ids in
      order; one that may not grow refuses and stays as it is. */
  lemma FullPoolDoubles(p: ListPool)
    requires p.Consistent() && p.queue == []
    ensures p.canGrow ==>
      && AllowedRun(p, Allocs(p.size)) && After(p, Allocs(p.size)).size == 2 * p.size
      && |Events(p, Allocs(p.size))| == p.size
      && forall i :: 0 <= i < p.size ==> Events(p, Allocs(p.size))[i] == Allocated(p.size + i)
    ensures !p.canGrow ==> EventOf(p, AllocOp) == Refused && Step(p, AllocOp) == p
  {
    if p.canGrow {
      var q := p.Grow(2 * p.size);
      ServesQueue(q, p.size);
      FirstFromFull(p, p.size);
    }
  }

  /** A full pool serves like the doubled one. */
  lemma FirstFromFull(p: ListPool, n: nat)
    requires p.Consistent() && p.queue == [] && p.canGrow && 0 < n
    requires AllowedRun(p.Grow(2 * p.size), Allocs(n))
    ensures AllowedRun(p, Allocs(n)) && After(p, Allocs(n)) == After(p.Grow(2 * p.size), Allocs(n))
    ensures Events(p, Allocs(n)) == Events(p.Grow(2 * p.size), Allocs(n))
  {
    var q := p.Grow(2 * p.size);
    assert Step(p, AllocOp) == Step(q, AllocOp) && EventOf(p, AllocOp) == EventOf(q, AllocOp);
    assert Allocs(n)[0] == AllocOp;
  }

  /** That history fixes the list: no two different sequences satisfy it. */
  lemma {:induction false} ListsInUseUnique(h: seq<Event>, a: seq<nat>, b: seq<nat>)
    requires ListsInUse(h, a) && ListsInUse(h, b)
    ensures a == b
  {
    SortedUnique(a, b, id requires 0 <= id => LastEvent(h, id));
  }

  lemma {:induction false} SortedUnique(a: seq<nat>, b: seq<nat>, key: nat --> int)
    requires forall id: nat :: key.requires(id)
    requires forall i, j :: 0 <= i < j < |a| ==> key(a[i]) < key(a[j])
    requires forall i, j :: 0 <= i < j < |b| ==> key(b[i]) < key(b[j])
    requires forall id :: id in a <==> id in b
    ensures a == b
  {
    assert a != [] ==> a[0] in a;
    assert b != [] ==> b[0] in b;
    if a != [] {
      var i :| 0 <= i < |b| && b[i] == a[0];
      var j :| 0 <= j < |a| && a[j] == b[0];
      assert a[0] == b[0];
      forall id ensures id in a[1..] <==> id in b[1..] {
        if id in a[1..] || id in b[1..] { assert id in a && id in b && id != a[0]; }
      }
      SortedUnique(a[1..], b[1..], key);
    }
  }
}
