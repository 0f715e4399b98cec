/** The two list pools side by side. */
module ListPools {
  import opened Ring
  import opened ListPoolModel
  import opened WorkingList
  import opened ListPoolRep
  import opened PointerPools
  import opened IndexPools

  method StepBoth(p: PointerPool, q: IndexPool, op: Op) returns (fromP: Event, fromQ: Event)
    requires p.Valid() && q.Valid() && p.model == q.model && p.ring != q.ring && Allowed(p.model, op)
    modifies p, p.ring, q, q.ring, q.blocks
    ensures p.Valid() && q.Valid() && p.ring != q.ring
    ensures p.model == q.model == Step(old(p.model), op)
    ensures fromP == fromQ == EventOf(old(p.model), op)
    ensures fresh(p.ring) || p.ring == old(p.ring)
    ensures fresh(q.ring) || q.ring == old(q.ring)
    ensures fresh(q.blocks) || q.blocks == old(q.blocks)
  {
    hide PoolState.Represents, SameData, SamePayload, ListPool.Consistent;
    match op {
      case AllocOp =>
        var i := p.Alloc();
        var j := q.Alloc();
        fromP, fromQ := Answer(i), Answer(j);
      case FreeOp(id) =>
        p.Free(id);
        q.Free(id);
        fromP, fromQ := Freed(id), Freed(id);
    }
  }

  /** Runs the same calls on both pools. */
  method RunBoth(p: PointerPool, q: IndexPool, ops: seq<Op>) returns (fromP: seq<Event>, fromQ: seq<Event>)
    requires p.Valid() && q.Valid() && p.model == q.model && p.ring != q.ring
    requires AllowedRun(p.model, ops)
    modifies p, p.ring, q, q.ring, q.blocks
    ensures p.Valid() && q.Valid() && p.model == q.model == After(old(p.model), ops)
    ensures fromP == fromQ == Events(old(p.model), ops)
    decreases |ops|
  {
    hide PoolState.Represents, ListPool.Consistent;
    if ops == [] {
      return [], [];
    }
    var e, f := StepBoth(p, q, ops[0]);
    fromP, fromQ := RunBoth(p, q, ops[1..]);
    fromP, fromQ := [e] + fromP, [f] + fromQ;
  }

  /** No caller can tell the pools apart: on any run of calls both give the same answers, and both
      working lists, walked from head to tail, are the one list that the history of calls prescribes. */
  method Indistinguishable(initSize: nat, realloc: bool, ops: seq<Op>)
    returns (fromP: seq<Event>, fromQ: seq<Event>, listP: seq<nat>, listQ: seq<nat>)
    requires 0 < initSize && AllowedRun(ListPool(initSize, Range(0, initSize), [], realloc), ops)
    ensures fromP == fromQ && listP == listQ
    ensures ListsInUse(fromP, listP)
  {
    hide PoolState.Represents, ListPool.Consistent, ListsInUse, AllowedRun, After, Events, IndexPool.Mem;
    var p := new PointerPool(initSize, realloc, 0, 1, []);
    var q := new IndexPool(initSize, realloc, []);
    fromP, fromQ, listP, listQ := RunAndWalk(p, q, ops);
  }

  method RunAndWalk(p: PointerPool, q: IndexPool, ops: seq<Op>)
    returns (fromP: seq<Event>, fromQ: seq<Event>, listP: seq<nat>, listQ: seq<nat>)
    requires p.Valid() && q.Valid() && p.model == q.model && p.ring != q.ring && p.model.order == []
    requires AllowedRun(p.model, ops)
    modifies p, p.ring, q, q.ring, q.blocks
    ensures fromP == fromQ && listP == listQ && ListsInUse(fromP, listP)
  {
    RunLists(p.model, ops, []);
    hide PoolState.Represents, ListPool.Consistent, ListsInUse, AllowedRun, After, Events, IndexPool.Mem;
    fromP, fromQ := RunBoth(p, q, ops);
    listP := p.WalkForward();
    listQ := q.WalkForward();
    assert [] + fromP == fromP;
  }

  /** Growing an empty pool breaks it, whatever its size and the new one: after one block has been
      handed out and given back, handing out blocks hands that one out twice. */
  method EmptyGrowthPointers(pool: PointerPool, n: nat) returns (ids: seq<int>)
    requires pool.Valid() && pool.enableRealloc && pool.workingNum == 0 && pool.size < n
    modifies pool, pool.ring
    ensures |ids| == n && ids[n - 1 - old(pool.size)] == ids[n - 1]
  {
    ghost var c := pool.size;
    hide GrownTooEarly, Doubled;
    GrowEmptyPointers(pool, n);
    GiveBackPointers(pool, c);
    ghost var u := pool.State();
    ids := HandOutPointers(pool, c);
    ComesTwice(u, c, ids);
  }

  method GrowEmptyPointers(pool: PointerPool, n: nat)
    requires pool.Valid() && pool.enableRealloc && pool.workingNum == 0 && pool.size < n
    modifies pool, pool.ring
    ensures pool.Misfit() && pool.size == n && fresh(pool.ring) && GrownTooEarly(pool.State(), old(pool.size))
  {
    ghost var was := pool.State();
    EmptyFacts(was, pool.model);
    hide PoolState.Represents, SameData, Linked, MemoryRep, At, Nodes;
    var _ := pool.EnsureSize(n);
    NoNodes(pool.State());
    GrownEntries(was.ring, was.base, pool.ring[..], pool.State().base);
  }

  method GiveBackPointers(pool: PointerPool, ghost c: nat)
    requires pool.Misfit() && GrownTooEarly(pool.State(), c)
    modifies pool, pool.ring
    ensures pool.Misfit() && pool.size == old(pool.size) && pool.ring == old(pool.ring) && Doubled(pool.State(), c)
  {
    EarlyPop(pool.State(), c);
    GrownEmpty(pool.State(), c);
    assert pool.allocIndex == c && pool.workingNum == 0 && c < pool.size;
    hide GrownTooEarly, Doubled, PoolState.Poppable, PoolState.Popped, PoolState.NextId, PoolState.Freeable, PoolState.Freed;
    var id := pool.Alloc();
    pool.Free(id);
  }

  method HandOutPointers(pool: PointerPool, ghost c: nat) returns (ids: seq<int>)
    requires pool.Misfit() && Doubled(pool.State(), c)
    modifies pool
    ensures |ids| == old(pool.size)
    ensures var u := old(pool.State());
      forall k :: 0 <= k < |ids| ==> ids[k] == u.ring[Slot(Slot(c + 1, |u.ring|) + k, |u.ring|)] - u.base
  {
    ghost var u := pool.State();
    ghost var at := Slot(c + 1, |u.ring|);
    var n := pool.size;
    hide Handing, Slot;
    ids := [];
    while |ids| < n
      invariant |ids| <= n && pool.Misfit() && pool.size == n && pool.State().base == u.base
      invariant Handing(pool.State(), u.ring, at, |ids|)
      invariant forall k :: 0 <= k < |ids| ==> ids[k] == u.ring[Slot(at + k, n)] - u.base
    {
      var id := HandNextPointers(pool, u.ring, at, |ids|);
      ids := ids + [id];
    }
  }

  method HandNextPointers(pool: PointerPool, ghost ring: seq<Address>, ghost at: nat, ghost k: nat) returns (id: int)
    requires pool.Misfit() && k < |ring| == pool.size && Handing(pool.State(), ring, at, k)
    requires pool.ring.Length == |ring|
    modifies pool
    ensures pool.Misfit() && pool.size == old(pool.size) && pool.State().base == old(pool.State().base)
    ensures Handing(pool.State(), ring, at, k + 1) && id == ring[Slot(at + k, |ring|)] - pool.State().base
  {
    HandingStep(pool.State(), ring, at, k);
    HandingRoom(pool.State(), ring, at, k);
    hide PoolState.Poppable, PoolState.Popped, PoolState.NextId, PoolState.Represents, SameData, Handing, Slot;
    id := pool.Alloc();
  }

  /** The same for the pool with indices. */
  method EmptyGrowthIndices(pool: IndexPool, n: nat) returns (ids: seq<int>)
    requires pool.Valid() && pool.enableRealloc && pool.workingNum == 0 && pool.size < n
    modifies pool, pool.ring, pool.blocks
    ensures |ids| == n && ids[n - 1 - old(pool.size)] == ids[n - 1]
  {
    ghost var c := pool.size;
    hide GrownTooEarly, Doubled, IndexPool.Mem;
    GrowEmptyIndices(pool, n);
    GiveBackIndices(pool, c);
    ghost var u := pool.State();
    ids := HandOutIndices(pool, c);
    ComesTwice(u, c, ids);
  }

  method GrowEmptyIndices(pool: IndexPool, n: nat)
    requires pool.Valid() && pool.enableRealloc && pool.workingNum == 0 && pool.size < n
    modifies pool, pool.ring, pool.blocks
    ensures pool.Misfit() && pool.size == n && fresh(pool.ring) && fresh(pool.blocks) && GrownTooEarly(pool.State(), old(pool.size))
  {
    ghost var was := pool.State();
    EmptyFacts(was, pool.model);
    hide PoolState.Represents, SameData, Linked, MemoryRep, At, Nodes, IndexPool.Mem;
    var _ := pool.EnsureSize(n);
    NoNodes(pool.State());
    GrownEntries(was.ring, was.base, pool.ring[..], pool.State().base);
  }

  method GiveBackIndices(pool: IndexPool, ghost c: nat)
    requires pool.Misfit() && GrownTooEarly(pool.State(), c)
    modifies pool, pool.ring, pool.blocks
    ensures pool.Misfit() && pool.size == old(pool.size) && pool.ring == old(pool.ring) && pool.blocks == old(pool.blocks) && Doubled(pool.State(), c)
  {
    EarlyPop(pool.State(), c);
    GrownEmpty(pool.State(), c);
    assert pool.allocIndex == c && pool.workingNum == 0 && c < pool.size;
    hide GrownTooEarly, Doubled, PoolState.Poppable, PoolState.Popped, PoolState.NextId, PoolState.Freeable, PoolState.Freed, IndexPool.Mem;
    var id := pool.Alloc();
    pool.Free(id);
  }

  method HandOutIndices(pool: IndexPool, ghost c: nat) returns (ids: seq<int>)
    requires pool.Misfit() && Doubled(pool.State(), c)
    modifies pool, pool.blocks
    ensures |ids| == old(pool.size)
    ensures var u := old(pool.State());
      forall k :: 0 <= k < |ids| ==> ids[k] == u.ring[Slot(Slot(c + 1, |u.ring|) + k, |u.ring|)] - u.base
  {
    ghost var u := pool.State();
    ghost var at := Slot(c + 1, |u.ring|);
    var n := pool.size;
    hide Handing, Slot, IndexPool.Mem;
    ids := [];
    while |ids| < n
      invariant |ids| <= n && pool.Misfit() && pool.size == n && pool.State().base == u.base
      invariant Handing(pool.State(), u.ring, at, |ids|) && pool.blocks == old(pool.blocks)
      invariant forall k :: 0 <= k < |ids| ==> ids[k] == u.ring[Slot(at + k, n)] - u.base
    {
      var id := HandNextIndices(pool, u.ring, at, |ids|);
      ids := ids + [id];
    }
  }

  method HandNextIndices(pool: IndexPool, ghost ring: seq<Address>, ghost at: nat, ghost k: nat) returns (id: int)
    requires pool.Misfit() && k < |ring| == pool.size && Handing(pool.State(), ring, at, k)
    requires forall j :: 0 <= j < |ring| ==> 0 <= ring[j] < |ring|
    modifies pool, pool.blocks
    ensures pool.Misfit() && pool.size == old(pool.size) && pool.State().base == old(pool.State().base)
    ensures Handing(pool.State(), ring, at, k + 1) && id == ring[Slot(at + k, |ring|)] - pool.State().base
    ensures pool.blocks == old(pool.blocks)
  {
    HandingStep(pool.State(), ring, at, k);
    HandingRoom(pool.State(), ring, at, k);
    hide PoolState.Poppable, PoolState.Popped, PoolState.NextId, PoolState.Represents, SameData, Handing, Slot, IndexPool.Mem;
    id := pool.Alloc();
  }
}
