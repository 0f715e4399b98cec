/**
  The doubly linked working list of the list pools, between a head and a tail sentinel, in
  a memory that maps addresses to blocks. A pool's block number `i` sits at `base + i`.
  */
module WorkingList {
  import opened Ring
  import opened ListPoolModel

  type Address = int
  type Data = seq<bv8>
  datatype Node = Node(prev: Address, next: Address, id: int, data: Data)
  type Memory = map<Address, Node>

  function SetPrev(m: Memory, a: Address, v: Address): Memory
    requires a in m
  {
    m[a := m[a].(prev := v)]
  }

  function SetNext(m: Memory, a: Address, v: Address): Memory
    requires a in m
  {
    m[a := m[a].(next := v)]
  }

  /** `nodes` runs from the head sentinel to the tail sentinel along the links, both ways. */
  ghost predicate Linked(m: Memory, nodes: seq<Address>)
  {
    && 2 <= |nodes| && Distinct(nodes)
    && (forall k :: 0 <= k < |nodes| ==> nodes[k] in m)
    && (forall k :: 0 <= k < |nodes| - 1 ==> m[nodes[k]].next == nodes[k + 1])
    && (forall k :: 0 < k < |nodes| ==> m[nodes[k]].prev == nodes[k - 1])
  }

  /** Everything but the links is the same. */
  ghost predicate SamePayload(m: Memory, n: Memory)
  {
    && m.Keys == n.Keys
    && forall a <- m :: m[a].id == n[a].id && m[a].data == n[a].data
  }

  function LinkedToTail(m: Memory, tail: Address, x: Address): Memory
    requires tail in m && x in m && m[tail].prev in m
  {
    var m1 := SetNext(m, m[tail].prev, x);
    var m2 := SetPrev(m1, x, m1[tail].prev);
    var m3 := SetPrev(m2, tail, x);
    SetNext(m3, x, tail)
  }

  lemma LinkedKeepsId(m: Memory, tail: Address, x: Address)
    requires tail in m && x in m && m[tail].prev in m
    ensures x in LinkedToTail(m, tail, x) && LinkedToTail(m, tail, x)[x].id == m[x].id
  {
  }

  function LinkedToHead(m: Memory, head: Address, x: Address): Memory
    requires head in m && x in m && m[head].next in m
  {
    var m1 := SetPrev(m, m[head].next, x);
    var m2 := SetNext(m1, x, m1[head].next);
    var m3 := SetNext(m2, head, x);
    SetPrev(m3, x, head)
  }

  function Unlinked(m: Memory, x: Address): Memory
    requires x in m && m[x].prev in m && m[x].next in m
  {
    var m1 := SetNext(m, m[x].prev, m[x].next);
    SetPrev(m1, m1[x].next, m1[x].prev)
  }

  lemma TailLink(m: Memory, nodes: seq<Address>, x: Address)
    requires Linked(m, nodes) && x in m && x !in nodes
    ensures var t := nodes[|nodes| - 1]; m[t].prev in m
    ensures var t := nodes[|nodes| - 1];
      && Linked(LinkedToTail(m, t, x), nodes[..|nodes| - 1] + [x, t])
      && SamePayload(m, LinkedToTail(m, t, x))
  {
    assert m[nodes[|nodes| - 1]].prev == nodes[|nodes| - 2];
  }

  lemma HeadLink(m: Memory, nodes: seq<Address>, x: Address)
    requires Linked(m, nodes) && x in m && x !in nodes
    ensures m[nodes[0]].next in m
    ensures Linked(LinkedToHead(m, nodes[0], x), [nodes[0], x] + nodes[1..])
    ensures SamePayload(m, LinkedToHead(m, nodes[0], x))
  {
    assert m[nodes[0]].next == nodes[1];
  }

  lemma Unlink(m: Memory, nodes: seq<Address>, k: nat)
    requires Linked(m, nodes) && 0 < k < |nodes| - 1
    ensures nodes[k] in m && m[nodes[k]].prev in m && m[nodes[k]].next in m
    ensures Linked(Unlinked(m, nodes[k]), Without(nodes, k))
    ensures SamePayload(m, Unlinked(m, nodes[k]))
  {
    assert m[nodes[k]].prev == nodes[k - 1] && m[nodes[k]].next == nodes[k + 1];
  }
}

/** How a pool's ring, memory and links represent a `ListPool`. */
module ListPoolRep {
  import opened Ring
  import opened ListPoolModel
  import opened WorkingList

  /** The addresses of blocks `ids`. */
  function At(base: Address, ids: seq<nat>): (s: seq<Address>)
    ensures |s| == |ids|
    ensures forall k :: 0 <= k < |s| ==> s[k] == base + ids[k]
  {
    seq(|ids|, k requires 0 <= k < |ids| => base + ids[k])
  }

  ghost predicate Aligned(size: nat, allocIndex: nat, freeIndex: nat, working: nat)
  {
    && allocIndex < size && freeIndex < size && working <= size
    && allocIndex == Slot(freeIndex + working, size)
  }

  ghost predicate RingRep(ring: seq<Address>, allocIndex: nat, freeIndex: nat, working: nat, base: Address, p: ListPool)
  {
    && Aligned(|ring|, allocIndex, freeIndex, working)
    && |ring| == p.size && working == |p.order|
    && Window(ring, allocIndex, |ring| - working) == At(base, p.queue)
  }

  /** The memory holds the two sentinels and `size` numbered blocks, and nothing else. */
  ghost predicate MemoryRep(m: Memory, base: Address, head: Address, tail: Address, size: nat)
  {
    && head != tail && !(base <= head < base + size) && !(base <= tail < base + size)
    && (forall a :: a in m <==> a == head || a == tail || base <= a < base + size)
    && (forall a :: base <= a < base + size ==> m[a].id == a - base)
  }

  function Nodes(head: Address, base: Address, order: seq<nat>, tail: Address): seq<Address>
  {
    [head] + At(base, order) + [tail]
  }

  lemma AlignedPop(size: nat, allocIndex: nat, freeIndex: nat, working: nat)
    requires Aligned(size, allocIndex, freeIndex, working) && working < size
    ensures Aligned(size, Slot(allocIndex + 1, size), freeIndex, working + 1)
  {
  }

  lemma RingPop(ring: seq<Address>, allocIndex: nat, freeIndex: nat, working: nat, base: Address, p: ListPool)
    requires RingRep(ring, allocIndex, freeIndex, working, base, p) && p.queue != []
    ensures allocIndex < |ring| && ring[allocIndex] == base + p.queue[0]
    ensures RingRep(ring, Slot(allocIndex + 1, |ring|), freeIndex, working + 1, base, p.Pop())
  {
    assert |At(base, p.queue)| == |ring| - working;
    AlignedPop(|ring|, allocIndex, freeIndex, working);
    hide At, Window, Slot;
    WindowOfPopped(ring, allocIndex, |ring| - working, base, p.queue);
  }

  lemma WindowOfPopped(ring: seq<Address>, start: nat, n: nat, base: Address, ids: seq<nat>)
    requires start < |ring| && 0 < n <= |ring| && ids != [] && Window(ring, start, n) == At(base, ids)
    ensures ring[start] == base + ids[0]
    ensures Window(ring, Slot(start + 1, |ring|), n - 1) == At(base, ids[1..])
  {
    WindowPop(ring, start, n);
    AtCons(base, ids);
    hide At, Window, Slot;
    ConsInjective(ring[start], Window(ring, Slot(start + 1, |ring|), n - 1), base + ids[0], At(base, ids[1..]));
  }

  lemma AtCons(base: Address, ids: seq<nat>)
    requires ids != []
    ensures At(base, ids) == [base + ids[0]] + At(base, ids[1..])
  {
  }

  lemma ConsInjective<T>(x: T, s: seq<T>, y: T, t: seq<T>)
    requires [x] + s == [y] + t
    ensures x == y && s == t
  {
    assert ([x] + s)[0] == x && ([x] + s)[1..] == s;
    assert ([y] + t)[0] == y && ([y] + t)[1..] == t;
  }

  lemma RingPush(ring: seq<Address>, allocIndex: nat, freeIndex: nat, working: nat, base: Address, p: ListPool, id: nat)
    requires RingRep(ring, allocIndex, freeIndex, working, base, p) && id in p.order
    ensures 0 < working && freeIndex < |ring|
    ensures RingRep(ring[freeIndex := base + id], allocIndex, Slot(freeIndex + 1, |ring|), working - 1, base, p.Free(id))
  {
    WindowPush(ring, allocIndex, |ring| - working, base + id);
    assert At(base, p.queue + [id]) == At(base, p.queue) + [base + id];
  }

  /** After growth by the list pools the ring is aligned exactly when the pool was full. */
  lemma RingGrow(ring: seq<Address>, allocIndex: nat, freeIndex: nat, working: nat, base: Address, p: ListPool,
                 newRing: seq<Address>, newBase: Address)
    requires RingRep(ring, allocIndex, freeIndex, working, base, p)
    requires |ring| < |newRing| && newRing[|ring|..] == At(newBase, Range(|ring|, |newRing|))
    ensures Aligned(|newRing|, |ring|, 0, working) <==> p.queue == []
    ensures p.queue == [] ==> RingRep(newRing, |ring|, 0, working, newBase, p.Grow(|newRing|))
  {
    assert |At(base, p.queue)| == |ring| - working;
    if p.queue == [] {
      assert Window(newRing, |ring|, |newRing| - working) == newRing[|ring|..];
      assert p.Grow(|newRing|).queue == Range(|ring|, |newRing|);
    }
  }

  lemma NodesDistinct(m: Memory, head: Address, base: Address, tail: Address, p: ListPool)
    requires p.Consistent() && MemoryRep(m, base, head, tail, p.size)
    ensures Distinct(Nodes(head, base, p.order, tail))
    ensures forall k :: 0 < k <= |p.order| ==> base <= Nodes(head, base, p.order, tail)[k] < base + p.size
  {
    var nodes := Nodes(head, base, p.order, tail);
    forall k | 0 < k <= |p.order| ensures base <= nodes[k] < base + p.size {
      assert p.order[k - 1] in p.order;
    }
  }

  lemma QueuedNotLinked(m: Memory, head: Address, base: Address, tail: Address, p: ListPool)
    requires p.Consistent() && p.queue != [] && MemoryRep(m, base, head, tail, p.size)
    ensures base + p.queue[0] !in Nodes(head, base, p.order, tail)
    ensures p.queue[0] < p.size
  {
    assert p.queue[0] in p.queue;
    assert forall k :: 0 <= k < |p.order| ==> p.order[k] in p.order && p.order[k] != p.queue[0];
  }

  lemma PayloadKeepsMemory(m: Memory, n: Memory, head: Address, base: Address, tail: Address, size: nat)
    requires MemoryRep(m, base, head, tail, size) && SamePayload(m, n)
    ensures MemoryRep(n, base, head, tail, size)
  {
    assert forall a :: a in m <==> a in n;
  }

  lemma ListPop(m: Memory, head: Address, base: Address, tail: Address, p: ListPool)
    requires p.Consistent() && p.queue != [] && MemoryRep(m, base, head, tail, p.size)
    requires Linked(m, Nodes(head, base, p.order, tail))
    ensures tail in m && m[tail].prev in m && base + p.queue[0] in m && m[base + p.queue[0]].id == p.queue[0]
    ensures var n := LinkedToTail(m, tail, base + p.queue[0]);
      && Linked(n, Nodes(head, base, p.Pop().order, tail))
      && SamePayload(m, n) && MemoryRep(n, base, head, tail, p.size)
  {
    var x := base + p.queue[0];
    var nodes := Nodes(head, base, p.order, tail);
    QueuedNotLinked(m, head, base, tail, p);
    TailLink(m, nodes, x);
    PayloadKeepsMemory(m, LinkedToTail(m, tail, x), head, base, tail, p.size);
    assert nodes[..|nodes| - 1] + [x, tail] == Nodes(head, base, p.Pop().order, tail);
  }

  lemma ListFree(m: Memory, head: Address, base: Address, tail: Address, p: ListPool, id: nat)
    requires p.Consistent() && id in p.order && MemoryRep(m, base, head, tail, p.size)
    requires Linked(m, Nodes(head, base, p.order, tail))
    ensures base + id in m && m[base + id].prev in m && m[base + id].next in m
    ensures var n := Unlinked(m, base + id);
      && Linked(n, Nodes(head, base, p.Free(id).order, tail))
      && SamePayload(m, n) && MemoryRep(n, base, head, tail, p.size)
  {
    hide Linked, MemoryRep, SamePayload, Unlinked, ListPool.Consistent, Without;
    var k := IndexOf(p.order, id);
    Unlink(m, Nodes(head, base, p.order, tail), k + 1);
    PayloadKeepsMemory(m, Unlinked(m, base + id), head, base, tail, p.size);
    NodesWithout(head, base, p.order, tail, k);
  }

  lemma NodesWithout(head: Address, base: Address, order: seq<nat>, tail: Address, k: nat)
    requires k < |order|
    ensures Without(Nodes(head, base, order, tail), k + 1) == Nodes(head, base, Without(order, k), tail)
  {
  }

  /** The concrete state of a pool. */
  datatype PoolState = PoolState(
    ring: seq<Address>, allocIndex: nat, freeIndex: nat, working: nat,
    mem: Memory, base: Address, head: Address, tail: Address)
  {
    ghost predicate Represents(p: ListPool)
    {
      && p.Consistent()
      && RingRep(ring, allocIndex, freeIndex, working, base, p)
      && MemoryRep(mem, base, head, tail, p.size)
      && Linked(mem, Nodes(head, base, p.order, tail))
    }

    predicate Poppable()
    {
      && allocIndex < |ring| && ring[allocIndex] in mem
      && tail in mem && mem[tail].prev in mem
    }

    function NextId(): int
      requires Poppable()
    {
      mem[ring[allocIndex]].id
    }

    function Popped(): PoolState
      requires Poppable()
    {
      this.(allocIndex := Slot(allocIndex + 1, |ring|), working := working + 1,
            mem := LinkedToTail(mem, tail, ring[allocIndex]))
    }

    predicate Freeable(id: nat)
    {
      && freeIndex < |ring| && 0 < working
      && base + id in mem && mem[base + id].prev in mem && mem[base + id].next in mem
    }

    function Freed(id: nat): PoolState
      requires Freeable(id)
    {
      this.(ring := ring[freeIndex := base + id], freeIndex := Slot(freeIndex + 1, |ring|), working := working - 1,
            mem := Unlinked(mem, base + id))
    }
  }

  lemma PoppedRep(s: PoolState, p: ListPool)
    requires s.Represents(p) && p.queue != []
    ensures s.Poppable() && s.Popped().Represents(p.Pop())
    ensures s.NextId() == p.queue[0]
    ensures SamePayload(s.mem, s.Popped().mem)
  {
    hide Linked, RingRep, MemoryRep, LinkedToTail, SamePayload, ListPool.Consistent;
    RingPop(s.ring, s.allocIndex, s.freeIndex, s.working, s.base, p);
    ListPop(s.mem, s.head, s.base, s.tail, p);
    PopConsistent(p);
  }

  lemma PoppedFacts(s: PoolState, p: ListPool)
    requires s.Represents(p) && p.queue != []
    ensures s.allocIndex < |s.ring| && s.base <= s.ring[s.allocIndex] < s.base + |s.ring|
  {
    RingPop(s.ring, s.allocIndex, s.freeIndex, s.working, s.base, p);
    assert p.queue[0] in p.queue;
  }

  lemma FreedRep(s: PoolState, p: ListPool, id: nat)
    requires s.Represents(p) && id in p.order
    ensures s.Freeable(id) && s.Freed(id).Represents(p.Free(id))
    ensures SamePayload(s.mem, s.Freed(id).mem)
  {
    hide Linked, RingRep, MemoryRep, Unlinked, SamePayload, ListPool.Consistent;
    RingPush(s.ring, s.allocIndex, s.freeIndex, s.working, s.base, p, id);
    ListFree(s.mem, s.head, s.base, s.tail, p, id);
    FreeConsistent(p, id);
  }

  lemma SizeFacts(s: PoolState, p: ListPool, id: nat)
    requires s.Represents(p)
    ensures |s.ring| == p.size && (id in p.order ==> id < p.size)
  {
  }

  /** The state of a new pool. */
  lemma FreshRep(s: PoolState, n: nat, canGrow: bool)
    requires 0 < n && s.ring == At(s.base, Range(0, n)) && (s.allocIndex, s.freeIndex, s.working) == (0, 0, 0)
    requires MemoryRep(s.mem, s.base, s.head, s.tail, n) && s.mem[s.head].next == s.tail && s.mem[s.tail].prev == s.head
    ensures s.Represents(ListPool(n, Range(0, n), [], canGrow))
  {
    assert Nodes(s.head, s.base, [], s.tail) == [s.head, s.tail];
    assert Window(s.ring, 0, n) == s.ring;
  }

  /** A grown pool represents something exactly when it was full before. */
  lemma GrownRep(s: PoolState, p: ListPool, t: PoolState)
    requires s.Represents(p) && |s.ring| < |t.ring|
    requires t.ring[|s.ring|..] == At(t.base, Range(|s.ring|, |t.ring|))
    requires (t.allocIndex, t.freeIndex, t.working) == (|s.ring|, 0, s.working)
    requires MemoryRep(t.mem, t.base, t.head, t.tail, |t.ring|)
    requires Linked(t.mem, Nodes(t.head, t.base, p.order, t.tail))
    ensures p.queue == [] ==> t.Represents(p.Grow(|t.ring|))
    ensures p.queue != [] ==> forall q :: !t.Represents(q)
  {
    RingGrow(s.ring, s.allocIndex, s.freeIndex, s.working, s.base, p, t.ring, t.base);
    GrowConsistent(p, |t.ring|);
    hide ListPool.Consistent, Linked, MemoryRep, At, Window;
  }

  lemma RepFacts(s: PoolState, p: ListPool)
    requires s.Represents(p)
    ensures 0 < |s.ring| == p.size
    ensures p.queue == [] <==> s.working >= |s.ring|
    ensures p.queue == [] <==> s.working == |s.ring|
    ensures SameData(s.mem, s.base, s.mem, s.base, p.size)
  {
    assert |At(s.base, p.queue)| == |p.queue|;
  }

  /** A full pool answers with a new id or refuses; another one with an id that it has. */
  lemma RepresentsServes(s: PoolState, p: ListPool)
    requires s.Represents(p)
    ensures s.working <= |s.ring| == p.size && 0 < p.size
    ensures s.working == |s.ring| ==> EventOf(p, AllocOp) == if p.canGrow then Allocated(|s.ring|) else Refused
    ensures s.working < |s.ring| ==> EventOf(p, AllocOp).Allocated?
  {
    RepFacts(s, p);
    assert p.Consistent();
    if p.queue == [] && p.canGrow {
      assert p.Stocked().queue == Range(p.size, 2 * p.size);
    }
  }

  /** The first `size` blocks of two memories hold the same bytes. */
  ghost predicate SameData(m: Memory, base: Address, n: Memory, newBase: Address, size: nat)
  {
    forall a :: newBase <= a < newBase + size ==> a in n && a - newBase + base in m && n[a].data == m[a - newBase + base].data
  }

  lemma SameDataThen(m: Memory, base: Address, n: Memory, newBase: Address, o: Memory, size: nat)
    requires SameData(m, base, n, newBase, size) && SamePayload(n, o)
    ensures SameData(m, base, o, newBase, size)
  {
    forall a | newBase <= a < newBase + size
      ensures a in o && a - newBase + base in m && o[a].data == m[a - newBase + base].data
    {
      assert n[a].data == o[a].data;
    }
  }

  // ---- what growing too early leads to

  /** In an empty pool every ring entry is the address of a block. */
  lemma EmptyRing(s: PoolState, p: ListPool)
    requires s.Represents(p) && s.working == 0
    ensures forall j :: 0 <= j < |s.ring| ==> s.base <= s.ring[j] < s.base + |s.ring|
  {
    var n := |s.ring|;
    var queued := Window(s.ring, s.allocIndex, n);
    assert queued == At(s.base, p.queue);
    forall j | 0 <= j < n ensures s.base <= s.ring[j] < s.base + n {
      var k := if j >= s.allocIndex then j - s.allocIndex else j + n - s.allocIndex;
      assert queued[k] == s.ring[Slot(s.allocIndex + k, n)] == s.ring[j];
      assert p.queue[k] in p.queue;
    }
  }

  lemma EmptyFacts(s: PoolState, p: ListPool)
    requires s.Represents(p) && s.working == 0
    ensures 0 < |s.ring| == p.size && p.order == [] && p.queue != []
    ensures forall j :: 0 <= j < |s.ring| ==> s.base <= s.ring[j] < s.base + |s.ring|
  {
    RepFacts(s, p);
    EmptyRing(s, p);
  }

  lemma NoNodes(s: PoolState)
    ensures Nodes(s.head, s.base, [], s.tail) == [s.head, s.tail]
  {
  }

  /** `k` blocks have been handed out from ring slot `at` on, whether or not they were in use. */
  ghost predicate Handing(s: PoolState, ring: seq<Address>, at: nat, k: nat)
  {
    && at < |ring| && k <= |ring| && s.ring == ring && s.working == k && s.freeIndex < |ring|
    && s.allocIndex == Slot(Slot(at + k, |ring|), |ring|)
    && s.tail in s.mem && s.mem[s.tail].prev in s.mem
    && (forall j :: 0 <= j < |ring| ==> ring[j] in s.mem && s.mem[ring[j]].id == ring[j] - s.base)
  }

  lemma HandingStep(s: PoolState, ring: seq<Address>, at: nat, k: nat)
    requires Handing(s, ring, at, k) && k < |ring|
    ensures s.Poppable() && s.NextId() == ring[Slot(at + k, |ring|)] - s.base
    ensures Handing(s.Popped(), ring, at, k + 1) && s.allocIndex < |ring| && s.ring == ring
  {
    LinkedKeepsIds(s.mem, s.tail, ring[s.allocIndex]);
    hide LinkedToTail;
  }

  lemma HandingRoom(s: PoolState, ring: seq<Address>, at: nat, k: nat)
    requires Handing(s, ring, at, k) && k < |ring|
    ensures s.working == k && s.Poppable() && s.Popped().base == s.base
  {
  }

  lemma LinkedKeepsIds(m: Memory, tail: Address, x: Address)
    requires tail in m && x in m && m[tail].prev in m
    ensures var n := LinkedToTail(m, tail, x);
      && n.Keys == m.Keys && n[tail].prev in n && (forall a <- m :: n[a].id == m[a].id)
  {
  }

  /** The state of an empty pool of `c` blocks that has grown. */
  ghost predicate GrownTooEarly(t: PoolState, c: nat)
  {
    && 0 < c < |t.ring| && (t.allocIndex, t.freeIndex, t.working) == (c, 0, 0) && t.ring[c] == t.base + c
    && (forall j :: 0 <= j < |t.ring| ==> t.base <= t.ring[j] < t.base + |t.ring|)
    && MemoryRep(t.mem, t.base, t.head, t.tail, |t.ring|) && Linked(t.mem, [t.head, t.tail])
  }

  /** The ring holds block `c` twice, and all blocks can be handed out. */
  ghost predicate Doubled(u: PoolState, c: nat)
  {
    && 0 < c < |u.ring| && u.ring[0] == u.ring[c] && Handing(u, u.ring, Slot(c + 1, |u.ring|), 0)
    && (forall j :: 0 <= j < |u.ring| ==> u.base <= u.ring[j] < u.base + |u.ring|)
  }

  lemma EarlyFacts(t: PoolState, c: nat)
    requires GrownTooEarly(t, c)
    ensures var x := t.base + c;
      && 0 < c < |t.ring| && t.ring[c] == x && x in t.mem && t.mem[x].id == c
      && t.head in t.mem && t.tail in t.mem && t.mem[t.tail].prev == t.head
      && x != t.head && x != t.tail && t.head != t.tail
    ensures forall j :: 0 <= j < |t.ring| ==> t.base <= t.ring[j] < t.base + |t.ring|
    ensures forall j :: 0 <= j < |t.ring| ==> t.ring[j] in t.mem && t.mem[t.ring[j]].id == t.ring[j] - t.base
    ensures (t.allocIndex, t.freeIndex, t.working) == (c, 0, 0)
  {
    EmptyList(t.mem, t.head, t.tail);
    EntriesInMemory(t.mem, t.base, t.head, t.tail, t.ring);
    hide Linked;
  }

  /** The next block is the first new one, and it can be given back. */
  lemma EarlyPop(t: PoolState, c: nat)
    requires GrownTooEarly(t, c)
    ensures t.Poppable() && t.NextId() == c && t.Popped().Freeable(c)
    ensures c < |t.ring| && t.base <= t.ring[t.allocIndex] < t.base + |t.ring|
  {
    EarlyFacts(t, c);
    hide GrownTooEarly;
    LinkAndUnlink(t.mem, t.head, t.tail, t.base + c);
    hide LinkedToTail, Unlinked, Slot;
  }

  /** After it has been handed out and given back, the ring holds it twice. */
  lemma GrownEmpty(t: PoolState, c: nat)
    requires GrownTooEarly(t, c)
    ensures t.Poppable() && t.Popped().Freeable(c) && Doubled(t.Popped().Freed(c), c)
  {
    EarlyFacts(t, c);
    EarlyPop(t, c);
    var x := t.base + c;
    LinkAndUnlink(t.mem, t.head, t.tail, x);
    EarlyFreed(t, c);
    hide GrownTooEarly, Doubled, PoolState.Poppable, PoolState.Freeable, PoolState.Popped, PoolState.Freed, LinkedToTail, Unlinked, Slot;
    DoubledState(t, Unlinked(LinkedToTail(t.mem, t.tail, x), x), c);
  }

  lemma EarlyFreed(t: PoolState, c: nat)
    requires t.Poppable() && t.Popped().Freeable(c) && 0 < c < |t.ring| && t.ring[c] == t.base + c
    requires (t.allocIndex, t.freeIndex, t.working) == (c, 0, 0)
    requires t.base + c in LinkedToTail(t.mem, t.tail, t.base + c)
    ensures var x, n := t.base + c, |t.ring|;
      t.Popped().Freed(c) == PoolState(t.ring[0 := x], Slot(c + 1, n), Slot(0 + 1, n), 0,
                                       Unlinked(LinkedToTail(t.mem, t.tail, x), x), t.base, t.head, t.tail)
  {
    hide LinkedToTail, Unlinked, Slot;
  }

  lemma DoubledState(t: PoolState, m: Memory, c: nat)
    requires 0 < c < |t.ring| && t.ring[c] == t.base + c
    requires forall j :: 0 <= j < |t.ring| ==> t.base <= t.ring[j] < t.base + |t.ring|
    requires forall j :: 0 <= j < |t.ring| ==> t.ring[j] in t.mem && t.mem[t.ring[j]].id == t.ring[j] - t.base
    requires t.head in m && t.tail in m && m[t.tail].prev == t.head
    requires m.Keys == t.mem.Keys && forall a <- t.mem :: m[a].id == t.mem[a].id
    ensures var n := |t.ring|;
      Doubled(PoolState(t.ring[0 := t.base + c], Slot(c + 1, n), Slot(0 + 1, n), 0, m, t.base, t.head, t.tail), c)
  {
    var n := |t.ring|;
    DoubledRing(t.ring, t.base, c);
    var u := PoolState(t.ring[0 := t.base + c], Slot(c + 1, n), Slot(0 + 1, n), 0, m, t.base, t.head, t.tail);
    assert forall j :: 0 <= j < n ==> u.ring[j] in t.mem && t.mem[u.ring[j]].id == u.ring[j] - t.base;
    HandingStart(u, t.mem, Slot(c + 1, n));
    hide Handing;
  }

  lemma EntriesInMemory(m: Memory, base: Address, head: Address, tail: Address, ring: seq<Address>)
    requires MemoryRep(m, base, head, tail, |ring|)
    requires forall j :: 0 <= j < |ring| ==> base <= ring[j] < base + |ring|
    ensures forall j :: 0 <= j < |ring| ==> ring[j] in m && m[ring[j]].id == ring[j] - base
  {
  }

  lemma HandingStart(u: PoolState, m: Memory, at: nat)
    requires at < |u.ring| && u.working == 0 && u.freeIndex < |u.ring| && u.allocIndex == at
    requires u.tail in u.mem && u.mem[u.tail].prev in u.mem && u.mem.Keys == m.Keys && forall a <- m :: u.mem[a].id == m[a].id
    requires forall j :: 0 <= j < |u.ring| ==> u.ring[j] in m && m[u.ring[j]].id == u.ring[j] - u.base
    ensures Handing(u, u.ring, at, 0)
  {
  }

  lemma DoubledRing(ring: seq<Address>, base: Address, c: nat)
    requires 0 < c < |ring| && ring[c] == base + c
    requires forall j :: 0 <= j < |ring| ==> base <= ring[j] < base + |ring|
    ensures var u := ring[0 := base + c];
      u[0] == u[c] && forall j :: 0 <= j < |u| ==> base <= u[j] < base + |u| && (u[j] == ring[j] || u[j] == ring[c])
  {
  }

  /** So among as many blocks as there are, handed out in ring order, it comes twice. */
  lemma ComesTwice(u: PoolState, c: nat, ids: seq<int>)
    requires Doubled(u, c) && |ids| == |u.ring|
    requires forall k :: 0 <= k < |ids| ==> ids[k] == u.ring[Slot(Slot(c + 1, |u.ring|) + k, |u.ring|)] - u.base
    ensures ids[|ids| - 1 - c] == ids[|ids| - 1]
  {
    var n := |ids|;
    assert Slot(Slot(c + 1, n) + (n - 1 - c), n) == 0 && Slot(Slot(c + 1, n) + (n - 1), n) == c;
  }

  lemma GrownEntries(was: seq<Address>, base: Address, ring: seq<Address>, newBase: Address)
    requires |was| < |ring| && ring[|was|..] == At(newBase, Range(|was|, |ring|))
    requires forall i :: 0 <= i < |was| ==> ring[i] == was[i] + (newBase - base) && base <= was[i] < base + |was|
    ensures ring[|was|] == newBase + |was|
    ensures forall j :: 0 <= j < |ring| ==> newBase <= ring[j] < newBase + |ring|
  {
    var c := |was|;
    forall j | c <= j < |ring| ensures ring[j] == newBase + j {
      assert ring[j] == ring[c..][j - c];
    }
  }

  lemma EmptyList(m: Memory, head: Address, tail: Address)
    requires Linked(m, [head, tail])
    ensures head in m && tail in m && m[tail].prev == head
  {
    var nodes := [head, tail];
    assert m[nodes[1]].prev == nodes[0] && nodes[0] in m && nodes[1] in m;
  }

  /** Linking a block into an empty list and unlinking it again changes nothing that matters. */
  lemma LinkAndUnlink(m: Memory, head: Address, tail: Address, x: Address)
    requires head in m && tail in m && x in m && x != head && x != tail && head != tail && m[tail].prev == head
    ensures var n := LinkedToTail(m, tail, x);
      && n.Keys == m.Keys && n[x].id == m[x].id && n[x].prev == head && n[x].next == tail
      && Unlinked(n, x).Keys == m.Keys && Unlinked(n, x)[tail].prev == head
      && (forall a <- m :: Unlinked(n, x)[a].id == m[a].id)
  {
  }

  // ---- walking along the links

  /** The address of node number `k` of the working list, counting from the head sentinel. */
  ghost function NodeAt(s: PoolState, p: ListPool, k: nat): Address
    requires k <= |p.order| + 1
  {
    Nodes(s.head, s.base, p.order, s.tail)[k]
  }

  lemma WalkEnds(s: PoolState, p: ListPool)
    requires s.Represents(p)
    ensures s.head in s.mem && s.mem[s.head].next == NodeAt(s, p, 1)
    ensures s.tail in s.mem && s.mem[s.tail].prev == NodeAt(s, p, |p.order|)
    ensures NodeAt(s, p, 1) == s.tail <==> p.order == []
    ensures NodeAt(s, p, |p.order|) == s.head <==> p.order == []
  {
    var nodes, n := Nodes(s.head, s.base, p.order, s.tail), |p.order|;
    assert nodes[0] == s.head && nodes[n + 1] == s.tail;
    assert s.mem[nodes[0]].next == nodes[1] && s.mem[nodes[n + 1]].prev == nodes[n];
    NodesDistinct(s.mem, s.head, s.base, s.tail, p);
  }

  lemma WalkNode(s: PoolState, p: ListPool, k: nat)
    requires s.Represents(p) && 1 <= k <= |p.order|
    ensures NodeAt(s, p, k) in s.mem
    ensures var node := s.mem[NodeAt(s, p, k)];
      && node.id == p.order[k - 1] && node.next == NodeAt(s, p, k + 1) && node.prev == NodeAt(s, p, k - 1)
    ensures NodeAt(s, p, k + 1) == s.tail <==> k == |p.order|
    ensures NodeAt(s, p, k - 1) == s.head <==> k == 1
  {
    NodesDistinct(s.mem, s.head, s.base, s.tail, p);
  }

  /** The answer of Alloc, where -1 means that the pool is exhausted. */
  function Answer(id: int): Event
  {
    if id < 0 then Refused else Allocated(id)
  }
}
