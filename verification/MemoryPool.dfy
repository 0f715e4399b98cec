/**
  The fixed-block allocator: a circular buffer of block pointers over a growing list of
  data buffers. It is proved to be a FIFO queue of free blocks.
  */
module FifoPoolModel {
  import opened Ring

  /** A block address: the data buffer it lies in and its index there. */
  datatype Block = Block(buf: nat, index: nat)

  function Total(bufs: seq<nat>): nat
  {
    if bufs == [] then 0 else Total(bufs[..|bufs| - 1]) + bufs[|bufs| - 1]
  }

  /** The blocks of data buffer number `buf`, lowest address first. */
  function BlocksOf(buf: nat, n: nat): (s: seq<Block>)
    ensures |s| == n
    ensures forall i :: 0 <= i < n ==> s[i] == Block(buf, i)
  {
    seq(n, i requires 0 <= i => Block(buf, i))
  }

  ghost predicate Exists(b: Block, bufs: seq<nat>)
  {
    b.buf < |bufs| && b.index < bufs[b.buf]
  }

  /** What a pool promises: free blocks in hand-out order, and the blocks in use. */
  datatype FifoPool = FifoPool(queue: seq<Block>, live: set<Block>, bufs: seq<nat>)
  {
    /** Every block of every data buffer is either queued once or in use, never both. */
    ghost predicate Consistent()
    {
      && Distinct(queue)
      && (forall b <- queue :: b !in live)
      && (forall b :: b in queue || b in live <==> Exists(b, bufs))
      && |queue| + |live| == Total(bufs)
    }

    function Grow(n: nat): (p: FifoPool)
      ensures Total(p.bufs) == Total(bufs) + n
    {
      assert (bufs + [n])[..|bufs|] == bufs;
      FifoPool(queue + BlocksOf(|bufs|, n), live, bufs + [n])
    }

    /** The pool that serves the next request: an exhausted one is doubled. */
    function Stocked(): (p: FifoPool)
      requires Total(bufs) > 0
      ensures p.queue != [] && Total(p.bufs) > 0
    {
      if queue == [] then Grow(Total(bufs)) else this
    }

    function Pop(): FifoPool
      requires queue != []
    {
      FifoPool(queue[1..], live + {queue[0]}, bufs)
    }

    function Free(b: Block): FifoPool
    {
      FifoPool(queue + [b], live - {b}, bufs)
    }
  }

  lemma GrowConsistent(p: FifoPool, n: nat)
    requires p.Consistent()
    ensures p.Grow(n).Consistent()
  {
    var g := p.Grow(n);
    forall b ensures b in g.queue || b in g.live <==> Exists(b, g.bufs) {
      if b.buf == |p.bufs| && b.index < n { assert b == BlocksOf(|p.bufs|, n)[b.index]; }
    }
    forall i, j | 0 <= i < j < |g.queue| ensures g.queue[i] != g.queue[j] {
      if i < |p.queue| { assert Exists(p.queue[i], p.bufs); }
    }
  }

  lemma PopConsistent(p: FifoPool)
    requires p.Consistent() && p.queue != []
    ensures p.Pop().Consistent() && p.queue[0] !in p.live
  {
    var r := p.Pop();
    forall b ensures b in r.queue || b in r.live <==> Exists(b, r.bufs) {
      assert b in p.queue <==> b == p.queue[0] || b in p.queue[1..];
    }
  }

  lemma FreeConsistent(p: FifoPool, b: Block)
    requires p.Consistent() && b in p.live
    ensures p.Free(b).Consistent()
  {
  }

  // ---- whole runs

  datatype Op = AllocOp | FreeOp(block: Block) | EnsureOp(capacity: nat)

  /** When a caller may reserve space: see `MemoryPool.EnsureSpace`. */
  predicate GrowthSafe(p: FifoPool, capacity: nat)
  {
    || capacity < Total(p.bufs)
    || (p.live != {} && (Total(p.bufs) < capacity || p.queue != []))
  }

  predicate Allowed(p: FifoPool, op: Op)
  {
    match op
    case AllocOp => true
    case FreeOp(b) => b in p.live
    case EnsureOp(c) => GrowthSafe(p, c)
  }

  function Step(p: FifoPool, op: Op): (q: FifoPool)
    requires Total(p.bufs) > 0
    ensures Total(q.bufs) >= Total(p.bufs)
  {
    match op
    case AllocOp => p.Stocked().Pop()
    case FreeOp(b) => p.Free(b)
    case EnsureOp(c) => if c < Total(p.bufs) then p else p.Grow(c - Total(p.bufs))
  }

  /** The block a step hands out. */
  function Output(p: FifoPool, op: Op): seq<Block>
    requires Total(p.bufs) > 0
  {
    if op.AllocOp? then [p.Stocked().queue[0]] else []
  }

  /** The blocks a step makes available: a freed one or newly malloc'ed ones. */
  function Supply(p: FifoPool, op: Op): seq<Block>
  {
    match op
    case AllocOp => if p.queue == [] then BlocksOf(|p.bufs|, Total(p.bufs)) else []
    case FreeOp(b) => [b]
    case EnsureOp(c) => if c < Total(p.bufs) then [] else BlocksOf(|p.bufs|, c - Total(p.bufs))
  }

  lemma StepConsistent(p: FifoPool, op: Op)
    requires Total(p.bufs) > 0 && p.Consistent() && Allowed(p, op)
    ensures Step(p, op).Consistent()
    ensures forall b <- Output(p, op) :: b !in p.live
    ensures op.AllocOp? ==> Step(p, op).live == p.live + Elements(Output(p, op))
  {
    hide FifoPool.Consistent;
    match op
    case AllocOp =>
      GrowConsistent(p, Total(p.bufs));
      PopConsistent(p.Stocked());
    case FreeOp(b) => FreeConsistent(p, b);
    case EnsureOp(c) =>
      if c >= Total(p.bufs) {
        GrowConsistent(p, c - Total(p.bufs));
      }
  }

  predicate AllowedRun(p: FifoPool, ops: seq<Op>)
    requires Total(p.bufs) > 0
    decreases |ops|
  {
    ops == [] || (Allowed(p, ops[0]) && AllowedRun(Step(p, ops[0]), ops[1..]))
  }

  function After(p: FifoPool, ops: seq<Op>): FifoPool
    requires Total(p.bufs) > 0
    decreases |ops|
  {
    if ops == [] then p else After(Step(p, ops[0]), ops[1..])
  }

  /** The blocks handed out during a run, in order. */
  function HandedOut(p: FifoPool, ops: seq<Op>): seq<Block>
    requires Total(p.bufs) > 0
    decreases |ops|
  {
    if ops == [] then [] else Output(p, ops[0]) + HandedOut(Step(p, ops[0]), ops[1..])
  }

  /** The blocks made available during a run, in order. */
  function Supplied(p: FifoPool, ops: seq<Op>): seq<Block>
    requires Total(p.bufs) > 0
    decreases |ops|
  {
    if ops == [] then [] else Supply(p, ops[0]) + Supplied(Step(p, ops[0]), ops[1..])
  }

  /** No block is lost or in use twice, however long the run. */
  lemma {:induction false} RunConserves(p: FifoPool, ops: seq<Op>)
    requires Total(p.bufs) > 0 && p.Consistent() && AllowedRun(p, ops)
    ensures After(p, ops).Consistent()
    decreases |ops|
  {
    if ops != [] {
      StepConsistent(p, ops[0]);
      RunConserves(Step(p, ops[0]), ops[1..]);
    }
  }

  /** First come, first served: the blocks handed out, followed by those still queued, are
      exactly the initial queue followed by everything supplied since, in order. */
  lemma {:induction false} RunIsFifo(p: FifoPool, ops: seq<Op>)
    requires Total(p.bufs) > 0
    ensures HandedOut(p, ops) + After(p, ops).queue == p.queue + Supplied(p, ops)
    decreases |ops|
  {
    if ops != [] {
      var q := Step(p, ops[0]);
      RunIsFifo(q, ops[1..]);
      StepIsFifo(p, ops[0]);
      Regroup(Output(p, ops[0]), HandedOut(q, ops[1..]), After(q, ops[1..]).queue,
              p.queue, Supply(p, ops[0]), q.queue, Supplied(q, ops[1..]));
    }
  }

  lemma StepIsFifo(p: FifoPool, op: Op)
    requires Total(p.bufs) > 0
    ensures Output(p, op) + Step(p, op).queue == p.queue + Supply(p, op)
  {
  }

  lemma Regroup<T>(out: seq<T>, outs: seq<T>, end: seq<T>, start: seq<T>, add: seq<T>, mid: seq<T>, adds: seq<T>)
    requires out + mid == start + add && outs + end == mid + adds
    ensures out + outs + end == start + (add + adds)
  {
    calc {
      out + outs + end;
      out + (outs + end);
      out + (mid + adds);
      (out + mid) + adds;
      (start + add) + adds;
      start + (add + adds);
    }
  }

  // ---- the ring of pointers, as a value

  datatype PoolState = PoolState(
    ptrs: seq<Block>, allocIndex: nat, freeIndex: nat, used: nat, bufs: seq<nat>, live: set<Block>)
  {
    /** Enough for every slot access to be inside the pointer buffer. */
    ghost predicate InBounds()
    {
      allocIndex < |ptrs| && freeIndex < |ptrs| && used <= |ptrs|
    }

    /** The free blocks, next to be handed out first. */
    ghost function Queue(): seq<Block>
      requires InBounds()
    {
      Window(ptrs, allocIndex, |ptrs| - used)
    }

    ghost function Model(): FifoPool
      requires InBounds()
    {
      FifoPool(Queue(), live, bufs)
    }

    ghost predicate Aligned()
    {
      InBounds() && allocIndex == Slot(freeIndex + used, |ptrs|)
    }

    ghost predicate Valid()
    {
      && Aligned()
      && Total(bufs) == |ptrs|
      && |live| == used
      && Model().Consistent()
    }

    function Popped(): PoolState
      requires allocIndex < |ptrs|
    {
      PoolState(ptrs, Slot(allocIndex + 1, |ptrs|), freeIndex, used + 1, bufs, live + {ptrs[allocIndex]})
    }

    function Pushed(b: Block): PoolState
      requires freeIndex < |ptrs| && 0 < used
    {
      PoolState(ptrs[freeIndex := b], allocIndex, Slot(freeIndex + 1, |ptrs|), used - 1, bufs, live - {b})
    }
  }

  lemma InitialValid(n: nat)
    requires 0 < n
    ensures PoolState(BlocksOf(0, n), 0, 0, 0, [n], {}).Valid()
  {
    var empty := FifoPool([], {}, []);
    GrowConsistent(empty, n);
    assert empty.Grow(n) == FifoPool(BlocksOf(0, n), {}, [n]);
    hide FifoPool.Consistent;
  }

  /** The invariant ties the two indices together as the code relies on. */
  lemma AllocIndexFormula(s: PoolState)
    requires s.Valid()
    ensures s.allocIndex == (s.freeIndex + s.used) % |s.ptrs|
  {
    SlotIsMod(s.freeIndex + s.used, |s.ptrs|);
  }

  lemma PoppedQueue(s: PoolState)
    requires s.Aligned() && s.used < |s.ptrs|
    ensures s.Popped().Aligned() && [s.ptrs[s.allocIndex]] + s.Popped().Queue() == s.Queue()
  {
    WindowPop(s.ptrs, s.allocIndex, |s.ptrs| - s.used);
  }

  lemma PushedQueue(s: PoolState, b: Block)
    requires s.Aligned() && 0 < s.used
    ensures s.Pushed(b).Aligned() && s.Pushed(b).Queue() == s.Queue() + [b]
  {
    WindowPush(s.ptrs, s.allocIndex, |s.ptrs| - s.used, b);
  }

  lemma FullIffNoQueue(s: PoolState)
    requires s.Valid()
    ensures 0 < |s.ptrs| == Total(s.bufs) && (s.used == |s.ptrs| <==> s.Queue() == []) && (s.used > 0 <==> s.live != {})
  {
  }

  lemma PoppedRefines(s: PoolState)
    requires s.Valid() && s.used < |s.ptrs|
    ensures s.Popped().Valid() && s.Popped().Model() == s.Model().Pop()
    ensures s.ptrs[s.allocIndex] == s.Queue()[0]
  {
    PoppedQueue(s);
    PopConsistent(s.Model());
  }

  lemma PushedRefines(s: PoolState, b: Block)
    requires s.Valid() && b in s.live
    ensures 0 < s.used && s.Pushed(b).Valid() && s.Pushed(b).Model() == s.Model().Free(b)
  {
    PushedQueue(s, b);
    FreeConsistent(s.Model(), b);
  }

  /** The state `EnsureSpace` leaves: slots in use first, then the queue, then the new blocks. */
  ghost predicate Grown(s: PoolState, t: PoolState, delta: nat)
    requires s.InBounds()
  {
    && t.bufs == s.bufs + [delta] && t.used == s.used && t.live == s.live
    && t.freeIndex == 0
    && |t.ptrs| == |s.ptrs| + delta
    && t.allocIndex == (if s.used == 0 then |s.ptrs| else s.used)
    && t.ptrs[s.used..] == s.Queue() + BlocksOf(|s.bufs|, delta)
  }

  /** Where the slots in use (`free`) and the queued slots (`alloc`) lie, each in up to two runs. */
  datatype Sections = Sections(
    free1: nat, numFree1: nat, free2: nat, numFree2: nat,
    alloc1: nat, numAlloc1: nat, alloc2: nat, numAlloc2: nat)
  {
    predicate Within(n: nat)
    {
      && free1 + numFree1 <= n && free2 + numFree2 <= n
      && alloc1 + numAlloc1 <= n && alloc2 + numAlloc2 <= n
      && numFree1 + numFree2 + numAlloc1 + numAlloc2 == n && 0 < numFree1
    }

    ghost function InUse(ptrs: seq<Block>): seq<Block>
      requires Within(|ptrs|)
    {
      ptrs[free1..free1 + numFree1] + ptrs[free2..free2 + numFree2]
    }

    ghost function Queued(ptrs: seq<Block>): seq<Block>
      requires Within(|ptrs|)
    {
      ptrs[alloc1..alloc1 + numAlloc1] + ptrs[alloc2..alloc2 + numAlloc2]
    }
  }

  function SectionsOf(used: nat, capacity: nat, alloc: nat, free: nat): Sections
    requires alloc < capacity && free < capacity
  {
    if used == capacity then
      Sections(free, capacity - free, 0, free, 0, 0, 0, 0)
    else if alloc > free then
      Sections(free, alloc - free, 0, 0, alloc, capacity - alloc, 0, free)
    else
      Sections(free, capacity - free, 0, alloc, alloc, free - alloc, 0, 0)
  }

  lemma WindowTwoRuns<T>(buf: seq<T>, start: nat, n: nat)
    requires start < |buf| && n <= |buf|
    ensures Window(buf, start, n) ==
      if start + n <= |buf| then buf[start..start + n] else buf[start..] + buf[..start + n - |buf|]
  {
  }

  /** The sections are the slots in use and the queue, except that an empty pool's queue
      ends up among the slots in use. */
  lemma SectionsSplit(s: PoolState)
    requires s.Aligned()
    ensures var sec := SectionsOf(s.used, |s.ptrs|, s.allocIndex, s.freeIndex);
      && sec.Within(|s.ptrs|)
      && if s.used == 0 then sec.InUse(s.ptrs) == s.Queue() && sec.Queued(s.ptrs) == []
         else |sec.InUse(s.ptrs)| == s.used && sec.Queued(s.ptrs) == s.Queue()
  {
    WindowTwoRuns(s.ptrs, s.allocIndex, |s.ptrs| - s.used);
    hide Window;
  }

  ghost function Rebuilt(s: PoolState, delta: nat): PoolState
    requires s.Aligned()
  {
    SectionsSplit(s);
    var sec := SectionsOf(s.used, |s.ptrs|, s.allocIndex, s.freeIndex);
    PoolState(sec.InUse(s.ptrs) + sec.Queued(s.ptrs) + BlocksOf(|s.bufs|, delta),
              sec.numFree1 + sec.numFree2, 0, s.used, s.bufs + [delta], s.live)
  }

  lemma RebuiltIsGrown(s: PoolState, delta: nat)
    requires s.Aligned()
    ensures Grown(s, Rebuilt(s, delta), delta)
  {
    SectionsSplit(s);
    var sec := SectionsOf(s.used, |s.ptrs|, s.allocIndex, s.freeIndex);
    var inUse, queued, blocks := sec.InUse(s.ptrs), sec.Queued(s.ptrs), BlocksOf(|s.bufs|, delta);
    assert |inUse| == sec.numFree1 + sec.numFree2 && |s.Queue()| == |s.ptrs| - s.used;
    hide Window, SectionsOf, Slot, BlocksOf;
    if s.used == 0 {
      assert (inUse + queued + blocks)[0..] == s.Queue() + blocks;
    } else {
      assert (inUse + queued + blocks)[s.used..] == queued + blocks;
    }
  }

  lemma GrownRefines(s: PoolState, t: PoolState, delta: nat)
    requires s.Valid() && Grown(s, t, delta)
    ensures t.Valid() <==> GrowthSafe(s.Model(), |s.ptrs| + delta)
    ensures t.Valid() ==> t.Model() == s.Model().Grow(delta)
  {
    if s.used > 0 && s.used < |t.ptrs| {
      GrowConsistent(s.Model(), delta);
      assert Window(t.ptrs, s.used, |t.ptrs| - s.used) == t.ptrs[s.used..];
      assert t.Model() == s.Model().Grow(delta);
    }
  }
}

module MemoryPools {
  import opened Ring
  import opened FifoPoolModel

  /** memcpy of one section of the old buffer, whose contents are `src`; empty sections are skipped. */
  method CopySection(dst: array<Block>, offset: nat, src: seq<Block>, from: nat, n: nat) returns (next: nat)
    requires offset + n <= dst.Length && from + n <= |src|
    modifies dst
    ensures next == offset + n
    ensures dst[..next] == old(dst[..offset]) + src[from..from + n]
  {
    if n > 0 {
      forall i | 0 <= i < n { dst[offset + i] := src[from + i]; }
    }
    next := offset + n;
  }

  class MemoryPool {
    var dataBufs: seq<nat>      // number of blocks in each malloc'ed data buffer
    var ptrBuf: array<Block>
    var allocIndex: nat
    var freeIndex: nat
    var capacity: nat
    var used: nat
    ghost var live: set<Block>  // blocks the callers hold

    ghost function State(): PoolState
      reads this, ptrBuf
    {
      PoolState(ptrBuf[..], allocIndex, freeIndex, used, dataBufs, live)
    }

    ghost predicate InBounds()
      reads this, ptrBuf
    {
      ptrBuf.Length == capacity && State().InBounds()
    }

    ghost predicate Valid()
      reads this, ptrBuf
    {
      ptrBuf.Length == capacity && State().Valid()
    }

    ghost function Model(): FifoPool
      requires InBounds()
      reads this, ptrBuf
    {
      State().Model()
    }

    constructor (initCapacity: nat)
      ensures Valid() && fresh(ptrBuf)
      ensures capacity == if initCapacity == 0 then 8 else initCapacity
      ensures Model() == FifoPool(BlocksOf(0, capacity), {}, [capacity])
    {
      var n := if initCapacity == 0 then 8 else initCapacity;
      var buf := new Block[n](_ => Block(0, 0));
      var i := 0;
      while i < n
        invariant 0 <= i <= n
        invariant buf[..i] == BlocksOf(0, i)
      {
        buf[i] := Block(0, i);
        i := i + 1;
      }
      dataBufs, ptrBuf := [n], buf;
      allocIndex, freeIndex, capacity, used := 0, 0, n, 0;
      live := {};
      new;
      assert ptrBuf[..] == BlocksOf(0, n);
      InitialValid(n);
      hide PoolState.Valid;
    }

    /** Hands out the block that has been free longest, doubling an exhausted pool first. */
    method Alloc() returns (b: Block)
      requires InBounds() && (used == capacity ==> Valid())
      modifies this
      ensures old(Valid()) ==>
        && Valid() && Model() == Step(old(Model()), AllocOp)
        && [b] == Output(old(Model()), AllocOp)
      ensures old(used == capacity) ==> capacity == 2 * old(capacity)
      ensures old(used < capacity) ==>
        && capacity == old(capacity) && ptrBuf == old(ptrBuf)
        && State() == old(State()).Popped() && b == old(ptrBuf[allocIndex])
      ensures fresh(ptrBuf) || ptrBuf == old(ptrBuf)
    {
      GrowIfFull();
      hide PoolState.Valid;
      ghost var valid := State().Valid();
      if valid {
        PoppedRefines(State());
      }
      b := TakeSlot();
    }

    /** Doubles an exhausted pool. */
    method GrowIfFull()
      requires InBounds() && (used == capacity ==> Valid())
      modifies this
      ensures old(used < capacity) ==> unchanged(this)
      ensures old(used == capacity) ==> capacity == 2 * old(capacity)
      ensures old(Valid()) ==> Valid() && Model() == old(Model()).Stocked()
      ensures InBounds() && used < capacity && (fresh(ptrBuf) || ptrBuf == old(ptrBuf))
    {
      if Valid() {
        FullIffNoQueue(State());
      }
      if used == capacity {
        EnsureSpace(capacity * 2);
      }
    }

    method TakeSlot() returns (b: Block)
      requires InBounds() && used < capacity
      modifies this
      ensures capacity == old(capacity) && ptrBuf == old(ptrBuf)
      ensures State() == old(State()).Popped() && b == old(ptrBuf[allocIndex])
    {
      used := used + 1;
      b := ptrBuf[allocIndex];
      allocIndex := allocIndex + 1;
      if allocIndex == capacity {
        allocIndex := 0;
      }
      live := live + {b};
    }

    /** Returns a block in use to the back of the queue. */
    method Free(b: Block)
      requires InBounds() && used > 0 && (Valid() ==> b in live)
      modifies this, ptrBuf
      ensures ptrBuf == old(ptrBuf) && capacity == old(capacity)
      ensures State() == old(State()).Pushed(b)
      ensures old(Valid()) ==> Valid() && Model() == Step(old(Model()), FreeOp(b))
    {
      if State().Valid() {
        PushedRefines(State(), b);
      }
      PutSlot(b);
    }

    method PutSlot(b: Block)
      requires InBounds() && used > 0
      modifies this, ptrBuf
      ensures ptrBuf == old(ptrBuf) && capacity == old(capacity)
      ensures State() == old(State()).Pushed(b)
    {
      ghost var s := State();
      ptrBuf[freeIndex] := b;
      freeIndex := freeIndex + 1;
      if freeIndex == capacity {
        freeIndex := 0;
      }
      used := used - 1;
      live := live - {b};
      assert State() == s.Pushed(b);
    }

    /** Grows the pool to `newCapacity` blocks. The queue keeps its order and gets exactly the new
        blocks at its back, but only if some block is in use and, when all are, the capacity really
        grows. In an empty pool every free slot is taken for a slot in use. */
    method EnsureSpace(newCapacity: nat)
      requires Valid()
      modifies this
      ensures newCapacity < old(capacity) ==> unchanged(this)
      ensures newCapacity >= old(capacity) ==>
        && fresh(ptrBuf) && capacity == newCapacity == ptrBuf.Length
        && Grown(old(State()), State(), newCapacity - old(capacity))
      ensures Valid() <==> GrowthSafe(old(Model()), newCapacity)
      ensures Valid() ==> Model() == Step(old(Model()), EnsureOp(newCapacity))
    {
      if newCapacity < capacity {
        return;
      }
      ghost var s := State();
      CopySections(newCapacity);
      GrownRefines(s, State(), newCapacity - |s.ptrs|);
    }

    /** Rebuilds the pointer buffer with the slots in use in front. */
    method CopySections(newCapacity: nat)
      requires ptrBuf.Length == capacity <= newCapacity && State().Aligned()
      modifies this
      ensures fresh(ptrBuf) && capacity == newCapacity == ptrBuf.Length
      ensures Grown(old(State()), State(), newCapacity - old(capacity))
    {
      ghost var s := State();
      var delta := newCapacity - capacity;
      var sec := SectionsOf(used, capacity, allocIndex, freeIndex);
      SectionsSplit(s);
      RebuiltIsGrown(s, delta);
      hide Grown, Window, PoolState.Aligned, SectionsOf;
      var newBuf, offset := AssembleSections(ptrBuf[..], sec, newCapacity);
      freeIndex := 0;
      allocIndex := sec.numFree1 + sec.numFree2;
      FillNewBlocks(newBuf, offset, |dataBufs|, delta);
      ptrBuf := newBuf;
      dataBufs := dataBufs + [delta];
      capacity := newCapacity;
      assert State() == Rebuilt(s, delta);
    }
  }

  /** The memcpy rounds of a growing pool. */
  method AssembleSections(src: seq<Block>, sec: Sections, newCapacity: nat) returns (buf: array<Block>, offset: nat)
    requires sec.Within(|src|) && |src| <= newCapacity
    ensures fresh(buf) && buf.Length == newCapacity && offset == |src|
    ensures buf[..offset] == sec.InUse(src) + sec.Queued(src)
  {
    buf := new Block[newCapacity](_ => Block(0, 0));
    offset := CopySection(buf, 0, src, sec.free1, sec.numFree1);
    offset := CopySection(buf, offset, src, sec.free2, sec.numFree2);
    assert buf[..offset] == sec.InUse(src);
    offset := CopySection(buf, offset, src, sec.alloc1, sec.numAlloc1);
    offset := CopySection(buf, offset, src, sec.alloc2, sec.numAlloc2);
  }

  /** Appends the blocks of a fresh data buffer. */
  method FillNewBlocks(buf: array<Block>, offset: nat, bufNo: nat, delta: nat)
    requires offset + delta == buf.Length
    modifies buf
    ensures buf[..] == old(buf[..offset]) + BlocksOf(bufNo, delta)
  {
    var i := 0;
    while i < delta
      invariant 0 <= i <= delta
      invariant buf[..offset + i] == old(buf[..offset]) + BlocksOf(bufNo, i)
    {
      buf[offset + i] := Block(bufNo, i);
      i := i + 1;
    }
  }

  /** Growing an empty pool breaks it, whatever its capacity and the new one: after one block has been
      handed out and given back, handing out blocks hands that one out twice. */
  method EmptyGrowthHandsOutTwice(pool: MemoryPool, n: nat) returns (out: seq<Block>)
    requires pool.Valid() && pool.used == 0 && pool.capacity < n
    modifies pool, pool.ptrBuf
    ensures |out| == n && out[n - 1 - old(pool.capacity)] == out[n - 1]
  {
    var c := pool.capacity;
    pool.EnsureSpace(n);
    hide PoolState.Valid, GrowthSafe;
    assert pool.InBounds() && pool.allocIndex == c && pool.freeIndex == 0 && pool.used == 0;
    hide Grown;
    var b := pool.Alloc();
    pool.Free(b);
    assert 0 < c && pool.ptrBuf[0] == pool.ptrBuf[c] == b && pool.allocIndex == Slot(c + 1, n);
    out := HandOut(pool, n);
    assert Slot(Slot(c + 1, n) + (n - 1 - c), n) == 0 && Slot(Slot(c + 1, n) + (n - 1), n) == c;
  }

  /** Hands out as many blocks as the pool has slots, in the order of the slots. */
  method HandOut(pool: MemoryPool, n: nat) returns (out: seq<Block>)
    requires pool.InBounds() && pool.capacity == n && pool.used == 0
    modifies pool
    ensures |out| == n && forall k :: 0 <= k < n ==> out[k] == old(pool.ptrBuf[Slot(pool.allocIndex + k, n)])
  {
    ghost var slots, at := pool.ptrBuf[..], pool.allocIndex;
    hide PoolState.Valid;
    out := [];
    while |out| < n
      invariant |out| <= n && pool.InBounds() && pool.capacity == n && pool.ptrBuf[..] == slots
      invariant pool.used == |out| && pool.allocIndex == Slot(Slot(at + |out|, n), n)
      invariant forall k :: 0 <= k < |out| ==> out[k] == slots[Slot(at + k, n)]
    {
      var x := pool.Alloc();
      out := out + [x];
    }
  }

  /** Asking a full pool for the capacity it has leaves the allocation index outside the buffer. */
  method FullPoolSameCapacity(pool: MemoryPool)
    requires pool.Valid() && pool.used == pool.capacity
    modifies pool
    ensures pool.allocIndex == pool.capacity == pool.ptrBuf.Length && !pool.Valid()
  {
    assert pool.capacity > 0;
    pool.EnsureSpace(pool.capacity);
  }

  /** Runs any allowed sequence of calls on a real pool and collects the blocks it hands out. */
  method Execute(pool: MemoryPool, ops: seq<Op>) returns (out: seq<Block>)
    requires pool.Valid()
    requires AllowedRun(pool.Model(), ops)
    modifies pool, pool.ptrBuf
    ensures pool.Valid()
    ensures pool.Model() == After(old(pool.Model()), ops)
    ensures out == HandedOut(old(pool.Model()), ops)
    ensures fresh(pool.ptrBuf) || pool.ptrBuf == old(pool.ptrBuf)
    decreases |ops|
  {
    out := [];
    if ops == [] {
      return;
    }
    match ops[0] {
      case AllocOp =>
        var b := pool.Alloc();
        out := [b];
      case FreeOp(b) =>
        pool.Free(b);
      case EnsureOp(c) =>
        pool.EnsureSpace(c);
    }
    var rest := Execute(pool, ops[1..]);
    out := out + rest;
  }
}
