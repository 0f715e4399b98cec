/**
  The index-based list pool: the same pool with block numbers in place of addresses, so that
  growing can copy the blocks as they are. Numbers -1 and -2 stand for the sentinels.
  */
module IndexPools {
  import opened Ring
  import opened ListPoolModel
  import opened WorkingList
  import opened ListPoolRep

  const HEAD_ID: int := -1
  const TAIL_ID: int := -2

  class IndexPool {
    const zero: Data
    var blocks: array<Node>
    var head: Node             // the two sentinels
    var tail: Node
    var ring: array<int>
    var allocIndex: nat
    var freeIndex: nat
    var size: nat
    var workingNum: nat
    var enableRealloc: bool
    ghost var model: ListPool

    /** Reads the block or sentinel with number `a`, as GetNext and GetPrev do. */
    function Get(a: int): Node
      requires TAIL_ID <= a < blocks.Length
      reads this`head, this`tail, this`blocks, blocks
    {
      if a == HEAD_ID then head else if a == TAIL_ID then tail else blocks[a]
    }

    /** The blocks and sentinels, addressed by number. */
    ghost function Mem(): Memory
      reads this`head, this`tail, this`blocks, blocks
    {
      map a | TAIL_ID <= a < blocks.Length :: Get(a)
    }

    lemma MemAt(a: int)
      ensures a in Mem() <==> TAIL_ID <= a < blocks.Length
      ensures a in Mem() ==> Mem()[a] == Get(a)
    {
    }

    ghost function State(): PoolState
      reads this`allocIndex, this`freeIndex, this`workingNum, this`ring, ring
      reads this`head, this`tail, this`blocks, blocks
    {
      PoolState(ring[..], allocIndex, freeIndex, workingNum, Mem(), 0, HEAD_ID, TAIL_ID)
    }

    ghost predicate Valid()
      reads this, blocks, ring
    {
      && ring.Length == size && blocks.Length == size && model.canGrow == enableRealloc
      && State().Represents(model)
    }

    constructor (initSize: nat, realloc: bool, blank: Data)
      requires 0 < initSize
      ensures Valid() && fresh(ring) && fresh(blocks)
      ensures model == ListPool(initSize, Range(0, initSize), [], realloc)
      ensures head.id == HEAD_ID && tail.id == TAIL_ID
    {
      zero := blank;
      size, enableRealloc := initSize, realloc;
      blocks := new Node[initSize](i requires 0 <= i => Node(0, 0, i, blank));
      ring := new int[initSize](i => i);
      head, tail := Node(0, TAIL_ID, HEAD_ID, blank), Node(HEAD_ID, 0, TAIL_ID, blank);
      allocIndex, freeIndex, workingNum := 0, 0, 0;
      model := ListPool(initSize, Range(0, initSize), [], realloc);
      new;
      assert ring[..] == At(0, Range(0, size));
      FreshRep(State(), initSize, realloc);
      hide PoolState.Represents;
    }

    method Put(a: int, n: Node)
      requires a in Mem()
      modifies this`head, this`tail, blocks
      ensures Mem() == old(Mem())[a := n]
    {
      if a == HEAD_ID {
        head := n;
      } else if a == TAIL_ID {
        tail := n;
      } else {
        blocks[a] := n;
      }
    }

    method LinkToTail(block: nat)
      requires block < blocks.Length && tail.prev in Mem()
      modifies this`head, this`tail, blocks
      ensures Mem() == LinkedToTail(old(Mem()), TAIL_ID, block)
    {
      Put(tail.prev, Get(tail.prev).(next := block));
      Put(block, Get(block).(prev := tail.prev));
      Put(TAIL_ID, tail.(prev := block));
      Put(block, Get(block).(next := TAIL_ID));
    }

    /** Inserts a block that is not linked at the front of the list. */
    method LinkToHead(block: nat, ghost nodes: seq<int>)
      requires Linked(Mem(), nodes) && nodes[0] == HEAD_ID && block < blocks.Length && block !in nodes
      modifies this`head, this`tail, blocks
      ensures Linked(Mem(), [HEAD_ID, block] + nodes[1..]) && SamePayload(old(Mem()), Mem())
    {
      HeadLink(Mem(), nodes, block);
      hide Linked, SamePayload;
      Put(head.next, Get(head.next).(prev := block));
      Put(block, Get(block).(next := head.next));
      Put(HEAD_ID, head.(next := block));
      Put(block, Get(block).(prev := HEAD_ID));
      assert Mem() == LinkedToHead(old(Mem()), HEAD_ID, block);
    }

    method GetData(id: nat) returns (d: Data)
      requires Valid() && id < size
      ensures id in Mem() && Mem()[id].id == id && d == Mem()[id].data
    {
      d := blocks[id].data;
    }

    /** Hands out the block that has been free longest and appends it to the working list. */
    method Alloc() returns (id: int)
      requires Valid() || (Misfit() && workingNum < size && State().Poppable() && 0 <= ring[allocIndex] < size)
      modifies this, blocks
      ensures old(Valid()) ==>
        && Valid() && model == Step(old(model), AllocOp) && Answer(id) == EventOf(old(model), AllocOp)
        && old(size) <= size && SameData(old(Mem()), 0, Mem(), 0, old(size))
      ensures enableRealloc == old(enableRealloc)
      ensures (fresh(ring) || ring == old(ring)) && (fresh(blocks) || blocks == old(blocks))
      ensures !old(Valid()) ==>
        && Misfit() && ring == old(ring) && blocks == old(blocks)
        && State() == old(State()).Popped() && id == old(State()).NextId()
      ensures size == if old(workingNum < size) || !enableRealloc then old(size) else 2 * old(size)
      ensures old(Valid()) ==>
        && (id == -1 <==> old(workingNum == size) && !enableRealloc)
        && (old(workingNum == size) && enableRealloc ==> id == old(size))
    {
      hide PoolState.Represents, PoolState.Poppable, PoolState.Popped, PoolState.NextId, SameData, SamePayload, Mem;
      ghost var valid := Valid();
      if valid {
        RepresentsServes(State(), model);
      }
      var ok := HaveRoom();
      if !ok {
        return -1;
      }
      if valid {
        PoppedRep(State(), model);
        PoppedFacts(State(), model);
        SameDataThen(old(Mem()), 0, Mem(), 0, State().Popped().mem, old(size));
      }
      id := TakeBlock();
      if valid {
        model := model.Pop();
      }
    }

    /** The pool has been grown when it was not full, and represents nothing. */
    ghost predicate Misfit()
      reads this, blocks, ring
    {
      ring.Length == size && blocks.Length == size && model.size != size
    }

    /** Grows a full pool if that is allowed. */
    method HaveRoom() returns (ok: bool)
      requires Valid() || (Misfit() && workingNum < size)
      modifies this
      ensures old(Valid()) ==>
        && Valid() && ok == !old(model).Exhausted() && model == old(model).Stocked() && (ok ==> model.queue != [])
        && old(size) <= size && SameData(old(Mem()), 0, Mem(), 0, old(size))
      ensures enableRealloc == old(enableRealloc)
      ensures (fresh(ring) || ring == old(ring)) && (fresh(blocks) || blocks == old(blocks))
      ensures !old(Valid()) ==> ok && unchanged(this)
      ensures ok == (old(workingNum < size) || enableRealloc)
      ensures size == if old(workingNum < size) || !enableRealloc then old(size) else 2 * old(size)
    {
      if Valid() {
        RepFacts(State(), model);
      }
      hide PoolState.Represents, SameData, Mem;
      ok := true;
      if workingNum >= size {
        ok := EnsureSize(size * 2);
      }
    }

    method TakeBlock() returns (id: int)
      requires ring.Length == size && blocks.Length == size && State().Poppable() && 0 <= ring[allocIndex] < size
      modifies this`allocIndex, this`workingNum, this`head, this`tail, blocks
      ensures State() == old(State()).Popped() && id == old(State()).NextId()
    {
      var block := ring[allocIndex];
      assert tail.prev in Mem();
      MemAt(block);
      LinkedKeepsId(Mem(), TAIL_ID, block);
      hide Mem, Get, LinkedToTail;
      NextSlot();
      LinkToTail(block);
      MemAt(block);
      id := Get(block).id;
    }

    method NextSlot()
      requires allocIndex < size
      modifies this`allocIndex, this`workingNum
      ensures allocIndex == Slot(old(allocIndex) + 1, size) && workingNum == old(workingNum) + 1
    {
      allocIndex := allocIndex + 1;
      if allocIndex == size {
        allocIndex := 0;
      }
      workingNum := workingNum + 1;
    }

    /** Puts a block in use back at the end of the queue and takes it out of the working list. */
    method Free(id: nat)
      requires (Valid() && id in model.order) || (Misfit() && id < size && State().Freeable(id))
      modifies this, ring, blocks
      ensures old(Valid()) ==> Valid() && model == Step(old(model), FreeOp(id)) && SamePayload(old(Mem()), Mem())
      ensures ring == old(ring) && blocks == old(blocks) && size == old(size) && enableRealloc == old(enableRealloc)
      ensures !old(Valid()) ==> Misfit() && State() == old(State()).Freed(id)
    {
      hide PoolState.Represents, PoolState.Freeable, PoolState.Freed, SamePayload, Mem;
      ghost var valid := Valid();
      if valid {
        SizeFacts(State(), model, id);
        FreedRep(State(), model, id);
      }
      ReturnBlock(id);
      if valid {
        model := model.Free(id);
      }
    }

    method ReturnBlock(id: nat)
      requires ring.Length == size && blocks.Length == size && id < size && State().Freeable(id)
      modifies this`freeIndex, this`workingNum, this`head, this`tail, ring, blocks
      ensures State() == old(State()).Freed(id)
    {
      MemAt(id);
      hide Mem;
      ring[freeIndex] := id;
      freeIndex := freeIndex + 1;
      if freeIndex == size {
        freeIndex := 0;
      }
      workingNum := workingNum - 1;
      Unlink(id);
    }

    method Unlink(id: nat)
      requires id < blocks.Length && blocks[id].prev in Mem() && blocks[id].next in Mem()
      modifies this`head, this`tail, blocks
      ensures Mem() == Unlinked(old(Mem()), id)
    {
      ghost var m := Mem();
      Put(blocks[id].prev, Get(blocks[id].prev).(next := blocks[id].next));
      assert Mem()[id].next == m[id].next;
      Put(blocks[id].next, Get(blocks[id].next).(prev := blocks[id].prev));
    }

    /** Follows the `next` links from the head sentinel. */
    method WalkForward() returns (ids: seq<nat>)
      requires Valid()
      ensures ids == model.order
    {
      ghost var s, n := State(), |model.order|;
      hide PoolState.Represents, Mem, NodeAt;
      WalkEnds(s, model);
      ids := [];
      MemAt(HEAD_ID);
      var cur := head.next;
      while cur != TAIL_ID
        invariant |ids| <= n && ids == model.order[..|ids|] && cur == NodeAt(s, model, |ids| + 1)
        invariant cur == TAIL_ID <==> |ids| == n
        decreases n - |ids|
      {
        WalkNode(s, model, |ids| + 1);
        MemAt(cur);
        ids := ids + [Get(cur).id];
        cur := Get(cur).next;
      }
    }

    /** Follows the `prev` links from the tail sentinel. */
    method WalkBackward() returns (ids: seq<nat>)
      requires Valid()
      ensures |ids| == |model.order| && forall k :: 0 <= k < |ids| ==> ids[k] == model.order[|ids| - 1 - k]
    {
      ghost var s, n := State(), |model.order|;
      hide PoolState.Represents, Mem, NodeAt;
      WalkEnds(s, model);
      ids := [];
      MemAt(TAIL_ID);
      var cur := tail.prev;
      while cur != HEAD_ID
        invariant |ids| <= n && cur == NodeAt(s, model, n - |ids|)
        invariant cur == HEAD_ID <==> |ids| == n
        invariant forall k :: 0 <= k < |ids| ==> ids[k] == model.order[n - 1 - k]
        decreases n - |ids|
      {
        WalkNode(s, model, n - |ids|);
        MemAt(cur);
        ids := ids + [Get(cur).id];
        cur := Get(cur).prev;
      }
    }

    /** Makes room for `newSize` blocks. The pool survives a real growth exactly when it was full. */
    method EnsureSize(newSize: nat) returns (ok: bool)
      requires Valid()
      modifies this
      ensures ok == (newSize <= old(size) || enableRealloc)
      ensures !(old(size) < newSize && enableRealloc) ==> unchanged(this)
      ensures old(size) < newSize && enableRealloc ==>
        && size == newSize == ring.Length == blocks.Length && model.size == (if old(workingNum == size) then newSize else old(size))
        && (allocIndex, freeIndex, workingNum) == (old(size), 0, old(workingNum))
        && (forall i :: 0 <= i < old(size) ==> ring[i] == old(ring[i]))
        && ring[..][old(size)..] == At(0, Range(old(size), newSize))
        && Linked(Mem(), Nodes(HEAD_ID, 0, old(model).order, TAIL_ID)) && MemoryRep(Mem(), 0, HEAD_ID, TAIL_ID, size)
      ensures old(size) <= size && SameData(old(Mem()), 0, Mem(), 0, old(size))
      ensures Valid() <==> newSize <= old(size) || !enableRealloc || old(workingNum == size)
      ensures Valid() && old(size) < newSize && enableRealloc ==> model == old(model).Grow(newSize)
      ensures enableRealloc == old(enableRealloc)
      ensures (fresh(ring) || ring == old(ring)) && (fresh(blocks) || blocks == old(blocks))
    {
      RepFacts(State(), model);
      hide PoolState.Represents, SameData, Extends, At, Mem, Linked, MemoryRep, Nodes, Range, ListPool.Grow;
      if newSize <= size {
        return true;
      }
      if enableRealloc {
        ghost var p, s := model, State();
        CopyToLarger(newSize);
        LargerMemory(s, p, Mem(), newSize);
        GrownRep(s, p, State());
        if p.queue == [] {
          model := p.Grow(newSize);
        }
        return true;
      }
      return false;
    }

    /** New buffers: the old blocks and ring entries as they are, then fresh ones. */
    method CopyToLarger(newSize: nat)
      requires ring.Length == size && blocks.Length == size < newSize
      modifies this`blocks, this`ring, this`size, this`allocIndex, this`freeIndex
      ensures fresh(ring) && fresh(blocks) && ring.Length == blocks.Length == size == newSize
      ensures allocIndex == old(size) && freeIndex == 0
      ensures forall j :: 0 <= j < old(size) ==> ring[j] == old(ring[j])
      ensures ring[..][old(size)..] == At(0, Range(old(size), newSize))
      ensures Extends(old(Mem()), Mem(), old(size), newSize)
    {
      var newRing := LargerRing(ring, newSize);
      var newBlocks := LargerBlocks(blocks, newSize, zero);
      allocIndex, freeIndex := size, 0;
      size, blocks, ring := newSize, newBlocks, newRing;
    }
  }

  method LargerRing(ring: array<int>, newSize: nat) returns (r: array<int>)
    requires ring.Length < newSize
    ensures fresh(r) && r.Length == newSize
    ensures forall j :: 0 <= j < ring.Length ==> r[j] == ring[j]
    ensures r[..][ring.Length..] == At(0, Range(ring.Length, newSize))
  {
    r := new int[newSize](_ => 0);
    var i := ring.Length;
    while i < newSize
      invariant ring.Length <= i <= newSize
      invariant forall j :: ring.Length <= j < i ==> r[j] == j
    {
      r[i] := i;
      i := i + 1;
    }
    forall j | 0 <= j < ring.Length { r[j] := ring[j]; }
  }

  method LargerBlocks(blocks: array<Node>, newSize: nat, zero: Data) returns (b: array<Node>)
    requires blocks.Length < newSize
    ensures fresh(b) && b.Length == newSize
    ensures forall j :: 0 <= j < blocks.Length ==> b[j] == blocks[j]
    ensures forall j :: blocks.Length <= j < newSize ==> b[j].id == j
  {
    b := new Node[newSize](_ => Node(0, 0, 0, zero));
    var i := blocks.Length;
    while i < newSize
      invariant blocks.Length <= i <= newSize
      invariant forall j :: blocks.Length <= j < i ==> b[j].id == j
    {
      b[i] := b[i].(id := i);
      i := i + 1;
    }
    forall j | 0 <= j < blocks.Length { b[j] := blocks[j]; }
  }

  /** `n` is `m` with blocks `size` .. `newSize` added. */
  ghost predicate Extends(m: Memory, n: Memory, size: nat, newSize: nat)
  {
    && (forall a :: a in n <==> TAIL_ID <= a < newSize)
    && (forall a :: TAIL_ID <= a < size <= newSize ==> a in m && n[a] == m[a])
    && (forall a :: size <= a < newSize ==> n[a].id == a)
  }

  lemma LargerMemory(s: PoolState, p: ListPool, m: Memory, newSize: nat)
    requires s.Represents(p) && p.size <= newSize && s.base == 0 && s.head == HEAD_ID && s.tail == TAIL_ID
    requires Extends(s.mem, m, p.size, newSize)
    ensures MemoryRep(m, 0, HEAD_ID, TAIL_ID, newSize)
    ensures Linked(m, Nodes(HEAD_ID, 0, p.order, TAIL_ID))
    ensures SameData(s.mem, 0, m, 0, p.size)
  {
    var nodes := Nodes(HEAD_ID, 0, p.order, TAIL_ID);
    NodesDistinct(s.mem, s.head, s.base, s.tail, p);
    forall k | 0 <= k < |nodes| ensures nodes[k] in m && m[nodes[k]] == s.mem[nodes[k]] {
    }
  }
}
