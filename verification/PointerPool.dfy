/**
  The pointer-based list pool. Its blocks live in one buffer, linked by addresses; growing
  moves the buffer, so every stored address has to be shifted by the distance moved.
  */
module PointerPools {
  import opened Ring
  import opened ListPoolModel
  import opened WorkingList
  import opened ListPoolRep

  /** malloc: some address range of length `n` away from the sentinels and the current buffer. */
  method Malloc(n: nat, base: Address, size: nat, head: Address, tail: Address) returns (a: Address)
    ensures a + n <= base || base + size <= a
    ensures !(a <= head < a + n) && !(a <= tail < a + n)
  {
    a := base + size;
    if a <= head { a := head + 1; }
    if a <= tail { a := tail + 1; }
  }

  /** What the first walk finds: the new blocks, still linked by old addresses. */
  ghost predicate Movable(m: Memory, was: seq<Address>, now: seq<Address>, delta: int)
  {
    && 2 <= |now| == |was| && Distinct(now) && Distinct(was)
    && was[0] == now[0] && was[|was| - 1] == now[|now| - 1]
    && (forall k :: 0 < k < |was| - 1 ==> was[k] + delta == now[k])
    && (forall k :: 0 <= k < |now| ==> now[k] in m)
  }

  ghost predicate SameButNext(m: Memory, n: Memory)
  {
    m.Keys == n.Keys && forall a <- m :: n[a] == m[a].(next := n[a].next)
  }

  ghost predicate SameButPrev(m: Memory, n: Memory)
  {
    m.Keys == n.Keys && forall a <- m :: n[a] == m[a].(prev := n[a].prev)
  }

  /** The forward walk has shifted the `next` links of the first `k` nodes. */
  ghost predicate ShiftedNext(mem: Memory, m: Memory, was: seq<Address>, now: seq<Address>, k: int)
    requires |was| == |now| && forall j :: 0 <= j < |now| ==> now[j] in m
  {
    && SameButNext(mem, m)
    && (forall j :: 0 <= j < k && j < |now| - 1 ==> m[now[j]].next == now[j + 1])
    && (forall j :: 0 <= k <= j < |now| - 1 ==> m[now[j]].next == was[j + 1])
  }

  /** The backward walk has shifted the `prev` links of the nodes after number `k`. */
  ghost predicate ShiftedPrev(mem: Memory, m: Memory, was: seq<Address>, now: seq<Address>, k: int)
    requires |was| == |now| && forall j :: 0 <= j < |now| ==> now[j] in m
  {
    && SameButPrev(mem, m)
    && (forall j :: 0 <= k < j < |now| ==> m[now[j]].prev == now[j - 1])
    && (forall j :: 0 < j <= k && j < |now| ==> m[now[j]].prev == was[j - 1])
  }

  lemma ShiftNext(mem: Memory, m: Memory, was: seq<Address>, now: seq<Address>, delta: int, k: nat)
    requires Movable(m, was, now, delta) && k < |now| - 2 && ShiftedNext(mem, m, was, now, k)
    ensures var m' := SetNext(m, now[k], m[now[k]].next + delta);
      m'[now[k]].next == now[k + 1] && Movable(m', was, now, delta) && ShiftedNext(mem, m', was, now, k + 1)
  {
  }

  lemma ShiftPrev(mem: Memory, m: Memory, was: seq<Address>, now: seq<Address>, delta: int, k: nat)
    requires Movable(m, was, now, delta) && 1 < k < |now| && ShiftedPrev(mem, m, was, now, k)
    ensures var m' := SetPrev(m, now[k], m[now[k]].prev + delta);
      m'[now[k]].prev == now[k - 1] && Movable(m', was, now, delta) && ShiftedPrev(mem, m', was, now, k - 1)
  {
  }

  method RelocateForward(mem: Memory, head: Address, tail: Address, delta: int,
                         ghost was: seq<Address>, ghost now: seq<Address>) returns (m: Memory)
    requires Movable(mem, was, now, delta) && now[0] == head && now[|now| - 1] == tail
    requires forall k :: 0 <= k < |now| - 1 ==> mem[now[k]].next == was[k + 1]
    ensures SameButNext(mem, m)
    ensures forall k :: 0 <= k < |now| - 1 ==> m[now[k]].next == now[k + 1]
  {
    m := mem;
    var cur := head;
    ghost var k := 0;
    while m[cur].next != tail
      invariant 0 <= k < |now| - 1 && cur == now[k]
      invariant Movable(m, was, now, delta) && ShiftedNext(mem, m, was, now, k)
      decreases |now| - k
    {
      assert k < |now| - 2;
      hide Movable, ShiftedNext;
      ShiftNext(mem, m, was, now, delta, k);
      m := SetNext(m, cur, m[cur].next + delta);
      cur := m[cur].next;
      k := k + 1;
    }
    assert k + 1 == |now| - 1;
  }

  method RelocateBackward(mem: Memory, head: Address, tail: Address, delta: int,
                          ghost was: seq<Address>, ghost now: seq<Address>) returns (m: Memory)
    requires Movable(mem, was, now, delta) && now[0] == head && now[|now| - 1] == tail
    requires forall k :: 0 < k < |now| ==> mem[now[k]].prev == was[k - 1]
    ensures SameButPrev(mem, m)
    ensures forall k :: 0 < k < |now| ==> m[now[k]].prev == now[k - 1]
  {
    m := mem;
    var cur := tail;
    ghost var k := |now| - 1;
    while m[cur].prev != head
      invariant 0 < k < |now| && cur == now[k]
      invariant Movable(m, was, now, delta) && ShiftedPrev(mem, m, was, now, k)
      decreases k
    {
      assert k > 1;
      hide Movable, ShiftedPrev;
      ShiftPrev(mem, m, was, now, delta, k);
      m := SetPrev(m, cur, m[cur].prev + delta);
      cur := m[cur].prev;
      k := k - 1;
    }
    assert k == 1;
  }

  /** `m` is `mem` with a new buffer whose first blocks are byte copies of the old ones. */
  ghost predicate Copied(mem: Memory, m: Memory, base: Address, size: nat, newBase: Address, newSize: nat, zero: Data)
    requires forall a :: base <= a < base + size ==> a in mem
  {
    && (forall a :: a in m <==> a in mem || newBase <= a < newBase + newSize)
    && (forall a <- mem :: m[a] == mem[a])
    && (forall a :: newBase <= a < newBase + size <= newBase + newSize ==> m[a] == mem[a - newBase + base])
    && (forall a :: newBase + size <= a < newBase + newSize ==> m[a] == Node(0, 0, a - newBase, zero))
  }

  method BlankBlocks(mem: Memory, from: Address, to: Address, firstId: nat, zero: Data) returns (m: Memory)
    requires from <= to && forall a :: from <= a < to ==> a !in mem
    ensures forall a :: a in m <==> a in mem || from <= a < to
    ensures forall a <- mem :: m[a] == mem[a]
    ensures forall a :: from <= a < to ==> m[a] == Node(0, 0, firstId + (a - from), zero)
  {
    m := mem;
    var i := from;
    while i < to
      invariant from <= i <= to
      invariant forall a :: a in m <==> a in mem || from <= a < i
      invariant forall a <- mem :: m[a] == mem[a]
      invariant forall a :: from <= a < i ==> m[a] == Node(0, 0, firstId + (a - from), zero)
    {
      m := m[i := Node(0, 0, firstId + (i - from), zero)];
      i := i + 1;
    }
  }

  method CopyBlocks(mem: Memory, base: Address, size: nat, newBase: Address) returns (m: Memory)
    requires newBase + size <= base || base + size <= newBase
    requires forall a :: base <= a < base + size ==> a in mem
    requires forall a :: newBase <= a < newBase + size ==> a !in mem
    ensures forall a :: a in m <==> a in mem || newBase <= a < newBase + size
    ensures forall a <- mem :: m[a] == mem[a]
    ensures forall a :: newBase <= a < newBase + size ==> m[a] == mem[a - newBase + base]
  {
    m := mem;
    var i := 0;
    while i < size
      invariant 0 <= i <= size
      invariant forall a :: a in m <==> a in mem || newBase <= a < newBase + i
      invariant forall a <- mem :: m[a] == mem[a]
      invariant forall a :: newBase <= a < newBase + i ==> m[a] == mem[a - newBase + base]
    {
      m := m[newBase + i := m[base + i]];
      i := i + 1;
    }
  }

  function FreeBuffer(m: Memory, base: Address, size: nat): Memory
  {
    map a | a in m && !(base <= a < base + size) :: m[a]
  }

  lemma CopiedMovable(mem: Memory, m: Memory, head: Address, tail: Address, base: Address, p: ListPool,
                      newBase: Address, newSize: nat, zero: Data)
    requires p.Consistent() && p.size <= newSize
    requires MemoryRep(mem, base, head, tail, p.size) && Linked(mem, Nodes(head, base, p.order, tail))
    requires !(newBase <= head < newBase + newSize) && !(newBase <= tail < newBase + newSize)
    requires Copied(mem, m, base, p.size, newBase, newSize, zero)
    ensures var was, now := Nodes(head, base, p.order, tail), Nodes(head, newBase, p.order, tail);
      && Movable(m, was, now, newBase - base)
      && (forall k :: 0 <= k < |now| - 1 ==> m[now[k]].next == was[k + 1])
      && (forall k :: 0 < k < |now| ==> m[now[k]].prev == was[k - 1])
  {
    var was, now := Nodes(head, base, p.order, tail), Nodes(head, newBase, p.order, tail);
    forall k | 0 <= k < |now| ensures now[k] in m && m[now[k]] == mem[was[k]] {
      CopiedNode(mem, m, head, tail, base, p, newBase, newSize, zero, k);
    }
    NodesDistinct(mem, head, base, tail, p);
    MovedDistinct(head, tail, base, p, newBase, newSize);
    assert |was| == |now|;
    hide Copied, MemoryRep, Nodes, Distinct;
  }

  lemma CopiedNode(mem: Memory, m: Memory, head: Address, tail: Address, base: Address, p: ListPool,
                   newBase: Address, newSize: nat, zero: Data, k: nat)
    requires p.Consistent() && p.size <= newSize && k < |p.order| + 2
    requires MemoryRep(mem, base, head, tail, p.size)
    requires Copied(mem, m, base, p.size, newBase, newSize, zero)
    ensures var was, now := Nodes(head, base, p.order, tail)[k], Nodes(head, newBase, p.order, tail)[k];
      was in mem && now in m && m[now] == mem[was]
  {
    hide Distinct;
    if 0 < k <= |p.order| {
      var id := p.order[k - 1];
      assert id in p.order;
      assert Nodes(head, newBase, p.order, tail)[k] == newBase + id && Nodes(head, base, p.order, tail)[k] == base + id;
      hide Nodes, At, ListPool.Consistent;
      assert newBase <= newBase + id < newBase + p.size;
    }
  }

  lemma MovedDistinct(head: Address, tail: Address, base: Address, p: ListPool, newBase: Address, newSize: nat)
    requires p.Consistent() && p.size <= newSize && head != tail
    requires !(newBase <= head < newBase + newSize) && !(newBase <= tail < newBase + newSize)
    ensures Distinct(Nodes(head, newBase, p.order, tail))
  {
    assert forall k :: 0 <= k < |p.order| ==> p.order[k] in p.order;
  }

  /** The relocated memory, once the old buffer is freed. */
  lemma MovedRep(mem: Memory, c: Memory, f: Memory, m: Memory, head: Address, tail: Address, base: Address, p: ListPool,
                 newBase: Address, newSize: nat, zero: Data)
    requires p.Consistent() && p.size <= newSize && (newBase + newSize <= base || base + p.size <= newBase)
    requires MemoryRep(mem, base, head, tail, p.size)
    requires !(newBase <= head < newBase + newSize) && !(newBase <= tail < newBase + newSize)
    requires Copied(mem, c, base, p.size, newBase, newSize, zero) && SameButNext(c, f) && SameButPrev(f, m)
    ensures MemoryRep(FreeBuffer(m, base, p.size), newBase, head, tail, newSize)
    ensures SameData(mem, base, FreeBuffer(m, base, p.size), newBase, p.size)
  {
    assert forall a :: a in m <==> a in c;
  }

  /** Mallocs the new buffer and fills it. */
  method NewBuffer(mem: Memory, head: Address, tail: Address, base: Address, size: nat, newSize: nat, zero: Data)
    returns (c: Memory, newBase: Address)
    requires size <= newSize && MemoryRep(mem, base, head, tail, size)
    ensures newBase + newSize <= base || base + size <= newBase
    ensures !(newBase <= head < newBase + newSize) && !(newBase <= tail < newBase + newSize)
    ensures Copied(mem, c, base, size, newBase, newSize, zero)
  {
    newBase := Malloc(newSize, base, size, head, tail);
    c := BlankBlocks(mem, newBase + size, newBase + newSize, size, zero);
    c := CopyBlocks(c, base, size, newBase);
  }

  /** Both walks over the working list. */
  method RelocateLinks(c: Memory, head: Address, tail: Address, delta: int,
                       ghost was: seq<Address>, ghost now: seq<Address>) returns (m: Memory, ghost f: Memory)
    requires Movable(c, was, now, delta) && now[0] == head && now[|now| - 1] == tail
    requires forall k :: 0 <= k < |now| - 1 ==> c[now[k]].next == was[k + 1]
    requires forall k :: 0 < k < |now| ==> c[now[k]].prev == was[k - 1]
    ensures SameButNext(c, f) && SameButPrev(f, m) && Linked(m, now)
  {
    m := RelocateForward(c, head, tail, delta, was, now);
    f := m;
    m := RelocateBackward(m, head, tail, delta, was, now);
  }

  /** Moves the block buffer: the working list is the same at the new addresses, the old buffer is
      gone, and block ids and contents are unchanged. */
  method MoveBuffer(mem: Memory, head: Address, tail: Address, base: Address, ghost p: ListPool,
                    size: nat, newSize: nat, zero: Data) returns (m: Memory, newBase: Address)
    requires p.Consistent() && size == p.size <= newSize
    requires MemoryRep(mem, base, head, tail, size)
    requires Linked(mem, Nodes(head, base, p.order, tail))
    ensures MemoryRep(m, newBase, head, tail, newSize)
    ensures Linked(m, Nodes(head, newBase, p.order, tail))
    ensures SameData(mem, base, m, newBase, size)
  {
    hide Copied, Movable, SameButNext, SameButPrev, SameData, ListPool.Consistent, FreeBuffer;
    var c;
    c, newBase := NewBuffer(mem, head, tail, base, size, newSize, zero);
    CopiedMovable(mem, c, head, tail, base, p, newBase, newSize, zero);
    ghost var f;
    m, f := RelocateLinks(c, head, tail, newBase - base,
                          Nodes(head, base, p.order, tail), Nodes(head, newBase, p.order, tail));
    MoveDone(mem, c, f, m, head, tail, base, p, newBase, newSize, zero);
    m := FreeBuffer(m, base, size);
  }

  lemma MoveDone(mem: Memory, c: Memory, f: Memory, m: Memory, head: Address, tail: Address, base: Address, p: ListPool,
                 newBase: Address, newSize: nat, zero: Data)
    requires p.Consistent() && p.size <= newSize && (newBase + newSize <= base || base + p.size <= newBase)
    requires MemoryRep(mem, base, head, tail, p.size)
    requires !(newBase <= head < newBase + newSize) && !(newBase <= tail < newBase + newSize)
    requires Copied(mem, c, base, p.size, newBase, newSize, zero) && SameButNext(c, f) && SameButPrev(f, m)
    requires Linked(m, Nodes(head, newBase, p.order, tail))
    ensures var r := FreeBuffer(m, base, p.size);
      && MemoryRep(r, newBase, head, tail, newSize)
      && Linked(r, Nodes(head, newBase, p.order, tail))
      && SameData(mem, base, r, newBase, p.size)
  {
    MovedRep(mem, c, f, m, head, tail, base, p, newBase, newSize, zero);
    FreedLinks(m, head, tail, base, p, newBase, newSize);
  }

  lemma FreedLinks(m: Memory, head: Address, tail: Address, base: Address, p: ListPool, newBase: Address, newSize: nat)
    requires p.Consistent() && p.size <= newSize
    requires Linked(m, Nodes(head, newBase, p.order, tail))
    requires MemoryRep(FreeBuffer(m, base, p.size), newBase, head, tail, newSize)
    ensures Linked(FreeBuffer(m, base, p.size), Nodes(head, newBase, p.order, tail))
  {
    var r, now := FreeBuffer(m, base, p.size), Nodes(head, newBase, p.order, tail);
    forall k | 0 <= k < |now| ensures now[k] in r && r[now[k]] == m[now[k]] {
      if 0 < k <= |p.order| { assert p.order[k - 1] in p.order; }
    }
  }

  /** The new pointer ring: the old entries shifted with the buffer, then the new blocks. */
  method NewRing(ring: array<Address>, newSize: nat, newBase: Address, delta: int) returns (r: array<Address>)
    requires ring.Length <= newSize
    ensures fresh(r) && r.Length == newSize
    ensures forall i :: 0 <= i < ring.Length ==> r[i] == ring[i] + delta
    ensures r[..][ring.Length..] == At(newBase, Range(ring.Length, newSize))
  {
    r := new Address[newSize](_ => 0);
    var i := ring.Length;
    while i < newSize
      invariant ring.Length <= i <= newSize
      invariant forall j :: ring.Length <= j < i ==> r[j] == newBase + j
    {
      r[i] := newBase + i;
      i := i + 1;
    }
    i := 0;
    while i < ring.Length
      invariant 0 <= i <= ring.Length
      invariant forall j :: 0 <= j < i ==> r[j] == ring[j] + delta
      invariant forall j :: ring.Length <= j < newSize ==> r[j] == newBase + j
    {
      r[i] := ring[i];
      r[i] := r[i] + delta;
      i := i + 1;
    }
  }

  class PointerPool {
    const head: Address       // addresses of the two sentinels
    const tail: Address
    const zero: Data          // a block of zero bytes
    var mem: Memory           // the sentinels and the block buffer
    var base: Address         // address of the block buffer
    var ring: array<Address>
    var allocIndex: nat
    var freeIndex: nat
    var size: nat
    var workingNum: nat
    var enableRealloc: bool
    ghost var model: ListPool

    ghost function State(): PoolState
      reads this`allocIndex, this`freeIndex, this`workingNum, this`ring, ring, this`mem, this`base
    {
      PoolState(ring[..], allocIndex, freeIndex, workingNum, mem, base, head, tail)
    }

    ghost predicate Valid()
      reads this, ring
    {
      && ring.Length == size && model.canGrow == enableRealloc
      && State().Represents(model)
    }

    constructor (initSize: nat, realloc: bool, headAddress: Address, tailAddress: Address, blank: Data)
      requires 0 < initSize && headAddress != tailAddress
      ensures Valid() && fresh(ring)
      ensures model == ListPool(initSize, Range(0, initSize), [], realloc)
      ensures (head, tail) == (headAddress, tailAddress) && ring[..] == At(base, Range(0, initSize))
    {
      head, tail, zero := headAddress, tailAddress, blank;
      size, enableRealloc := initSize, realloc;
      var b := Malloc(initSize, 0, 0, headAddress, tailAddress);
      var sentinels: Memory := map[headAddress := Node(0, tailAddress, 0, blank), tailAddress := Node(headAddress, 0, 0, blank)];
      var m := BlankBlocks(sentinels, b, b + initSize, 0, blank);
      var none := new Address[0];
      var r := NewRing(none, initSize, b, 0);
      base, mem, ring := b, m, r;
      allocIndex, freeIndex, workingNum := 0, 0, 0;
      model := ListPool(initSize, Range(0, initSize), [], realloc);
      new;
      assert ring[..] == At(base, Range(0, size));
      FreshRep(State(), initSize, realloc);
      hide PoolState.Represents;
    }

    method GetData(id: nat) returns (d: Data)
      requires Valid() && id < size
      ensures base + id in mem && mem[base + id].id == id && d == mem[base + id].data
    {
      d := mem[base + id].data;
    }

    /** Makes room for `newSize` blocks. The pool survives a real growth exactly when it was full:
        then the working list is the same list at the new addresses, block contents are
        unchanged and the free blocks are exactly the new ones. */
    method EnsureSize(newSize: nat) returns (ok: bool)
      requires Valid()
      modifies this
      ensures ok == (newSize <= old(size) || enableRealloc)
      ensures !(old(size) < newSize && enableRealloc) ==> unchanged(this)
      ensures old(size) < newSize && enableRealloc ==>
        && size == newSize == ring.Length && model.size == (if old(workingNum == size) then newSize else old(size))
        && (allocIndex, freeIndex, workingNum) == (old(size), 0, old(workingNum))
        && (forall i :: 0 <= i < old(size) ==> ring[i] == old(ring[i]) + (base - old(base)))
        && ring[..][old(size)..] == At(base, Range(old(size), newSize))
        && Linked(mem, Nodes(head, base, old(model).order, tail)) && MemoryRep(mem, base, head, tail, size)
      ensures old(size) <= size && SameData(old(mem), old(base), mem, base, old(size))
      ensures Valid() <==> newSize <= old(size) || !enableRealloc || old(workingNum == size)
      ensures Valid() && old(size) < newSize && enableRealloc ==> model == old(model).Grow(newSize)
      ensures enableRealloc == old(enableRealloc) && (fresh(ring) || ring == old(ring))
    {
      RepFacts(State(), model);
      if newSize <= size {
        return true;
      }
      if enableRealloc {
        ghost var p, s := model, State();
        assert ring.Length == size && s.mem == mem && MemoryRep(mem, base, head, tail, size);
        hide PoolState.Represents, SameData, Linked, MemoryRep, At, ListPool.Consistent;
        var newMem, newBase := MoveBuffer(mem, head, tail, base, model, size, newSize, zero);
        var newRing := NewRing(ring, newSize, newBase, newBase - base);
        mem, base, ring := newMem, newBase, newRing;
        allocIndex, freeIndex, size := size, 0, newSize;
        GrownRep(s, p, State());
        if p.queue == [] {
          model := p.Grow(newSize);
        }
        return true;
      }
      return false;
    }

    /** Hands out the block that has been free longest and appends it to the working list. */
    method Alloc() returns (id: int)
      requires Valid() || (Misfit() && workingNum < size && State().Poppable())
      modifies this
      ensures old(Valid()) ==>
        && Valid() && model == Step(old(model), AllocOp) && Answer(id) == EventOf(old(model), AllocOp)
        && old(size) <= size && SameData(old(mem), old(base), mem, base, old(size))
      ensures enableRealloc == old(enableRealloc) && (fresh(ring) || ring == old(ring))
      ensures !old(Valid()) ==>
        Misfit() && ring == old(ring) && State() == old(State()).Popped() && id == old(State()).NextId()
      ensures size == if old(workingNum < size) || !enableRealloc then old(size) else 2 * old(size)
      ensures old(Valid()) ==>
        && (id == -1 <==> old(workingNum == size) && !enableRealloc)
        && (old(workingNum == size) && enableRealloc ==> id == old(size))
    {
      hide PoolState.Represents, PoolState.Poppable, PoolState.Popped, SameData, SamePayload;
      ghost var valid := Valid();
      if valid {
        RepresentsServes(State(), model);
      }
      var ok := HaveRoom();
      if !ok {
        return -1;
      }
      if valid {
        PoppedRep(State(), model);
        SameDataThen(old(mem), old(base), mem, base, State().Popped().mem, old(size));
      }
      id := TakeBlock();
      if valid {
        model := model.Pop();
      }
    }

    /** The pool has been grown when it was not full, and represents nothing. */
    ghost predicate Misfit()
      reads this, ring
    {
      ring.Length == size && model.size != size
    }

    /** Grows a full pool if that is allowed. */
    method HaveRoom() returns (ok: bool)
      requires Valid() || (Misfit() && workingNum < size)
      modifies this
      ensures old(Valid()) ==>
        && Valid() && ok == !old(model).Exhausted() && model == old(model).Stocked() && (ok ==> model.queue != [])
        && old(size) <= size && SameData(old(mem), old(base), mem, base, old(size))
      ensures enableRealloc == old(enableRealloc) && (fresh(ring) || ring == old(ring))
      ensures !old(Valid()) ==> ok && unchanged(this)
      ensures ok == (old(workingNum < size) || enableRealloc)
      ensures size == if old(workingNum < size) || !enableRealloc then old(size) else 2 * old(size)
    {
      if Valid() {
        RepFacts(State(), model);
      }
      hide PoolState.Represents, SameData;
      ok := true;
      if workingNum >= size {
        ok := EnsureSize(size * 2);
      }
    }

    method TakeBlock() returns (id: int)
      requires ring.Length == size && State().Poppable()
      modifies this`allocIndex, this`workingNum, this`mem
      ensures State() == old(State()).Popped() && id == old(State()).NextId()
    {
      var block := ring[allocIndex];
      allocIndex := allocIndex + 1;
      if allocIndex == size {
        allocIndex := 0;
      }
      workingNum := workingNum + 1;
      LinkToTail(block);
      id := mem[block].id;
    }

    /** Puts a block in use back at the end of the queue and takes it out of the working list. */
    method Free(id: nat)
      requires (Valid() && id in model.order) || (Misfit() && State().Freeable(id))
      modifies this, ring
      ensures old(Valid()) ==> Valid() && model == Step(old(model), FreeOp(id)) && SamePayload(old(mem), mem)
      ensures ring == old(ring) && base == old(base) && size == old(size) && enableRealloc == old(enableRealloc)
      ensures !old(Valid()) ==> Misfit() && State() == old(State()).Freed(id)
    {
      hide PoolState.Represents, PoolState.Freeable, PoolState.Freed, SamePayload;
      ghost var valid := Valid();
      if valid {
        SizeFacts(State(), model, id);
        FreedRep(State(), model, id);
      }
      ReturnBlock(base + id, id);
      if valid {
        model := model.Free(id);
      }
    }

    method ReturnBlock(block: Address, ghost id: nat)
      requires ring.Length == size && block == base + id && State().Freeable(id)
      modifies this`freeIndex, this`workingNum, this`mem, ring
      ensures State() == old(State()).Freed(id)
    {
      ring[freeIndex] := block;
      freeIndex := freeIndex + 1;
      if freeIndex == size {
        freeIndex := 0;
      }
      workingNum := workingNum - 1;
      mem := SetNext(mem, mem[block].prev, mem[block].next);
      mem := SetPrev(mem, mem[block].next, mem[block].prev);
    }

    method LinkToTail(block: Address)
      requires tail in mem && block in mem && mem[tail].prev in mem
      modifies this`mem
      ensures mem == LinkedToTail(old(mem), tail, block)
    {
      mem := SetNext(mem, mem[tail].prev, block);
      mem := SetPrev(mem, block, mem[tail].prev);
      mem := SetPrev(mem, tail, block);
      mem := SetNext(mem, block, tail);
    }

    /** Inserts a block that is not linked at the front of the list. */
    method LinkToHead(block: Address, ghost nodes: seq<Address>)
      requires Linked(mem, nodes) && nodes[0] == head && block in mem && block !in nodes
      modifies this`mem
      ensures Linked(mem, [head, block] + nodes[1..]) && SamePayload(old(mem), mem)
    {
      HeadLink(mem, nodes, block);
      mem := SetPrev(mem, mem[head].next, block);
      mem := SetNext(mem, block, mem[head].next);
      mem := SetNext(mem, head, block);
      mem := SetPrev(mem, block, head);
    }

    /** Follows the `next` links from the head sentinel. */
    method WalkForward() returns (ids: seq<nat>)
      requires Valid()
      ensures ids == model.order
    {
      ghost var s, n := State(), |model.order|;
      hide PoolState.Represents, NodeAt;
      WalkEnds(s, model);
      ids := [];
      var cur := mem[head].next;
      while cur != tail
        invariant |ids| <= n && ids == model.order[..|ids|] && cur == NodeAt(s, model, |ids| + 1)
        invariant cur == tail <==> |ids| == n
        decreases n - |ids|
      {
        WalkNode(s, model, |ids| + 1);
        ids := ids + [mem[cur].id];
        cur := mem[cur].next;
      }
    }

    /** Follows the `prev` links from the tail sentinel. */
    method WalkBackward() returns (ids: seq<nat>)
      requires Valid()
      ensures |ids| == |model.order| && forall k :: 0 <= k < |ids| ==> ids[k] == model.order[|ids| - 1 - k]
    {
      ghost var s, n := State(), |model.order|;
      hide PoolState.Represents, NodeAt;
      WalkEnds(s, model);
      ids := [];
      var cur := mem[tail].prev;
      while cur != head
        invariant |ids| <= n && cur == NodeAt(s, model, n - |ids|)
        invariant cur == head <==> |ids| == n
        invariant forall k :: 0 <= k < |ids| ==> ids[k] == model.order[n - 1 - k]
        decreases n - |ids|
      {
        WalkNode(s, model, n - |ids|);
        ids := ids + [mem[cur].id];
        cur := mem[cur].prev;
      }
    }
  }
}
