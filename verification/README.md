# Verified models from Hakuna_Matata

Dafny models of the repository's hardest code, with proofs. Each model keeps the shape of its
source: structures updated in place are classes, loops are loops with invariants, and each of them
is proved against a specification about which the general results are then shown.

| file | what it models |
|---|---|
| `Ring.dfy`, `MemoryPool.dfy` | the C memory pool: a ring of free block addresses that grows by rebuilding |
| `ListPoolModel.dfy`, `WorkingList.dfy` | what the two list pools have in common: an id queue and a doubly linked list of the blocks in use |
| `PointerPool.dfy`, `IndexPool.dfy`, `ListPools.dfy` | the list pool with addresses, which relocates its links when it grows, the list pool with indices, and both side by side |
| `Wakeup.dfy` | producers and a consumer around a queue, a mutex and an eventfd, as a state machine over all interleavings |
| `SelectLoop.dfy` | the select event loop, whose callbacks add contexts while its list is walked |
| `Sender.dfy` | five ways to send records over a socket that takes any part of what it is given |
| `LoanMath.dfy`, `Loan.dfy` | the home loan calculator: two repayment schemes, two debts, a fund and a lump sum |
| `NumberTheory.dfy` | Euclid's algorithm, linear combinations, linear congruences and the square test |
| `Murmur.dfy` | MurmurHash3 (x86, 32 bits) |
| `TcpTracker.dfy` | the per-direction TCP session tracker |
| `RefCount.dfy` | the reference-counted handle |
| `Codec.dfy` | the framed message codec and the connection handler that uses it |
| `Options.dfy` | a value that may be missing |

`dafny verify dfyconfig.toml` checks the whole project.

Some properties one would expect are false of the code. For these the code is modelled as it is, a
concrete case or a whole family of cases shows the failure, and the exact condition is proved:

- Growing an *empty* memory pool counts its queue among the slots in use, so later Allocs hand out a
  block twice (`MemoryPools.EmptyGrowthHandsOutTwice`); asking a *full* one for its present capacity
  leaves the allocation index out of range (`MemoryPools.FullPoolSameCapacity`). The condition is in
  `MemoryPools.MemoryPool.EnsureSpace`. Alloc itself always doubles a full pool, which is safe.
- Growing a list pool that is *not full* by calling EnsureSize leaves a state that represents no pool
  (`ListPoolRep.GrownRep`); from an empty one some block is then handed out twice
  (`ListPools.EmptyGrowthPointers`, `ListPools.EmptyGrowthIndices`). Alloc itself only grows full pools.
- A callback that registers the descriptor of a context that failed earlier in the same pass loses its
  context and leaves a stale descriptor watched (`SelectLoop.ReusedDescriptorLost`), unless the walk is
  over by then (`SelectLoop.EvLoop.WalkFor`).
- After a simultaneous close the tracker flags the next connection of the same endpoints
  (`TcpTracker.ReopeningFlagged`); a trace is silent exactly when every start with a fresh number meets
  no session (`TcpTracker.SilentIffClean`).
- A FIN or SYN that carries data, or a packet with both flags, is counted as one, so the correct next
  packet is flagged (`TcpTracker.FinWithDataFlagged`, `TcpTracker.MiscountFlagged`).
- A connection that fails for good inside a payload keeps the decoder in its loop for ever
  (`Codec.LostAfterHeader`, `Codec.BytesCodec.Decode`).
- A payload of 2^32 bytes or more does not survive the codec (`Codec.HugePayloadLost`,
  `Codec.RoundTripExactly`).
- The coefficients read off the symbolic equation are wrong exactly when one input divides the other
  (`NumberTheory.ReadOffExample`, `NumberTheory.ReadOffExactly`).
- A congruence whose computed gcd is negative and divides the right side gets an empty list
  (`NumberTheory.NegativeGcdMisses`, `NumberTheory.LinearCongruence`); for positive inputs the list is complete.
- The square test answers no for zero (`NumberTheory.ZeroMissed`, `NumberTheory.IsSquare`).
- A debt whose last balance is below one hundredth is never cleared (`Loans.SmallDebtStays`,
  `Loans.ClearsExactly`).

## Model

| member | source | states |
|---|---|---|
| `FifoPoolModel.StepConsistent` | play/cpp/try/src/memory_pool.c:45-190 | Every allowed call keeps the live and the queued blocks disjoint, free of repeats and together exactly the blocks of the data buffers; a block handed out was not live, and becomes live. |
| `FifoPoolModel.RunConserves` | play/cpp/try/src/memory_pool.c:45-190 | The same conservation after any allowed run of Alloc, Free and EnsureSpace. |
| `FifoPoolModel.RunIsFifo` | play/cpp/try/src/memory_pool.c:45-76 | Over any run, the blocks handed out followed by the final queue are the first queue followed by everything freed or newly allocated, in that order. |
| `FifoPoolModel.AllocIndexFormula` | play/cpp/try/src/memory_pool.c:59-76 | In every valid state the allocation index is the free index plus the number in use, modulo the capacity. |
| `FifoPoolModel.PoppedRefines` | play/cpp/try/src/memory_pool.c:51-65 | Taking the slot at the allocation index is popping the queue of the abstract pool. |
| `FifoPoolModel.PushedRefines` | play/cpp/try/src/memory_pool.c:69-75 | Storing a live block at the free index is appending it to the queue of the abstract pool. |
| `FifoPoolModel.SectionsSplit` | play/cpp/try/src/memory_pool.c:95-148 | The up to four sections are the slots in use and then the queue in order, except that the queue of an empty pool lands among the slots in use. |
| `FifoPoolModel.RebuiltIsGrown` | play/cpp/try/src/memory_pool.c:150-182 | The rebuilt buffer holds, after the slots in use, the old queue and then the new blocks. |
| `FifoPoolModel.GrownRefines` | play/cpp/try/src/memory_pool.c:78-190 | The grown state is valid exactly when growth was safe for the abstract pool, and then it is the abstract growth. |
| `FifoPoolModel.InitialValid` | play/cpp/try/src/memory_pool.c:6-32 | The freshly filled buffer is a valid state. |
| `MemoryPools.MemoryPool.constructor` | play/cpp/try/src/memory_pool.c:6-32 | A new pool is valid, its queue is the blocks of its one data buffer in order, and capacity zero becomes eight. |
| `MemoryPools.MemoryPool.Alloc` | play/cpp/try/src/memory_pool.c:45-66 | On a valid pool Alloc is the abstract step and returns the head of the queue; a full pool has its capacity doubled first; on any pool with room it takes the slot at the allocation index. |
| `MemoryPools.MemoryPool.TakeSlot` | play/cpp/try/src/memory_pool.c:51-65 | One slot is taken, the index wraps at the capacity, and the buffer is untouched. |
| `MemoryPools.MemoryPool.Free` | play/cpp/try/src/memory_pool.c:67-76 | On a valid pool freeing a live block is the abstract step; in place, one slot is written. |
| `MemoryPools.MemoryPool.EnsureSpace` | play/cpp/try/src/memory_pool.c:78-190 | A smaller capacity changes nothing; otherwise the buffer is rebuilt, and the result is valid if and only if some block is live and the pool really grows or has a free block; then it is the abstract growth. |
| `MemoryPools.MemoryPool.CopySections` | play/cpp/try/src/memory_pool.c:95-189 | The copying keeps the queue in order behind the slots in use and appends the new blocks. |
| `MemoryPools.CopySection` | play/cpp/try/src/memory_pool.c:154-175 | One memcpy appends a section of the old buffer at the offset, and moves the offset past it. |
| `MemoryPools.AssembleSections` | play/cpp/try/src/memory_pool.c:150-175 | The four copies in sequence give the slots in use followed by the queue and fill the old capacity. |
| `MemoryPools.FillNewBlocks` | play/cpp/try/src/memory_pool.c:177-182 | The rest of the new buffer is filled with the blocks of the new data buffer in order. |
| `MemoryPools.EmptyGrowthHandsOutTwice` | play/cpp/try/src/memory_pool.c:78-190 | For every empty pool and every larger capacity: EnsureSpace, Alloc, Free of that block, and then as many Allocs as there are slots hand out one block twice without a Free in between. |
| `MemoryPools.FullPoolSameCapacity` | play/cpp/try/src/memory_pool.c:78-190 | For every full pool, asking for the capacity it has leaves the allocation index one past the buffer. |
| `MemoryPools.MemoryPool.GrowIfFull` | play/cpp/try/src/memory_pool.c:47-50 | The capacity of a full pool is doubled, which is the abstract growth, and any other is left alone. |
| `MemoryPools.Execute` | play/cpp/try/src/memory_pool.c:45-190 | Running any allowed list of calls on the array pool gives the abstract final state and hands out the abstract blocks. |
| `Ring.WindowPop` | play/cpp/try/src/memory_pool.c:59-64 | The queue read from a ring slot on is that slot followed by the queue from the next slot on, across the wrap. |
| `Ring.WindowPush` | play/cpp/try/src/memory_pool.c:69-74 | Writing the slot after the queue appends to the queue, across the wrap. |
| `ListPoolModel.Partition` | play/cpp/try/inc/list_memory_pool.h:149-213 | In a consistent list pool every id is either queued or in the working list and not both. |
| `ListPoolModel.StepConsistent` | play/cpp/try/inc/list_memory_pool.h:149-213 | Every allowed Alloc and Free keeps that, and an id handed out was not in use. |
| `ListPoolModel.AllocateLists` | play/cpp/try/inc/list_memory_pool.h:149-182 | If the working list holds the ids in use in allocation order, it still does with a fresh id appended after its Alloc. |
| `ListPoolModel.FreeLists` | play/cpp/try/inc/list_memory_pool.h:188-213 | It still does with a freed id cut out, whatever its position. |
| `ListPoolModel.RunLists` | play/cpp/try/inc/list_memory_pool.h:149-213 | After any run the working list holds exactly the ids allocated and not freed since, by time of last allocation. |
| `ListPoolModel.ListsInUseUnique` | play/cpp/try/inc/list_memory_pool.h:149-213 | The history of a run determines the working list. |
| `ListPoolModel.FirstComeFirstServed` | play/cpp/try/inc/list_memory_pool.h:149-213 | Over any run of a new pool the ids handed out followed by the final queue are the first ids and then, in order, each freed id and, whenever one is wanted and none is left, as many new ids as there are ids. |
| `ListPoolModel.RunServes` | play/cpp/try/inc/list_memory_pool.h:149-213 | The same from any consistent state, by the history of the calls alone. |
| `ListPoolModel.FullPoolDoubles` | play/cpp/try/inc/list_memory_pool.h:151 | A full pool of size n that may grow has size 2n after its next n Allocs, which answer n, n+1, up to 2n-1; one that may not grow refuses and is unchanged. |
| `WorkingList.TailLink` | play/cpp/try/inc/list_memory_pool.h:241-247 | The four link writes before the tail sentinel keep a proper doubly linked list, with the new block last and no payload changed. |
| `WorkingList.HeadLink` | play/cpp/try/inc/list_memory_pool.h:233-240 | The four link writes after the head sentinel keep a proper doubly linked list, with the new block first and no payload changed. |
| `WorkingList.Unlink` | play/cpp/try/inc/list_memory_pool.h:207-208 | The two link writes of Free keep a proper doubly linked list without the block and change no payload. |
| `ListPoolRep.RingPop` | play/cpp/try/inc/list_memory_pool.h:160-171 | Advancing the allocation index drops the head of the id queue that the ring represents. |
| `ListPoolRep.RingPush` | play/cpp/try/inc/list_memory_pool.h:193-205 | Writing the freed block and advancing the free index appends its id to the queue. |
| `ListPoolRep.RingGrow` | play/cpp/try/inc/list_memory_pool.h:132-141 | After growth with the indices set to the old size and zero, the ring is aligned if and only if the pool was full. |
| `ListPoolRep.PoppedRep` | play/cpp/try/inc/list_memory_pool.h:149-182 | The whole state after Alloc represents the abstract pool after Alloc; the id returned is the head of the queue. |
| `ListPoolRep.FreedRep` | play/cpp/try/inc/list_memory_pool.h:188-213 | The whole state after Free represents the abstract pool after Free. |
| `ListPoolRep.GrownRep` | play/cpp/try/inc/list_memory_pool.h:79-147 | The whole state after growth represents the grown pool if it was full, and no pool at all otherwise. |
| `ListPoolRep.FreshRep` | play/cpp/try/inc/list_memory_pool.h:41-72 | The state of a new pool represents the pool with all ids queued in order. |
| `PointerPools.RelocateForward` | play/cpp/try/inc/list_memory_pool.h:117-123 | The forward loop over half moved links ends with every next link pointing into the new buffer and changes nothing else. |
| `PointerPools.RelocateBackward` | play/cpp/try/inc/list_memory_pool.h:125-130 | The backward loop does the same for every prev link. |
| `PointerPools.RelocateLinks` | play/cpp/try/inc/list_memory_pool.h:117-130 | The two loops together leave the same list, linked both ways, in the new buffer. |
| `PointerPools.BlankBlocks` | play/cpp/try/inc/list_memory_pool.h:94-101 | Fresh blocks are zeroed and numbered and nothing else changes. |
| `PointerPools.CopyBlocks` | play/cpp/try/inc/list_memory_pool.h:104 | The old blocks are copied byte for byte, with their old links. |
| `PointerPools.NewBuffer` | play/cpp/try/inc/list_memory_pool.h:90-105 | The new buffer overlaps nothing, starts as a copy and ends in numbered blanks. |
| `PointerPools.MoveBuffer` | play/cpp/try/inc/list_memory_pool.h:90-134 | Moving keeps the list order, the ids and all data, and the memory is then exactly the sentinels and the new buffer. |
| `PointerPools.NewRing` | play/cpp/try/inc/list_memory_pool.h:97-115 | Ring entries are shifted by the distance between the buffers and the new ones name the new blocks. |
| `PointerPools.PointerPool.constructor` | play/cpp/try/inc/list_memory_pool.h:41-72 | A new pool is valid with all ids queued in order and an empty list. |
| `PointerPools.PointerPool.EnsureSize` | play/cpp/try/inc/list_memory_pool.h:79-147 | The answer is whether there is room now; data survives; the pool is valid afterwards if and only if nothing was done or it was full, and then it is the abstract growth. |
| `PointerPools.PointerPool.Alloc` | play/cpp/try/inc/list_memory_pool.h:149-182 | On a valid pool Alloc is the abstract step and gives its answer, and keeps all data across a possible move; a full pool that may grow doubles and answers its old size, the answer is minus one exactly when it is full and may not grow, and the size changes in no other case; on a pool broken by growing too early it takes the block at the allocation index. |
| `PointerPools.PointerPool.HaveRoom` | play/cpp/try/inc/list_memory_pool.h:151-158 | It refuses exactly when the pool is full and may not grow, doubles exactly a full pool that may, and otherwise leaves a non-empty queue. |
| `PointerPools.PointerPool.TakeBlock` | play/cpp/try/inc/list_memory_pool.h:160-181 | The block at the allocation index goes to the end of the list and its id is returned. |
| `PointerPools.PointerPool.Free` | play/cpp/try/inc/list_memory_pool.h:188-213 | On a valid pool freeing a block in use is the abstract step and changes no payload; on a broken one it writes the ring and unlinks. |
| `PointerPools.PointerPool.GetData` | play/cpp/try/inc/list_memory_pool.h:183-186 | The data is that of the block with the given id. |
| `PointerPools.PointerPool.LinkToTail` | play/cpp/try/inc/list_memory_pool.h:241-247 | The in-place writes are those the list lemma is about. |
| `PointerPools.PointerPool.LinkToHead` | play/cpp/try/inc/list_memory_pool.h:233-240 | An unlinked block becomes the first of the list and no payload changes. |
| `PointerPools.PointerPool.WalkForward` | play/cpp/try/inc/list_memory_pool.h:251-265 | Following the next links from the head visits exactly the blocks in use in allocation order, and stops. |
| `PointerPools.PointerPool.WalkBackward` | play/cpp/try/inc/list_memory_pool.h:125-130 | Following the prev links from the tail visits the same blocks in reverse. |
| `IndexPools.IndexPool.constructor` | play/cpp/try/inc/list_memory_pool_use_index.h:47-80 | A new pool is valid with all ids queued in order, an empty list and the two sentinels numbered HEAD_ID and TAIL_ID. |
| `IndexPools.IndexPool.Alloc` | play/cpp/try/inc/list_memory_pool_use_index.h:132-165 | On a valid pool Alloc is the same abstract step with the same answer as in the pool with addresses: doubling and answering its old size when full, minus one exactly when it is full and may not grow; on a broken one it takes the block at the allocation index. |
| `IndexPools.IndexPool.TakeBlock` | play/cpp/try/inc/list_memory_pool_use_index.h:143-164 | The block at the allocation index goes to the end of the list and its id is returned. |
| `IndexPools.IndexPool.Free` | play/cpp/try/inc/list_memory_pool_use_index.h:184-206 | On a valid pool Free is the same abstract step and changes no payload; on a broken one it writes the ring and unlinks. |
| `IndexPools.IndexPool.Unlink` | play/cpp/try/inc/list_memory_pool_use_index.h:204-205 | The two writes through GetPrev and GetNext unlink the block, sentinels included. |
| `IndexPools.IndexPool.EnsureSize` | play/cpp/try/inc/list_memory_pool_use_index.h:87-130 | The same answer, data and exact validity condition as in the pool with addresses. |
| `IndexPools.IndexPool.CopyToLarger` | play/cpp/try/inc/list_memory_pool_use_index.h:98-124 | Both arrays are extended, old entries kept and new ones numbered, and the indices become the old size and zero. |
| `IndexPools.IndexPool.GetData` | play/cpp/try/inc/list_memory_pool_use_index.h:166-169 | The data is that of the block with the given id. |
| `IndexPools.IndexPool.LinkToTail` | play/cpp/try/inc/list_memory_pool_use_index.h:233-239 | The writes through indices are those the list lemma is about. |
| `IndexPools.IndexPool.LinkToHead` | play/cpp/try/inc/list_memory_pool_use_index.h:226-232 | An unlinked block becomes the first of the list and no payload changes. |
| `IndexPools.IndexPool.WalkForward` | play/cpp/try/inc/list_memory_pool_use_index.h:243-257 | Following the next indices visits exactly the blocks in use in allocation order, and stops. |
| `IndexPools.IndexPool.WalkBackward` | play/cpp/try/inc/list_memory_pool_use_index.h:175-178 | Following the prev indices from the tail visits the same blocks in reverse. |
| `IndexPools.LargerMemory` | play/cpp/try/inc/list_memory_pool_use_index.h:111-124 | Extending the arrays keeps the list, the ids and the data. |
| `ListPools.RunBoth` | play/cpp/try/inc/list_memory_pool_use_index.h:87-206 | Both pools stay valid with equal abstract states and answer every allowed run alike. |
| `ListPools.Indistinguishable` | play/cpp/try/inc/list_memory_pool_use_index.h:47-206 | From equal fresh pools any allowed run gives the same answers and the same final walk, and that walk is the ids in use in allocation order. |
| `ListPoolRep.GrownEmpty` | play/cpp/try/inc/list_memory_pool.h:132-141 | In the state that growing an empty pool leaves, handing out a block and giving it back puts it in the ring twice. |
| `ListPoolRep.ComesTwice` | play/cpp/try/inc/list_memory_pool.h:160-181 | Blocks handed out in the order of such a ring, as many as it has slots, contain that one twice. |
| `ListPools.EmptyGrowthPointers` | play/cpp/try/inc/list_memory_pool.h:79-213 | For every empty pool with addresses and every larger size: EnsureSize, Alloc, Free and then as many Allocs as there are blocks give one id twice without a Free in between. |
| `ListPools.EmptyGrowthIndices` | play/cpp/try/inc/list_memory_pool_use_index.h:87-206 | The same for the pool with indices. |
| `Wakeup.InitInv` | play/c/event_loop/example_linux/select_eventfd/use_select_eventfd.c:99-155 | The start state has all protocol invariants, for any number of producers. |
| `Wakeup.MutexStep` | play/c/event_loop/example_linux/select_eventfd/use_select_eventfd.c:45-90 | Every step keeps mutual exclusion: whoever is between lock and unlock is the one recorded holder. |
| `Wakeup.LogStep` | play/c/event_loop/example_linux/select_eventfd/use_select_eventfd.c:36-91 | Every step keeps, for each producer, received then queued messages as its messages one to the last in order, and the counter as the number received. |
| `Wakeup.WakeStep` | play/c/event_loop/example_linux/select_eventfd/use_select_eventfd.c:52-91 | Every step keeps a pending or coming wakeup for a queue that is not empty. |
| `Wakeup.PhaseStep` | play/c/event_loop/example_linux/select_eventfd/use_select_eventfd.c:157-187 | Every step keeps the shutdown order: stop flag, then joins with their counts summed, then the drain. |
| `Wakeup.RunInv` | play/c/event_loop/example_linux/select_eventfd/use_select_eventfd.c:28-187 | All invariants hold after every run of every interleaving. |
| `Wakeup.NoLostWakeup` | play/c/event_loop/example_linux/select_eventfd/evloop_select.c:133-228 | In every reachable state of the running loop with messages queued, the eventfd is readable, or a producer is about to write it, or the consumer is about to drain. |
| `Wakeup.BlockedOnlyWhenIdle` | play/c/event_loop/example_linux/select_eventfd/evloop_select.c:206-227 | If the consumer is blocked in select and no producer is about to wake it, the queue is empty. |
| `Wakeup.ReceivedInOrder` | play/c/event_loop/example_linux/select_eventfd/use_select_eventfd.c:68-91 | What has been received from a producer is always its first messages, in order, without gap or repeat. |
| `Wakeup.CountByThread` | play/c/event_loop/example_linux/select_eventfd/use_select_eventfd.c:163-176 | A log whose messages are counted per producer is as long as the sum of the counts. |
| `Wakeup.ExactlyOnce` | play/c/event_loop/example_linux/select_eventfd/use_select_eventfd.c:157-187 | When the program has finished, the queue is empty, the received count equals the producers' total, and every message of every producer arrived exactly once and in order. |
| `Wakeup.StopsAt512` | play/c/event_loop/example_linux/select_eventfd/use_select_eventfd.c:83-88 | In every run without a failing select the exit flag is set exactly when 512 messages have been received; the consumer is past its loop only then, and until the joins are over it has received exactly 512. |
| `Wakeup.FailedSelectEnds` | play/c/event_loop/example_linux/select_eventfd/evloop_select.c:274-283 | After a failing select the consumer never waits or receives in the loop again, and no second failure follows. |
| `Wakeup.EventfdCounts` | play/c/event_loop/example_linux/select_eventfd/evloop_select.c:133-141 | Over any run the eventfd holds the number of writes since it was last read, up to its largest value. |
| `Wakeup.SelectWaits` | play/c/event_loop/example_linux/select_eventfd/evloop_select.c:206-220 | select returns exactly when some write has not been read. |
| `Wakeup.CanFinish` | play/c/event_loop/example_linux/select_eventfd/use_select_eventfd.c:28-187 | From any state with the invariants and a producer, some run without a select failure reaches the end, by a decreasing measure. |
| `Wakeup.AlwaysCanFinish` | play/c/event_loop/example_linux/select_eventfd/use_select_eventfd.c:28-187 | No reachable state is a deadlock: from each of them the program can still finish. |
| `SelectLoop.EvLoop.constructor` | play/c/event_loop/example_linux/select_eventfd/evloop_select.c:64-82 | The loop starts watching the eventfd alone. |
| `SelectLoop.EvLoop.AddCtx` | play/c/event_loop/example_linux/select_eventfd/evloop_select.c:144-165 | Refused off the loop thread or without memory and then nothing changes; otherwise appended, watched, and the bound raised, which keeps the watch invariant. |
| `SelectLoop.EvLoop.Dispatch` | play/c/event_loop/example_linux/select_eventfd/evloop_select.c:235-260 | One context is read if ready, then removed with an error call if failed, or watched again and stepped over; the loop is asked to stop exactly if one of these callbacks asks. |
| `SelectLoop.EvLoop.HandleError` | play/c/event_loop/example_linux/select_eventfd/evloop_select.c:244-251 | The failed context is removed, its error call made, and the walk goes on at the context that followed it before that call. |
| `SelectLoop.EvLoop.HandleRead` | play/c/event_loop/example_linux/select_eventfd/evloop_select.c:236-242 | A read call is made exactly for a ready context, and what it adds is at the end of the list and watched. |
| `SelectLoop.EvLoop.Watch` | play/c/event_loop/example_linux/select_eventfd/evloop_select.c:254-258 | The context is watched again and the bound covers it. |
| `SelectLoop.WalkStep` | play/c/event_loop/example_linux/select_eventfd/evloop_select.c:233-261 | Each visit, of an original context or of a newcomer that select did not report, keeps: survivors, contexts still to visit and contexts added lie in the list in this order, and all visited or added ones are watched. |
| `SelectLoop.WalkEnd` | play/c/event_loop/example_linux/select_eventfd/evloop_select.c:233-261 | A walk that ends without a call for a newcomer was quiet, made the calls of the initial contexts in order, each once, and leaves the survivors and then the added ones, all watched. |
| `SelectLoop.EvLoop.Walk` | play/c/event_loop/example_linux/select_eventfd/evloop_select.c:228-261 | If every descriptor is unregistered when it is added, and the walk meets no newcomer that select reported, the loop makes exactly those calls and ends with a watch set that is the eventfd and the listed descriptors. |
| `SelectLoop.EvLoop.WalkFor` | play/c/event_loop/example_linux/select_eventfd/evloop_select.c:228-261 | The condition is exact: followed long enough, a walk that is quiet ends as it must, and any other calls back a newcomer that has the descriptor of a context failed in the same pass. |
| `SelectLoop.EvLoop.ReadyFor` | play/c/event_loop/example_linux/select_eventfd/evloop_select.c:209-261 | The same for a whole pass with ready descriptors, whatever contexts its callbacks register: it rebuilds the watch set and calls back no newcomer if and only if it is quiet. |
| `SelectLoop.EvLoop.BeginPass` | play/c/event_loop/example_linux/select_eventfd/evloop_select.c:211-229 | The watch set is emptied, the wakeup call made and the eventfd put back; contexts that the wakeup call adds stay in the set, while the bound forgets them; the loop is asked to stop exactly if the eventfd is readable and its callback asks. |
| `SelectLoop.StepNew` | play/c/event_loop/example_linux/select_eventfd/evloop_select.c:233-261 | A newcomer that select did not report is stepped over without a call and stays watched. |
| `SelectLoop.ListedDistinct` | play/c/event_loop/example_linux/select_eventfd/evloop_select.c:152-162 | If callbacks only add descriptors not registered at that moment, those of a context removed earlier in the pass included, the registered ones are distinct at every step of the walk. |
| `SelectLoop.ReportedIsReused` | play/c/event_loop/example_linux/select_eventfd/evloop_select.c:244-251 | A newcomer that select reported always has the descriptor of a context that failed in this pass. |
| `SelectLoop.Disturb` | play/c/event_loop/example_linux/select_eventfd/evloop_select.c:233-251 | The visit of such a newcomer calls its error callback, after all calls the pass must make. |
| `SelectLoop.ReuseIsLegal` | play/c/event_loop/example_linux/select_eventfd/evloop_select.c:144-165 | The pass of the next row adds only a descriptor that is unregistered at that moment, and is not quiet. |
| `SelectLoop.ReusedDescriptorLost` | play/c/event_loop/example_linux/select_eventfd/evloop_select.c:233-261 | A concrete pass: descriptor 5 fails, 6 is readable and its callback registers 5 again; the new context is called back and dropped, and 5 stays in the watch set. |
| `SelectLoop.AddsKeepWatches` | play/c/event_loop/example_linux/select_eventfd/evloop_select.c:158-162 | Adding contexts keeps the watch set and the bound exact. |
| `SelectLoop.EvLoop.HandleReady` | play/c/event_loop/example_linux/select_eventfd/evloop_select.c:209-269 | A ready select: the wakeup call first, then the walk, and contexts added by the wakeup call stay watched although the set was cleared; the loop is asked to stop exactly by the wakeup callback or by the callback of a context reported readable or failed. |
| `SelectLoop.EvLoop.HandleTimer` | play/c/event_loop/example_linux/select_eventfd/evloop_select.c:4-22 | A due timer makes one call after the others, what it adds is watched, and the loop is asked to stop exactly if its callback asks. |
| `SelectLoop.EvLoop.OnePass` | play/c/event_loop/example_linux/select_eventfd/evloop_select.c:205-278 | One quiet pass on any outcome of select keeps the invariant and makes exactly the specified calls. It stops the loop if and only if select failed, or the eventfd was readable and the wakeup callback asked, or a context was readable or failed and its callback for that asked, or the timer was due and its callback asked. |
| `SelectLoop.EvLoop.Run` | play/c/event_loop/example_linux/select_eventfd/evloop_select.c:197-284 | Over any number of quiet passes the invariant holds, the calls and the final list are those of the specification up to the first pass that stops, and the loop ends by the exit flag if and only if some pass reached stops. |
| `SelectLoop.CallsStop` | play/c/event_loop/example_linux/select_eventfd/evloop_select.c:236-251 | The callbacks of a walk ask to stop if and only if some listed context is readable with a read callback that asks, or failed with an error callback that asks. |
| `SelectLoop.CallsAround` | play/c/event_loop/example_linux/select_eventfd/evloop_select.c:236-251 | Whatever the list, the calls of one context are read if readable and then error if failed, between those of the contexts before and after it. |
| `SelectLoop.CalledOnce` | play/c/event_loop/example_linux/select_eventfd/evloop_select.c:233-261 | In a walk each context gets one read call if it is listed and readable, one error call if it is listed and failed, and no other. |
| `SelectLoop.PassCalledOnce` | play/c/event_loop/example_linux/select_eventfd/evloop_select.c:205-278 | The same for a whole pass, with one wakeup call exactly for a readable eventfd and one timer call exactly for a due timer. |
| `SelectLoop.PassEnds` | play/c/event_loop/example_linux/select_eventfd/evloop_select.c:213-269 | The wakeup call is the first of a pass and the timer call the last. |
| `SelectLoop.RegisteredAfter` | play/c/event_loop/example_linux/select_eventfd/evloop_select.c:209-278 | The contexts registered after a pass are those before that did not fail, and those that the wakeup callback, a callback of a reported context or the timer callback registered. |
| `Sender.GatherSkip` | play/c/tcp_n_data/src/snd_method.c:104-107 | Skipping a wholly sent iovec leaves the bytes after it. |
| `Sender.GatherCut` | play/c/tcp_n_data/src/snd_method.c:98-103 | Cutting the sent bytes off an iovec in place leaves exactly the unsent bytes. |
| `Sender.FindUnsent` | play/c/tcp_n_data/src/snd_method.c:94-108 | The loop finds the iovec holding the first unsent byte and how much of it is sent. |
| `Sender.Advance` | play/c/tcp_n_data/src/snd_method.c:94-108 | After a partial write the iovecs from the new offset stand for exactly the unsent bytes, and no iovec outside the range changes. |
| `Sender.BlockWritev` | play/c/tcp_n_data/src/snd_method.c:62-112 | It ends for every pattern of short writes and retries; full success has put all bytes in order on the wire; on an early return what is out followed by the iovecs left is the whole. The error code is returned exactly when the first call that neither took bytes nor could be retried failed, and zero exactly when it found the connection closed. |
| `Sender.EndedFaults` | play/c/tcp_n_data/src/snd_method.c:71-91 | A blocking send that ends early has met exactly one call that failed for good, and any other none. |
| `Sender.OneMoreUnit` | play/c/tcp_n_data/src/snd_method.c:51-57 | If a beginning of each unit so far is on the wire, cut short once per failure, that still holds after one more unit of which a beginning went out. |
| `Sender.HealthyDelivers` | play/c/tcp_n_data/src/snd_method.c:45-292 | If no call fails for good, every unit is whole. |
| `Sender.LossBound` | play/c/tcp_n_data/src/snd_method.c:45-292 | Of a stream sent in units of a given size, each call that fails for good costs at most one unit. |
| `Sender.ChunkAt` | play/c/tcp_n_data/src/snd_method.c:203-212 | Unit number i is the bytes from i times its size on, the last one up to the end. |
| `Sender.ChunksFlatten` | play/c/tcp_n_data/src/snd_method.c:203-212 | The units of a stream make up the stream. |
| `Sender.GatherConcat` | play/c/tcp_n_data/src/snd_method.c:114-152 | The bytes of two lists of iovecs in a row are the bytes of the first and then of the second. |
| `Sender.MethodWrite` | play/c/tcp_n_data/src/snd_method.c:45-60 | For every pattern of short writes, retries and failures, what goes out is a beginning of each 320-byte record, in order, and as many are cut short as calls failed for good; without failures it is all records. |
| `Sender.Assemble` | play/c/tcp_n_data/src/snd_method.c:229-233 | Copying the records one after the other gives their concatenation. |
| `Sender.MethodBigWrite` | play/c/tcp_n_data/src/snd_method.c:154-177 | A beginning of all records goes out, the whole of it unless a call failed for good. |
| `Sender.MethodAssembleWrite` | play/c/tcp_n_data/src/snd_method.c:179-215 | A beginning of each segment goes out, in order, as many cut short as calls failed for good; without failures it is all records. |
| `Sender.SendBatch` | play/c/tcp_n_data/src/snd_method.c:134-147 | One batch sends a beginning of its part of the iovecs, all of it unless a call failed for good, and leaves the later ones unchanged. |
| `Sender.SendFullBatches` | play/c/tcp_n_data/src/snd_method.c:134-140 | The full batches go out in turn, as many cut short as calls failed for good. |
| `Sender.MethodWritev` | play/c/tcp_n_data/src/snd_method.c:114-152 | A beginning of each group of 1024 records goes out, in order, as many cut short as calls failed for good; without failures it is all records. |
| `Sender.SegmentCount` | play/c/tcp_n_data/src/snd_method.c:235-238 | The rounded up count covers all bytes and no smaller one does. |
| `Sender.Slices` | play/c/tcp_n_data/src/snd_method.c:235-253 | The segments cover the buffer exactly and in order, all full except possibly the last, which is not empty. |
| `Sender.OneBatch` | play/c/tcp_n_data/src/snd_method.c:262-274 | A batch covers its 1024 iovecs, or those left, and its byte count is right. |
| `Sender.Batches` | play/c/tcp_n_data/src/snd_method.c:255-274 | The batches cover all iovecs. |
| `Sender.SendBatches` | play/c/tcp_n_data/src/snd_method.c:279-285 | The batches go out in turn, as many cut short as calls failed for good. |
| `Sender.MethodAssembleWritev` | play/c/tcp_n_data/src/snd_method.c:217-292 | A beginning of each group of 1024 segments goes out, in order, as many cut short as calls failed for good; without failures it is all records. |
| `Sender.SameStream` | play/c/tcp_n_data/src/snd_method.c:45-292 | All five methods, each on its own pattern of short writes and retries, deliver the same bytes. |
| `LoanMath.BalanceClosedForm` | play/py/home_loan_calculator/home_loan_calculator.py:180-200 | The balance after k payments is the closed form that the documentation derives. |
| `LoanMath.InstalmentClears` | play/py/home_loan_calculator/home_loan_calculator.py:197-200 | The instalment formula brings the balance to zero in the last month; before it, the balance is positive and falling. |
| `LoanMath.GrowthConvex` | play/py/home_loan_calculator/home_loan_calculator.py:192-196 | Powers of a growth factor lie below their chord. |
| `LoanMath.AboveLine` | play/py/home_loan_calculator/home_loan_calculator.py:203-213 | Under equal instalments the debt is never below the straight line of equal principal. |
| `Loans.MonthOnCurve` | play/py/home_loan_calculator/home_loan_calculator.py:98-121 | One pass of the loop body moves the debt one month along its curve, pays the difference and charges a twelfth of the yearly interest on the debt. |
| `Loans.FollowsCurve` | play/py/home_loan_calculator/home_loan_calculator.py:230-255 | After k months debt, principal and interest paid are those of the curve, for both schemes. |
| `Loans.StaysPaid` | play/py/home_loan_calculator/home_loan_calculator.py:230-255 | After the last month nothing more is paid, so a shorter loan waits correctly for the longer one. |
| `Loans.NeverClears` | play/py/home_loan_calculator/home_loan_calculator.py:98-121 | A positive debt whose last balance is below the precision keeps a positive rest for ever. |
| `Loans.ClearsExactly` | play/py/home_loan_calculator/home_loan_calculator.py:98-121 | The schedule clears the debt if and only if the balance before the last payment is not below the precision of one hundredth, which holds whenever debt over months is not below it. |
| `Loans.SmallDebtStays` | play/py/home_loan_calculator/home_loan_calculator.py:98-121 | Five cents over ten months of equal principal leave a positive rest after any number of months. |
| `Loans.BelowThresholdStays` | play/py/home_loan_calculator/home_loan_calculator.py:98-121 | A debt below one hundredth is neither paid nor charged any more, in both schemes. |
| `Loans.PrincipalInterest` | play/py/home_loan_calculator/home_loan_calculator.py:63-76 | Equal principal costs debt times rate times months plus one, over twenty-four. |
| `Loans.InterestAboveLine` | play/py/home_loan_calculator/home_loan_calculator.py:174-201 | Equal instalments never cost less interest than equal principal. |
| `Loans.PrincipalCheaper` | play/py/home_loan_calculator/home_loan_calculator.py:63-310 | The two schedules both clear and pay the debt as principal, with the interest of equal principal in closed form and never the larger. |
| `Loans.OnceStillClears` | play/py/home_loan_calculator/home_loan_calculator.py:286-304 | With a lump sum and the instalment worked out again, the debt is still cleared in the last month; the principal paid is the debt and the interest is that of the two stretches. |
| `Loans.MonthConserved` | play/py/home_loan_calculator/home_loan_calculator.py:257-284 | Each month what the fund gains plus what is due equals what is paid in plus the extra payment. |
| `Loans.FundConserved` | play/py/home_loan_calculator/home_loan_calculator.py:257-284 | The same over any number of months. |
| `Loans.FundFloor` | play/py/home_loan_calculator/home_loan_calculator.py:263-272 | The fund never falls below minus one hundredth per month, and no extra payment is negative. |
| `Loans.FundPaysFirst` | play/py/home_loan_calculator/home_loan_calculator.py:263-272 | With more than a hundredth due and in the fund, the borrower pays only once the fund is empty, together they pay what is due, and a fund larger than that pays all; a fund of a hundredth or less is not touched; a net amount of a hundredth or less is taken from or put into the fund. |
| `Loans.RecordShows` | play/py/home_loan_calculator/home_loan_calculator.py:129-150 | The record of a month has its index, the fund afterwards, and as extra payment what the borrower paid, or the net amount when that is a hundredth or less. |
| `Loans.RecordsFollow` | play/py/home_loan_calculator/home_loan_calculator.py:274-304 | Each monthly record shows what was repaid and charged since the one before and what is left of both debts; that of the lump sum shows it as paid by the borrower on the commercial debt, the fund unchanged. |
| `Loans.RecordAt` | play/py/home_loan_calculator/home_loan_calculator.py:230-304 | There is one record per month in order, and right after that of its month one for the lump sum if it takes place. |
| `Loans.RecordsAddUp` | play/py/home_loan_calculator/home_loan_calculator.py:274-310 | The four columns of the records add up to the principal and interest of both loans, and the last record shows the debts left. |
| `Loans.TracksStep` | play/py/home_loan_calculator/home_loan_calculator.py:230-304 | Month by month both debts follow the loop body, and the lump sum enters in its month only. |
| `Loans.Schedule` | play/py/home_loan_calculator/home_loan_calculator.py:215-304 | The loop produces the specified records and totals. |
| `Loans.BothClear` | play/py/home_loan_calculator/home_loan_calculator.py:203-310 | At the end both debts are cleared, the principal paid is each debt, and the interest is that of the curves. |
| `Loans.InstalmentRecords` | play/py/home_loan_calculator/home_loan_calculator.py:274-284 | The remaining commercial debt in each monthly record up to that of the lump-sum month is the documented closed form. |
| `Loans.CalRepayEqPrincipal` | play/py/home_loan_calculator/home_loan_calculator.py:63-172 | Records as specified, one per month and one for the lump sum; the totals are the sums of their columns; the principal total is the two debts and the last record shows none left; without a lump sum the interest total is in closed form. |
| `Loans.CalRepayEqPrincipalAndInterest` | play/py/home_loan_calculator/home_loan_calculator.py:174-310 | Records as specified, one per month and one for the lump sum; the totals are the sums of their columns; the principal total is the two debts and the last record shows none left; without a lump sum the interest total is at least that of equal principal. |
| `NumberTheory.EuclideanGcd` | play/py/number_theory/utils.py:24-44 | For all integers, signs and zeros included, the result divides both and is divided by every common divisor. |
| `NumberTheory.Truncates` | play/py/number_theory/utils.py:41-43 | The quotient is cut off toward zero: quotient times divisor is no larger than the dividend but by less than the divisor, and the remainder has the sign of the dividend. |
| `NumberTheory.TraceEnds` | play/py/number_theory/utils.py:64-73 | The recorded quotients rebuild the remainders, ending in the greatest common divisor and zero. |
| `NumberTheory.RemainderIsCombination` | play/py/number_theory/utils.py:75-82 | Every remainder of the trace is the combination with the coefficients of the symbolic recurrence. |
| `NumberTheory.EuclidIsGcd` | play/py/number_theory/utils.py:24-44 | The Euclidean recursion computes a greatest common divisor, non-zero unless both are zero. |
| `NumberTheory.Bezout` | play/py/number_theory/utils.py:64-82 | The last equation of the recurrence combines the inputs to the greatest common divisor. |
| `NumberTheory.EuclideanLinearCombination` | play/py/number_theory/utils.py:47-98 | The divisor is right; zero inputs give a correct combination; otherwise the coefficients are those read off the polynomial. |
| `NumberTheory.Trace` | play/py/number_theory/utils.py:64-73 | The loop records the quotients of Euclid's algorithm and ends with the divisor. |
| `NumberTheory.LastEquation` | play/py/number_theory/utils.py:75-82 | The loop over the equations ends with the coefficients of the last one. |
| `NumberTheory.DegenerateTrace` | play/py/number_theory/utils.py:80-98 | If one input divides the other, a single symbol is left and its coefficient is read as the first one, the second missing. |
| `NumberTheory.ReadOffExactly` | play/py/number_theory/utils.py:87-98 | For non-zero inputs both coefficients are returned and combine to the divisor if and only if neither input divides the other. |
| `NumberTheory.ReadOffExample` | play/py/number_theory/utils.py:87-98 | For 6 and 3 the result is one and nothing. |
| `NumberTheory.StartSolves` | play/py/number_theory/utils.py:117 | The first listed number solves the congruence, even from a degenerate read-off. |
| `NumberTheory.EachSolves` | play/py/number_theory/utils.py:118-119 | So does each further one. |
| `NumberTheory.Incongruent` | play/py/number_theory/utils.py:118-119 | No two listed numbers are congruent. |
| `NumberTheory.Covers` | play/py/number_theory/utils.py:118-119 | Every solution is congruent to a listed one. |
| `NumberTheory.ListComplete` | play/py/number_theory/utils.py:116-120 | The list is one representative of each class of solutions, and nothing else. |
| `NumberTheory.SolvableDivides` | play/py/number_theory/utils.py:113-114 | If there is any solution the divisor divides the right side. |
| `NumberTheory.PositiveGcd` | play/py/number_theory/utils.py:24-44 | For inputs that are not negative and not both zero the divisor is positive. |
| `NumberTheory.LinearCongruence` | play/py/number_theory/utils.py:101-120 | Refused exactly for a zero coefficient or modulus; the list is complete and irredundant if and only if the computed divisor is positive or does not divide the right side, hence for all positive coefficients and moduli; its entry k times the divisor is the coefficient read off times the right side plus k moduli. |
| `NumberTheory.NegativeGcdMisses` | play/py/number_theory/utils.py:112-120 | For 6x = 3 modulo -3 the list is empty, although 0 is a solution. |
| `NumberTheory.IsSquare` | play/py/number_theory/utils.py:4-21 | The search answers yes exactly for the squares other than zero. |
| `NumberTheory.ZeroMissed` | play/py/number_theory/utils.py:4-21 | For zero the answer is no, although zero is a square. |
| `Murmur.ScrambleBack` | play/c/pfpa/pfpa/pfpa_murmurhash3.c:60-62 | The scrambling of a block is undone by an explicit inverse, both ways. |
| `Murmur.MixBack` | play/c/pfpa/pfpa/pfpa_murmurhash3.c:58-66 | Mixing a block in is a bijection of the state for a fixed block and determines the block from the two states. |
| `Murmur.BlockBetweenWorks` | play/c/pfpa/pfpa/pfpa_murmurhash3.c:58-66 | Some block leads from any state to any other. |
| `Murmur.FmixBack` | play/c/pfpa/pfpa/pfpa_murmurhash3.c:29-38 | Finalization is a bijection with an explicit inverse. |
| `Murmur.MurmurHash3` | play/c/pfpa/pfpa/pfpa_murmurhash3.c:42-99 | The loop over blocks, the tail and the finalization compute the recursive definition, whose values and dependence on block order, length and seed the next rows state. |
| `Murmur.LengthMatters` | play/c/pfpa/pfpa/pfpa_murmurhash3.c:94 | Keys of different length that reach the same state after body and tail have different hashes. |
| `Murmur.ZeroByteCounts` | play/c/pfpa/pfpa/pfpa_murmurhash3.c:69-98 | Appending a zero byte that does not complete a block changes the hash, for every key and seed. |
| `Murmur.BodyChains` | play/c/pfpa/pfpa/pfpa_murmurhash3.c:52-67 | The state after whole blocks followed by others is the state after the others from that after the first ones. |
| `Murmur.KnownEmpty` | play/c/pfpa/pfpa/pfpa_murmurhash3.c:42-99 | The empty key with seed 1 has the hash 514e28b7. |
| `Murmur.KnownBlock` | play/c/pfpa/pfpa/pfpa_murmurhash3.c:42-99 | The block 21 43 65 87 with seed 0 has the hash f55b516b. |
| `Murmur.KnownSeeded` | play/c/pfpa/pfpa/pfpa_murmurhash3.c:42-99 | The same block with seed 5082edee has the hash 2362f9de. |
| `Murmur.KnownTail3` | play/c/pfpa/pfpa/pfpa_murmurhash3.c:42-99 | The bytes 21 43 65 with seed 0 have the hash 7e4a8634. |
| `Murmur.KnownTail2` | play/c/pfpa/pfpa/pfpa_murmurhash3.c:42-99 | The bytes 21 43 with seed 0 have the hash a0f7b07a. |
| `Murmur.KnownTail1` | play/c/pfpa/pfpa/pfpa_murmurhash3.c:42-99 | The byte 21 with seed 0 has the hash 72661cf4. |
| `Murmur.TailCases` | play/c/pfpa/pfpa/pfpa_murmurhash3.c:69-89 | The switch with its fall-throughs computes the tail word and mixes it in, and does nothing for an empty tail. |
| `Murmur.HashToBody` | play/c/pfpa/pfpa/pfpa_murmurhash3.c:69-98 | Equal hashes with equal tails and lengths come from equal states after the body. |
| `Murmur.BodyInjective` | play/c/pfpa/pfpa/pfpa_murmurhash3.c:52-67 | Equal states after equal blocks come from equal states before them. |
| `Murmur.SeedInjective` | play/c/pfpa/pfpa/pfpa_murmurhash3.c:42-99 | For a fixed key different seeds have different hashes. |
| `Murmur.SeedBijective` | play/c/pfpa/pfpa/pfpa_murmurhash3.c:42-99 | For a fixed key every hash has exactly one seed, which is computed by running backwards. |
| `Murmur.OneBlockInjective` | play/c/pfpa/pfpa/pfpa_murmurhash3.c:42-99 | Keys of one length that differ in one block only have different hashes. |
| `Murmur.BodyForward` | play/c/pfpa/pfpa/pfpa_murmurhash3.c:52-67 | Equal states before equal blocks lead to equal states after them. |
| `Murmur.BlockBijective` | play/c/pfpa/pfpa/pfpa_murmurhash3.c:42-99 | For every key, seed, block position and hash value exactly one block at that position gives the hash; it is computed. |
| `Murmur.TailWordInjective` | play/c/pfpa/pfpa/pfpa_murmurhash3.c:74-84 | Different tails of one length have different tail words. |
| `Murmur.TailOnlyInjective` | play/c/pfpa/pfpa/pfpa_murmurhash3.c:42-99 | Keys of one length that differ in the tail only have different hashes. |
| `TcpTracker.Tracker.HandlePacket` | play/c/pfpa/pfpa/pfpa_tcp_handle.c:23-98 | The table and the warning after a packet are those of the specification, from which the following rows are derived. |
| `TcpTracker.AdvanceCounted` | play/c/pfpa/pfpa/pfpa_tcp_handle.c:65-70 | The expected number advances by the segment length if and only if the packet has neither SYN nor FIN or its segment length is one. |
| `TcpTracker.StepOnTrack` | play/c/pfpa/pfpa/pfpa_tcp_handle.c:36-70 | A counted packet that meets no session, or one that expects its number, raises no warning and leaves the expected number of its direction right. |
| `TcpTracker.Resynchronises` | play/c/pfpa/pfpa/pfpa_tcp_handle.c:51-70 | Whatever the table, and flagged or not: after a segment with neither SYN nor FIN the next packet of its direction is flagged if and only if it does not start where that segment ended; a SYN or FIN moves the expected number by one. |
| `TcpTracker.ExpectedAfterLoss` | play/c/pfpa/pfpa/pfpa_tcp_handle.c:65-70 | After any trace, with any losses, a session expects the end of its last such segment plus one for each SYN or FIN since. |
| `TcpTracker.ExpectedSoFar` | play/c/pfpa/pfpa/pfpa_tcp_handle.c:36-70 | Without such a segment it expects the number it started with plus one for each packet. |
| `TcpTracker.FlaggedAfterLoss` | play/c/pfpa/pfpa/pfpa_tcp_handle.c:51-70 | So after any trace a packet that follows such a segment is flagged if and only if it does not start at its end. |
| `TcpTracker.OneAlarmPerGap` | play/c/pfpa/pfpa/pfpa_tcp_handle.c:51-70 | In a direction of such segments, a packet is flagged if and only if it is not the first and does not start at the end of the one before it. |
| `TcpTracker.RunOnTrack` | play/c/pfpa/pfpa/pfpa_tcp_handle.c:23-98 | Over any trace of counted packets in which every start with a fresh number meets no session, with wrap-around and reopened connections, the table expects the right numbers. |
| `TcpTracker.NoFalseAlarm` | play/c/pfpa/pfpa/pfpa_tcp_handle.c:52-58 | No packet of such a trace is flagged. |
| `TcpTracker.FlaggedExactly` | play/c/pfpa/pfpa/pfpa_tcp_handle.c:36-58 | After such a trace the next packet is flagged if and only if it does not go on from the one before it and its session is still in the table. |
| `TcpTracker.SilentIffClean` | play/c/pfpa/pfpa/pfpa_tcp_handle.c:23-98 | A trace of counted packets raises no alarm if and only if every start with a fresh number meets no session. |
| `TcpTracker.OnlySynRestarts` | play/c/pfpa/pfpa/pfpa_tcp_handle.c:52-58 | In a trace without loss only a SYN starts with a fresh number. |
| `TcpTracker.ReopensCleanly` | play/c/pfpa/pfpa/pfpa_tcp_handle.c:72-92 | Right after the packet that removes both sessions, a packet of either direction is accepted with any number. |
| `TcpTracker.ReopeningFlagged` | play/c/pfpa/pfpa/pfpa_tcp_handle.c:36-92 | A concrete trace without loss: after a simultaneous close the last acknowledgement starts a session again, and the SYN of the next connection is flagged. |
| `TcpTracker.MiscountFlagged` | play/c/pfpa/pfpa/pfpa_tcp_handle.c:65-70 | After an accepted packet the correct next packet is flagged if and only if the first was not a counted one. |
| `TcpTracker.FinWithDataFlagged` | play/c/pfpa/pfpa/pfpa_tcp_handle.c:65-70 | A FIN with ten bytes makes the correct next packet flagged. |
| `TcpTracker.MarkedIffFin` | play/c/pfpa/pfpa/pfpa_tcp_handle.c:72-97 | A session is marked closing if and only if a FIN was seen in its current life. |
| `TcpTracker.LeavesInPairs` | play/c/pfpa/pfpa/pfpa_tcp_handle.c:72-92 | A packet removes sessions if and only if it is an ACK on a session that has, like its reverse, already sent a FIN; then exactly these two leave. |
| `TcpTracker.Watch` | play/c/pfpa/pfpa/pfpa_tcp_handle.c:23-98 | Running the tracker over a trace gives these warnings, and for counted packets none if and only if every start with a fresh number meets no session. |
| `RefCounting.HoldersUpdate` | play/cpp/try/inc/ref_count.h:42-59 | Rebinding a handle changes the number of holders of a counter by exactly what the handle held and now holds. |
| `RefCounting.LastReference` | play/cpp/try/inc/ref_count.h:33-40 | When a counter is one no other handle reaches the counter or the object. |
| `RefCounting.RebindCounted` | play/cpp/try/inc/ref_count.h:42-59 | Assignment keeps every counter equal to its number of holders, self-assignment included. |
| `RefCounting.RebindOwned` | play/cpp/try/inc/ref_count.h:42-59 | Assignment keeps each object with one counter and deletes none that is still held. |
| `RefCounting.WrapExact` | play/cpp/try/inc/ref_count.h:21-32 | Wrapping a fresh object keeps the counting exact. |
| `RefCounting.StepExact` | play/cpp/try/inc/ref_count.h:8-59 | Every allowed operation keeps the counting exact. |
| `RefCounting.DeletedWhenLast` | play/cpp/try/inc/ref_count.h:33-59 | An operation deletes an object if and only if it drops the last handle to it. |
| `RefCounting.AliveIffHeld` | play/cpp/try/inc/ref_count.h:8-59 | An object is alive if and only if some handle holds it, and then it was never deleted. |
| `RefCounting.RunExact` | play/cpp/try/inc/ref_count.h:8-59 | After any run from nothing counters are exact and positive, objects are alive exactly while held, the wrapped objects are those alive or deleted, none is deleted twice, each handle refers to the object that the program last gave it, and with the last handle nothing is left. |
| `RefCounting.RunAccounts` | play/cpp/try/inc/ref_count.h:8-59 | Over any run the objects alive or deleted are those of the start and those wrapped on the way. |
| `RefCounting.StepHandles` | play/cpp/try/inc/ref_count.h:8-59 | Copying and assigning make the first handle refer to what the second does, a new one is empty, wrapping makes it refer to the object, destroying removes it, and no other handle changes. |
| `RefCounting.RunNames` | play/cpp/try/inc/ref_count.h:8-59 | Over any run each handle refers to the object that the program last gave it, by constructor, copy or assignment. |
| `RefCounting.AssignExample` | play/cpp/try/inc/ref_count.h:42-59 | Two objects wrapped and the second handle assigned to the first: both refer to the second object. |
| `RefCounting.Memory.NewHandle` | play/cpp/try/inc/ref_count.h:8-11 | The default constructor is the abstract step; the new handle is empty and the others are unchanged. |
| `RefCounting.Memory.WrapObject` | play/cpp/try/inc/ref_count.h:21-32 | The constructor from an object is the abstract step, and the handle refers to it; from null it makes an empty handle. |
| `RefCounting.Memory.CopyHandle` | play/cpp/try/inc/ref_count.h:12-20 | The copy constructor is the abstract step; the new handle refers to what the other does. |
| `RefCounting.Memory.DestroyHandle` | play/cpp/try/inc/ref_count.h:33-40 | The destructor is the abstract step; exactly this handle is gone. |
| `RefCounting.Memory.AssignHandle` | play/cpp/try/inc/ref_count.h:42-59 | Incrementing before decrementing makes assignment the abstract step, on aliased and self-assigned handles too; afterwards the first handle refers to what the second did. |
| `RefCounting.Memory.LetGo` | play/cpp/try/inc/ref_count.h:49-53 | A counter reaching zero goes away with its object. |
| `RefCounting.Execute` | play/cpp/try/inc/ref_count.h:8-59 | Any allowed run of the imperative operations gives the abstract final state. |
| `Codec.LeRoundTrip` | use/go/use_tcp/codec/bytes_codec.go:49-52 | Little-endian bytes of a number in range decode to it, for any width. |
| `Codec.FromLeRoundTrip` | use/go/use_tcp/codec/bytes_codec.go:71-74 | Any bytes are the little-endian bytes of what they decode to. |
| `Codec.ToLeAt` | use/go/use_tcp/codec/bytes_codec.go:49-52 | Byte number i of the encoding is the number divided by 256 to the power i, modulo 256. |
| `Codec.WireFormat` | use/go/use_tcp/codec/bytes_codec.go:39-60 | The bytes on the wire are DEMO, the flags 0 1 0 0, identifier and length with the lowest byte first, and the payload. |
| `Codec.RoundTripExactly` | use/go/use_tcp/codec/bytes_codec.go:39-121 | Decoding an encoding, whatever follows, gives the message and leaves what follows if and only if the payload is shorter than 2^32 and within the limit. |
| `Codec.HugePayloadLost` | use/go/use_tcp/codec/bytes_codec.go:44 | A payload of 2^32 zeros is decoded as an empty one, with the zeros left in the stream. |
| `Codec.DecodedIsEncoding` | use/go/use_tcp/codec/bytes_codec.go:62-121 | Whatever decodes is an encoding: the consumed bytes are those of the message returned, which is within the limit. |
| `Codec.EncodingsArePrefix` | use/go/use_tcp/codec/bytes_codec.go:39-60 | If a stream of encodings starts with other encodings, those are its first messages; so a stream has one reading. |
| `Codec.StreamRoundTrip` | use/go/use_tcp/codec/bytes_codec.go:39-121 | Decoding the concatenated encodings of any messages that fit gives them all in order and goes on with what follows. |
| `Codec.NothingMissing` | use/go/use_tcp/server/server.go:28-45 | A stream of such encodings alone is decoded completely and ends in end of stream. |
| `Codec.Reader.Peek` | use/go/use_tcp/codec/bytes_codec.go:64-67 | Reads go on until the header is in the buffer, the stream ends or a read fails, and nothing is consumed. |
| `Codec.FetchedFacts` | use/go/use_tcp/codec/bytes_codec.go:64-67 | Fetching the header keeps the stream, tells its end only if it is too short, and fails only if a read fails. |
| `Codec.LateFailure` | use/go/use_tcp/codec/bytes_codec.go:64-67 | A read that fails after three bytes makes the fetch fail. |
| `Codec.ReadData` | use/go/use_tcp/codec/bytes_codec.go:105 | A read delivers the next bytes of the stream, tells its end only when nothing is left, and changes nothing when it fails. |
| `Codec.EndsUnlessLost` | use/go/use_tcp/codec/bytes_codec.go:103-118 | The payload loop ends whenever the failures end. |
| `Codec.LostAfterHeader` | use/go/use_tcp/codec/bytes_codec.go:103-118 | On a connection that fails for good behind the header the payload loop never ends. |
| `Codec.Reader.Read` | use/go/use_tcp/codec/bytes_codec.go:105 | One read copies what it delivers into the payload from the index on and changes no other byte of it. |
| `Codec.BytesCodec.Encode` | use/go/use_tcp/codec/bytes_codec.go:39-60 | The packet is the encoding. |
| `Codec.BytesCodec.ReadPayload` | use/go/use_tcp/codec/bytes_codec.go:100-118 | Whatever sizes the reads have, the loop ends with the whole payload or with end of stream; it ends if and only if the connection is not lost before that, within as many turns as there are failures and bytes. |
| `Codec.BytesCodec.Decode` | use/go/use_tcp/codec/bytes_codec.go:62-121 | Outcome and bytes consumed are a function of the stream alone, however it is chunked, unless a read fails while the header is fetched, and then nothing is consumed; there is an outcome if and only if the connection is not lost inside the payload. |
| `Codec.HandleConn` | use/go/use_tcp/server/server.go:28-45 | What the handler delivers is always the first messages of the stream; it is all of them up to the first error unless a read failed inside a header, and it only hangs on a lost connection. |
| `Codec.Transfer` | use/go/use_tcp/server/server.go:28-45 | End to end, what arrives is a prefix of what was sent, and all of it unless a read failed inside a header or the connection was lost. |

## Left out

- MemoryPools.MemoryPool.Alloc: does not model the debug peak counter, a failing malloc or overflow of the doubled capacity, all counts being unbounded.
- MemoryPools.MemoryPool.Free: requires a live block, as the source demands of its callers without checking.
- PointerPools.NewBuffer: addresses count whole blocks, and malloc yields any range disjoint from the old buffer and the sentinels, not null.
- ListPools.EmptyGrowthPointers: a run that hands out a block twice is given for growth of an empty pool; of a pool that is neither empty nor full it is proved that its grown state represents no pool.
- PointerPools.PointerPool.Free: takes the id; the overload on a block address is the same body. The debug status field is left out.
- IndexPools.IndexPool.EnsureSize: the copy of the index buffer in line 113 is sized by pointers and not by entries, so where a pointer is wider than an entry it runs past both buffers' first entries and overwrites the new ones; the model copies the entries.
- IndexPools.IndexPool.CopyToLarger: likewise copies the entries of the index buffer and no more.
- IndexPools.IndexPool.constructor: HEAD_ID and TAIL_ID are minus one and minus two of unbounded integers, so a pool so large that its ids reach them is not modelled.
- Wakeup.LogStep: does not model the branch of a failed enqueue (lines 46-51), which leaves the mutex locked.
- Wakeup.CanFinish: shows that finishing stays possible from every reachable state, not that every fair schedule finishes.
- SelectLoop.EvLoop.Run: callbacks add contexts and request exit. Required of them is that a descriptor is not registered when they add it, and of each pass the exact condition proved in WalkFor, that the walk meets no newcomer reported by select; nothing is said of the passes after one that breaks it. Whether a timer is due is an input of each pass, so the clock is left out.
- Sender.BlockWrite: is the contract of a library function whose source is not part of this model; the socket follows any finite list of short writes, retries and failures and then accepts everything. Byte counts do not overflow.
- Loans.Schedule: computes with exact reals instead of floats, and excludes a lump sum at or after the last month of the commercial loan, where the source divides by zero or by a negative number of months. Equal instalments need a positive rate for the same reason.
- NumberTheory.EuclideanGcd: quotients are exact integer quotients truncated toward zero, where the source divides floats and truncates; so for numbers beyond 2^53 the source may differ. The same holds for the other members of this file.
- Murmur.MurmurHash3: blocks are read little-endian and the length is a non-negative int.
- TcpTracker.Tracker.HandlePacket: does not model the callback, the byte buffers or the logging, nor the final write to the status of a session that was just removed.
- RefCounting.Memory.WrapObject: requires that an object is wrapped once.
- Codec.BytesCodec.Decode: the connection's reads deliver at least one byte or an error, never both, so a reader that reports the end of the stream together with its last bytes, or returns nothing without an error, is not modelled. The payload loop is followed for a given number of turns, for every such number. The branch for reading beyond the payload is left out because the index is proved never to exceed it.
- The destructors and size getters of the pools, and their printing, would only add easy members.
- The other sample programs of the repository (graphics, build scripts, bindings, notes, web and database samples) are not modelled.
