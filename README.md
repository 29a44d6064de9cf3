# Hazard-pointer memory managers and stacks over a partitioned global address space

This project is a Dafny model of the memory-reclamation core of a PGAS
(partitioned global address space) library. It also models two lock-free
stacks and the backoff helper built on that core. Every rank owns one
segment of global memory. A global pointer is a pair (rank, offset), or null.
Ranks read and write each other's cells with one-sided remote accesses:
get, put and compare-and-swap. The model views those cells as maps from
addresses to values, one map per kind of cell (`Rma.Heap`).

Modules:

- `GlobalPtr` (gptr.dfy): global pointers and pointer arithmetic. It also
  holds the strict order that the scan sorts by, and the sort-and-unique and
  binary-search steps of the scan.
- `Block` (block.dfy): blocks, each an element with a one-link header in
  front of it, and the run of blocks a pool of `TOTAL_OPS` elements starts as.
- `Rma` (rma.dfy): the remote heap. It has get, put, CAS and the put of a
  buffer at a list of displacements.
- `Hazard` (hazard.dfy): the hazard-pointer protocol shared by all managers.
  It covers the reservation slots, try_reserve, reserve and unreserve, and
  the four stages of the scan (`empty`). The scan is modelled twice: once
  as written, and once with the slot cursor reset per rank (Findings 1).
- `MemoryHp`, `MemoryBl2`, `MemoryDang3`, `MemoryDang4`, `MemoryDang5`,
  `MemoryLb`: the six managers, each a class with one method per operation.
  - hp reuses what it reclaims itself.
  - bl2 never reuses.
  - dang3 hands reclaimed addresses back to their owners through queues.
  - dang4 and dang5 keep a local heap of blocks and return freed blocks
    through pools.
  - lb has no protection at all.
- `PoolUbdSpsc` (pool_ubd_spsc.dfy): the unbounded single-producer
  single-consumer pool of freed blocks. It is a list threaded through the
  blocks' headers, whose head is published in one cell.
- `PoolUbdMpsc` (pool_ubd_mpsc.dfy): the multi-producer pool dang5 uses.
  It is modelled only by the effect dang5 relies on.
- `StackTreiber` (stack_treiber.dfy): the Treiber stack. It has one top cell
  on the master rank and is updated by CAS with retries.
- `StackTsStutter` (stack_ts_stutter.dfy): the timestamped stack with
  stuttering clocks. Each rank keeps its own list. Pop takes the youngest
  untaken element over all ranks. Each rank's list is a ghost chain of
  distinct elements, and the lemmas state what each operation does to the
  untaken values of every rank.
- `Backoff` (backoff.dfy): the exponential, doubling and incrementing delay
  helper. The operations use the guards as intended (Findings 4). The
  uint64 arithmetic of the guards as written is spelled out beside them.
- `Batching` (batches.dfy): sequences of batches of addresses, and the
  multiset facts about their concatenation that the managers' conservation
  lemmas share.

Other ranks act concurrently, but the model is sequential. That
interference enters as parameters. `others` is the sequence of values other
ranks store into a cell between this rank's reads: reserve's re-reads, and
the CAS retries of push and pop. A failing CAS or an unstable read is
modelled, not assumed away.

## Model

| member | source | states |
|---|---|---|
| GlobalPtr.Advance | memory/memory_hp.h:93-94 | the cursor advanced by k elements stays on its rank and never moves to a lower offset |
| GlobalPtr.AdvanceInjective | memory/memory_hp.h:93-94 | advancing by different numbers of non-empty elements gives different addresses |
| GlobalPtr.IssuedSpec | memory/memory_hp.h:93-94 | an address has been handed out by the cursor after n steps exactly when it is the start advanced by some k < n |
| GlobalPtr.IssuedCount | memory/inc/memory_lb.h:56-57 | n steps of the cursor hand out exactly n distinct addresses, and the next one is not among them |
| GlobalPtr.CursorBelowCapacity | memory/memory_hp.h:93 | the test `pool.ptr < capacity` holds exactly when fewer than TOTAL_OPS elements have been handed out |
| GlobalPtr.LessStrictTotal | memory/memory_hp.h:240-242 | the order the scan sorts by is irreflexive, transitive, total and asymmetric |
| GlobalPtr.Insert | memory/memory_hp.h:240-242 | inserting into a strictly sorted list keeps it strictly sorted and adds exactly the new element |
| GlobalPtr.SortUnique | memory/memory_hp.h:240-242 | sort followed by unique gives a strictly sorted list with exactly the elements of the input |
| GlobalPtr.BinarySearch | memory/memory_hp.h:249 | on a strictly sorted list, the search succeeds exactly when the element is in the list |
| Block.HeaderOf | memory/inc/memory_dang4.h:114-115 | the header sits on the element's rank, one header size before it |
| Block.Headers | pool/inc/pool_ubd_spsc.h:73-81 | the i-th header lies in front of the i-th element, for every i |
| Block.ElementOf | memory/inc/memory_dang4.h:114-115 | the element behind a header is on its rank, past the header size, and its header is that header |
| Block.Blocks | memory/inc/memory_dang4.h:72 | the fresh pool holds n blocks, the k-th at k block sizes past the start |
| Block.BlocksDistinct | memory/inc/memory_dang4.h:72 | the blocks of a fresh pool are pairwise distinct and all on the pool's rank |
| Block.ElementsOfHeaders | pool/inc/pool_ubd_spsc.h:73-81 | the elements behind the headers of a batch are the batch itself |
| Rma.Displaced | pool/inc/pool_ubd_spsc.h:84-86 | a displaced address is on the base's rank at base offset plus displacement |
| Rma.ScatteredKeys | pool/inc/pool_ubd_spsc.h:84-86 | a displaced put writes every target, keeps every existing cell, and never creates the null cell |
| Rma.ScatteredSpec | pool/inc/pool_ubd_spsc.h:84-86 | with distinct displacements, target i holds buffer entry i and every other cell is unchanged |
| Rma.Heap.Get | bcl_ext/bcl/backends/mpi/comm.hpp:75-82 | a get returns the value stored at the address |
| Rma.Heap.Put | bcl_ext/bcl/backends/mpi/comm.hpp:45-49 | a put stores the value at the address and changes no other cell |
| Rma.Heap.PutScattered | pool/inc/pool_ubd_spsc.h:84-86 | buffer entry i goes to base plus displacement i |
| Rma.Heap.Cas | bcl_ext/bcl/backends/mpi/comm.hpp:101-123 | the CAS returns the old value and stores the new one exactly when the old value equals the expected one |
| Hazard.WindowPositive | memory/memory_hp.h:31-34 | HP_WINDOW is positive when there is a rank with a slot |
| Hazard.SlotInjective | memory/memory_hp.h:56-61 | distinct (rank, slot) pairs are distinct cells |
| Hazard.FirstFrom | memory/memory_hp.h:201-209 | the search returns the first slot from j on that holds v, or HPS_PER_UNIT when there is none |
| Hazard.FindSlot | memory/memory_hp.h:142-153 | the slot search loop returns the first own slot holding v, or HPS_PER_UNIT |
| Hazard.ClearedSpec | memory/memory_hp.h:56-61 | clearing nulls every own slot and changes no other cell |
| Hazard.ClearSlots | memory/memory_hp.h:56-61 | the constructors' slot loop leaves exactly the cleared cells |
| Hazard.TryReserve | memory/memory_hp.h:135-157 | null is never reserved; otherwise the value is published in the first free slot, and the slot is kept only if the re-read equals it; no free slot writes nothing and reports the error |
| Hazard.SettleProtects | memory/memory_hp.h:172-185 | a loop that ends protected protects a non-null value the source held; with no interference it protects the source's current value, unless that is null |
| Hazard.PublishLoop | memory/memory_hp.h:172-185 | the publish-and-re-read loop leaves the slot and the source holding the same value: the protected value, or null |
| Hazard.PublishAndRead | memory/memory_hp.h:174-175 | one publish and re-read: the store, then the interfering store, then the read |
| Hazard.Reserve | memory/memory_hp.h:159-192 | reserve returns null with nothing written when the source is null; otherwise the slot and the source end up agreeing on the result; no free slot reports the error |
| Hazard.LoopReserve | memory/memory_dang3.h:171-197 | the looping try_reserve returns true with the slot holding the last value read; it returns false with the slot cleared when the source is null, and false when no slot is free |
| Hazard.Unreserve | memory/memory_hp.h:194-213 | unreserve clears only the first slot holding the address; null changes nothing; an unheld address changes nothing and reports the error |
| Hazard.Release | memory/memory_dang3.h:199-211 | dang3's unreserve clears the first slot holding the address, and silently does nothing otherwise |
| Hazard.RankProtectedSpec | memory/memory_hp.h:226-238 | an address is protected by a rank exactly when one of its slots holds it and it is not null |
| Hazard.ProtectedSpec | memory/memory_hp.h:226-238 | an address is protected exactly when some rank's slot holds it and it is not null |
| Hazard.ReadProtected | memory/memory_hp.h:226-238 | Stage 1, with the cursor reset per rank, collects exactly the protected addresses |
| Hazard.ReadProtectedAsWritten | memory/memory_hp.h:226-238 | Stage 1 as written collects exactly the values at the cells its never-reset cursor reads |
| Hazard.ScanAsWrittenMissesRank1 | memory/memory_hp.h:227-236 | with two ranks of one slot each, the as-written scan misses rank 1's protected address and reclaims it |
| Hazard.ScanFromRetired | memory/memory_hp.h:244-260 | Stage 3 keeps and reclaims only retired addresses |
| Hazard.RetiredPartition | memory/memory_hp.h:244-260 | the kept and reclaimed addresses together are exactly the retired ones, as a multiset; kept ones are protected and reclaimed ones are not |
| Hazard.ReclaimedUnprotected | memory/memory_hp.h:244-260 | with nothing protected, everything is reclaimed, last retired first |
| Hazard.SplitRetired | memory/memory_hp.h:244-260 | the Stage 3 loop over a sorted protected list partitions the retired list as Retained and Reclaimed say |
| Hazard.Scan | memory/memory_hp.h:215-264 | the scan, with Stage 1's cursor reset per rank (the corrected behaviour, Findings 1), keeps the protected retired addresses and reclaims the others, losing and duplicating nothing |
| MemoryHp.Memory.constructor | memory/memory_hp.h:50-67 | the own slots are cleared, the cursor is at the pool start and both lists are empty |
| MemoryHp.Memory.Malloc | memory/memory_hp.h:76-113 | malloc returns the last reclaimed element; else a fresh element from the cursor while below capacity; else it scans once (the corrected scan, Findings 1) and returns that scan's last reclaimed element, or null |
| MemoryHp.Memory.Free | memory/memory_hp.h:115-121 | free appends to list_ret and scans once the list has HP_WINDOW or more elements (the corrected scan, Findings 1) |
| MemoryHp.Memory.OpBegin | memory/memory_hp.h:123-127 | op_begin changes nothing |
| MemoryHp.Memory.OpEnd | memory/memory_hp.h:129-133 | op_end changes nothing |
| MemoryHp.Memory.TryReserve | memory/memory_hp.h:135-157 | as Hazard.TryReserve, on this rank's slots |
| MemoryHp.Memory.Reserve | memory/memory_hp.h:159-192 | as Hazard.Reserve, on this rank's slots |
| MemoryHp.Memory.Unreserve | memory/memory_hp.h:194-213 | as Hazard.Unreserve, on this rank's slots |
| MemoryHp.Memory.Empty | memory/memory_hp.h:215-264 | list_ret keeps the protected addresses; the others are appended to list_rec (the corrected scan, Findings 1) |
| MemoryBl2.Shift | memory/inc/memory_bl2.h:88-97 | the shifted address keeps the offset and moves the rank up by the node size on an even node, down on an odd one |
| MemoryBl2.ShiftInRange | memory/inc/memory_bl2.h:88-97 | the shifted rank exists exactly when the node is odd or is not the last node |
| MemoryBl2.Memory.constructor | memory/inc/memory_bl2.h:53-70 | the own slots are cleared, the cursor is at the pool start and both lists are empty |
| MemoryBl2.Memory.Malloc | memory/inc/memory_bl2.h:79-100 | malloc returns a fresh cursor address, shifted to the partner rank on several nodes, while below capacity, then null; it never reads list_rec |
| MemoryBl2.Memory.Free | memory/inc/memory_bl2.h:102-108 | free appends to list_ret and scans at HP_WINDOW or more (the corrected scan, Findings 1) |
| MemoryBl2.Memory.OpBegin | memory/inc/memory_bl2.h:110-114 | op_begin changes nothing |
| MemoryBl2.Memory.OpEnd | memory/inc/memory_bl2.h:116-120 | op_end changes nothing |
| MemoryBl2.Memory.TryReserve | memory/inc/memory_bl2.h:122-144 | as Hazard.TryReserve |
| MemoryBl2.Memory.Reserve | memory/inc/memory_bl2.h:146-179 | as Hazard.Reserve |
| MemoryBl2.Memory.Unreserve | memory/inc/memory_bl2.h:181-200 | as Hazard.Unreserve |
| MemoryBl2.Memory.Empty | memory/inc/memory_bl2.h:202-251 | the scan keeps the protected addresses; the rest go to list_rec for good (the corrected scan, Findings 1) |
| Batching.FlattenAppend | memory/memory_dang3.h:257-258 | enqueuing a batch appends its addresses to the queue's contents |
| Batching.FlattenUpdate | memory/memory_dang3.h:102-107 | replacing one batch changes the contents by exactly that batch |
| Batching.FlattenPrefix | memory/inc/memory_dang4.h:130-135 | the contents of one more batch are the earlier contents followed by that batch |
| MemoryDang3.DrainedAppend | memory/memory_dang3.h:102-107 | draining one more queue appends its oldest batch to list_rec |
| MemoryDang3.DrainConserves | memory/memory_dang3.h:102-107 | a drain loses nothing: what it moves plus what stays waiting is what waited before |
| MemoryDang3.SentEnqueue | memory/memory_dang3.h:257-258 | an enqueue adds exactly the batch to what this rank has sent |
| MemoryDang3.RouteStep | memory/memory_dang3.h:256-258 | routing one address changes only the buffers and the queues, and keeps their shape |
| MemoryDang3.RouteAll | memory/memory_dang3.h:242-260 | routing all reclaimed addresses keeps the shape of the buffers and queues |
| MemoryDang3.RouteHandsOff | memory/memory_dang3.h:256-258 | a buffer is enqueued to queues[owner][own] exactly when the new address makes it HP_WINDOW long |
| MemoryDang3.OverfullStays | memory/memory_dang3.h:256-258 | a buffer already HP_WINDOW long is never enqueued again and keeps growing |
| MemoryDang3.RouteStepConserves | memory/memory_dang3.h:256-258 | with moved-from buffers empty, routing adds exactly the address to what this rank holds for others |
| MemoryDang3.RouteAllConserves | memory/memory_dang3.h:242-260 | with moved-from buffers empty, routing adds exactly the reclaimed addresses, as a multiset |
| MemoryDang3.Queues.constructor | memory/memory_dang3.h:69-75 | there is one empty queue per (owner, producer) pair |
| MemoryDang3.Queues.Enqueue | memory/memory_dang3.h:257-258 | the batch goes to the back of queue (owner, producer) |
| MemoryDang3.Queues.Dequeue | memory/memory_dang3.h:104-106 | dequeue succeeds exactly when the queue is non-empty, and removes and returns its oldest batch |
| MemoryDang3.Memory.constructor | memory/memory_dang3.h:53-84 | slots are cleared, the cursor is at the start, the lists and the counter are zero, and there is one empty buffer per rank |
| MemoryDang3.Memory.DrainQueues | memory/memory_dang3.h:101-107 | the oldest batch of every own queue joins list_rec, and each queue loses that batch |
| MemoryDang3.Memory.Malloc | memory/memory_dang3.h:97-149 | malloc counts the call, drains first on every HP_WINDOW-th call, then takes from list_rec, then from the cursor, then from one more drain, then returns null |
| MemoryDang3.Memory.Allocate | memory/memory_dang3.h:110-148 | after the counted drain: list_rec's last element, else the cursor, else the last element of one more drain, else null |
| MemoryDang3.Memory.Free | memory/memory_dang3.h:151-157 | free appends to list_ret and, at HP_WINDOW or more, routes the unprotected addresses towards their owners (the corrected scan, Findings 1) |
| MemoryDang3.Memory.OpBegin | memory/memory_dang3.h:159-163 | op_begin changes nothing |
| MemoryDang3.Memory.OpEnd | memory/memory_dang3.h:165-169 | op_end changes nothing |
| MemoryDang3.Memory.TryReserve | memory/memory_dang3.h:171-197 | as Hazard.LoopReserve |
| MemoryDang3.Memory.Unreserve | memory/memory_dang3.h:199-211 | as Hazard.Release |
| MemoryDang3.Memory.Empty | memory/memory_dang3.h:213-264 | list_ret keeps the protected addresses; every other one is routed to its owner's buffer, never into list_rec (the corrected scan, Findings 1) |
| MemoryDang3.Memory.RouteFreed | memory/memory_dang3.h:242-260 | the routing loop's new buffers and queues are what RouteAll computes |
| MemoryDang3.Memory.RouteOne | memory/memory_dang3.h:245-258 | routing one address leaves what RouteStep computes |
| MemoryDang4.Memory.GainedFrom | memory/inc/memory_dang4.h:130-135 | every header a drain gains is a non-null address |
| MemoryDang4.Memory.NothingPending | memory/inc/memory_dang4.h:130-135 | pools whose published head is the cached one give nothing |
| MemoryDang4.FreeStepHeld | memory/inc/memory_dang4.h:196-205 | one free (the corrected one, Findings 2) keeps exactly one more element, behind a header of ncontig, in a buffer or in a put batch |
| MemoryDang4.FreeAllHeld | memory/inc/memory_dang4.h:380-396 | the frees of a list of addresses, one after another, keep exactly those addresses more: none is lost and none doubled |
| MemoryDang4.Memory.constructor | memory/inc/memory_dang4.h:58-86 | slots are cleared, pool_mem holds TOTAL_OPS blocks, the lists and buffers are empty, and no own pool has anything pending |
| MemoryDang4.Memory.Drain | memory/inc/memory_dang4.h:130-135 | draining every own pool appends all gained headers to ncontig and leaves nothing pending |
| MemoryDang4.Memory.PendingRuns | memory/inc/memory_dang4.h:130-135 | the headers each own pool would hand out, one run per pool; together they are exactly what the drain gains |
| MemoryDang4.Memory.DrainedAll | memory/inc/memory_dang4.h:130-135 | once every own pool is drained, ncontig holds all their runs and no pool has anything pending |
| MemoryDang4.Memory.DrainOne | memory/inc/memory_dang4.h:130-135 | one get appends that pool's pending headers to ncontig, and the pool's head becomes cached |
| MemoryDang4.Memory.Malloc | memory/inc/memory_dang4.h:99-194 | malloc tries ncontig, contig, a drain, pool_mem, then a second drain, then null; every result is the element behind a header |
| MemoryDang4.Memory.Refill | memory/inc/memory_dang4.h:130-194 | the drain, pool_mem and second drain steps of malloc give what Refilled says |
| MemoryDang4.Memory.Carve | memory/inc/memory_dang4.h:154-165 | pool_mem's next HP_WINDOW blocks become contig and the first is returned; an empty pool_mem gives null |
| MemoryDang4.Memory.Free | memory/inc/memory_dang4.h:196-205 | own-rank addresses go back to ncontig as their headers (the corrected behaviour, Findings 2); others are buffered and flushed to pools[rank][own] at HP_WINDOW; ncontig, the buffers and the puts end as FreeStep says |
| MemoryDang4.Memory.Push | memory/inc/memory_dang4.h:198-204 | the address is appended to its rank's buffer, and a full buffer is put and cleared |
| MemoryDang4.Memory.FreeAsWritten | memory/inc/memory_dang4.h:196-205 | free as written buffers own-rank addresses too, and pools[own][own] then has nothing pending |
| MemoryDang4.Memory.Retire | memory/inc/memory_dang4.h:207-213 | retire appends to list_ret; at HP_WINDOW or more it scans as Empty says (the corrected scan, Findings 1, and the corrected free, Findings 2); below that, nothing but list_ret changes |
| MemoryDang4.Memory.OpBegin | memory/inc/memory_dang4.h:215-219 | op_begin changes nothing |
| MemoryDang4.Memory.OpEnd | memory/inc/memory_dang4.h:221-225 | op_end changes nothing |
| MemoryDang4.Memory.TryReserve | memory/inc/memory_dang4.h:227-249 | as Hazard.TryReserve |
| MemoryDang4.Memory.Reserve | memory/inc/memory_dang4.h:251-307 | as Hazard.Reserve |
| MemoryDang4.Memory.Unreserve | memory/inc/memory_dang4.h:309-349 | as Hazard.Unreserve |
| MemoryDang4.Memory.ReclaimAll | memory/inc/memory_dang4.h:380-396 | Stage 3 frees every reclaimed address, in order (the corrected free, Findings 2): ncontig, the buffers and the puts end as FreeAll says and hold exactly those addresses more |
| MemoryDang4.Memory.Reclaim | memory/inc/memory_dang4.h:394 | one reclaimed address is freed (the corrected free, Findings 2), as FreeStep says |
| MemoryDang4.Memory.Empty | memory/inc/memory_dang4.h:351-400 | list_ret keeps the protected addresses (the corrected scan, Findings 1); every other one is freed (the corrected free, Findings 2), so ncontig, the buffers and the puts end as FreeAll says and hold exactly those addresses more |
| MemoryDang5.Memory.constructor | memory/inc/memory_dang5.h:66-94 | the object is usable exactly when the pool allocation succeeded; slots are cleared; pool_mem holds the blocks |
| MemoryDang5.FreeStepHeld | memory/inc/memory_dang5.h:215-234 | one free keeps exactly one more element, in a buffer or behind a header in a pool |
| MemoryDang5.FlushHeld | memory/inc/memory_dang5.h:224-233 | putting another rank's full buffer into its pool and clearing it moves the buffer's elements, and the new one, into the pool |
| MemoryDang5.RunsAppend | memory/inc/memory_dang5.h:231 | a put of a batch's headers adds exactly the batch's elements to what the pools hold |
| MemoryDang5.FreeAllHeld | memory/inc/memory_dang5.h:360-378 | the frees of a list of addresses, one after another, keep exactly those addresses more: none is lost and none doubled |
| MemoryDang5.Memory.Malloc | memory/inc/memory_dang5.h:106-213 | malloc takes the own buffer's last element first, then ncontig, contig, the own pool, pool_mem, then null |
| MemoryDang5.Memory.Refill | memory/inc/memory_dang5.h:157-212 | the get, pool_mem and second get steps of malloc give what Refilled says |
| MemoryDang5.Memory.Carve | memory/inc/memory_dang5.h:179-191 | pool_mem's next HP_WINDOW blocks become contig and the first is returned; an empty pool_mem gives null |
| MemoryDang5.Memory.Free | memory/inc/memory_dang5.h:215-234 | free appends to its rank's buffer; only another rank's buffer is flushed at HP_WINDOW, into that rank's pool; the buffers and pools end as FreeStep says |
| MemoryDang5.Memory.FreeThenMalloc | memory/inc/memory_dang5.h:223 | freeing an own element and then calling malloc hands that element back |
| MemoryDang5.Memory.Retire | memory/inc/memory_dang5.h:236-242 | retire appends to list_ret; at HP_WINDOW or more it scans as Empty says (the corrected scan, Findings 1); below that, nothing but list_ret changes |
| MemoryDang5.Memory.OpBegin | memory/inc/memory_dang5.h:244-245 | op_begin changes nothing |
| MemoryDang5.Memory.OpEnd | memory/inc/memory_dang5.h:247-248 | op_end changes nothing |
| MemoryDang5.Memory.TryReserve | memory/inc/memory_dang5.h:250-272 | as Hazard.TryReserve |
| MemoryDang5.Memory.Reserve | memory/inc/memory_dang5.h:274-308 | as Hazard.Reserve |
| MemoryDang5.Memory.Unreserve | memory/inc/memory_dang5.h:310-329 | as Hazard.Unreserve |
| MemoryDang5.Memory.ReclaimAll | memory/inc/memory_dang5.h:360-378 | Stage 3 frees every reclaimed address, in order: the buffers and pools end as FreeAll says and hold exactly those addresses more |
| MemoryDang5.Memory.Reclaim | memory/inc/memory_dang5.h:374 | one reclaimed address is freed, as FreeStep says |
| MemoryDang5.Memory.Empty | memory/inc/memory_dang5.h:331-380 | list_ret keeps the protected addresses (the corrected scan, Findings 1); every other one is freed, so the buffers and pools end as FreeAll says and hold exactly those addresses more |
| MemoryLb.Memory.constructor | memory/inc/memory_lb.h:33-38 | the cursor is at the pool start, capacity is TOTAL_OPS elements, and list_rec is empty |
| MemoryLb.Memory.Malloc | memory/inc/memory_lb.h:46-60 | malloc returns list_rec's last element, else a fresh cursor address, else null; the cursor never decreases; null means both sources are exhausted |
| MemoryLb.Memory.Free | memory/inc/memory_lb.h:62-66 | free pushes the address onto list_rec with no check |
| MemoryLb.Memory.FreeThenMalloc | memory/inc/memory_lb.h:50-55 | free(a) followed by malloc returns a |
| PoolUbdMpsc.Pool.constructor | memory/inc/memory_dang5.h:91 | a new pool is empty |
| PoolUbdMpsc.Pool.Put | memory/inc/memory_dang5.h:231 | the batch's headers join the pool behind those already there |
| PoolUbdMpsc.Pool.Get | memory/inc/memory_dang5.h:158 | get reports whether there were headers, hands all of them out, and empties the pool |
| PoolUbdSpsc.Disp | pool/inc/pool_ubd_spsc.h:73-81 | there is one displacement per element |
| PoolUbdSpsc.Links | pool/inc/pool_ubd_spsc.h:73-81 | there is one link per element |
| PoolUbdSpsc.PutTargets | pool/inc/pool_ubd_spsc.h:84-86 | put's displacements, relative to the first header, hit each element's header, moved to the first element's rank |
| PoolUbdSpsc.PutLinks | pool/inc/pool_ubd_spsc.h:73-86 | after put, header i links to header i+1 and the last header links to the cached head |
| PoolUbdSpsc.ChainPtrs | pool/inc/pool_ubd_spsc.h:106 | a walk down to a non-null head meets only non-null headers |
| PoolUbdSpsc.ChainOfLinked | pool/inc/pool_ubd_spsc.h:106 | walking a linked batch meets the rest of the batch and then the head |
| PoolUbdSpsc.KeysCover | pool/inc/pool_ubd_spsc.h:106 | distinct headers that are all written cells are no more than the written cells |
| PoolUbdSpsc.PutThenGet | pool/inc/pool_ubd_spsc.h:66-112 | after a put, get hands out every header of the batch but the first, then the old cached head |
| PoolUbdSpsc.HeadersDistinct | pool/inc/pool_ubd_spsc.h:73-81 | a batch's headers are pairwise distinct |
| PoolUbdSpsc.Pool.Host | pool/inc/pool_ubd_spsc.h:35-51 | on the host, head_ptr's cell and head_addr both hold the dummy block, and nothing is pending |
| PoolUbdSpsc.Pool.Peer | pool/inc/pool_ubd_spsc.h:49-50 | every other rank receives the host's head_ptr and head_addr |
| PoolUbdSpsc.Pool.Put | pool/inc/pool_ubd_spsc.h:66-93 | put links the headers and writes them in one displaced put; the cached and the published head become the first header |
| PoolUbdSpsc.Pool.Get | pool/inc/pool_ubd_spsc.h:95-112 | get fails, changing nothing, when the published head is the cached one; otherwise it hands out the chain from that header's link down to the cached head, and caches it |
| StackTreiber.ClosedAfterWrite | stack/inc/stack_treiber.h:105 | writing an element whose link is closed keeps every closed top closed |
| StackTreiber.EmptyStack | stack/inc/stack_treiber.h:141-156 | a null top is the empty stack, and only the empty stack |
| StackTreiber.PushOnto | stack/inc/stack_treiber.h:99-116 | writing {top, v} into a fresh element and making it the top pushes v |
| StackTreiber.PopFrom | stack/inc/stack_treiber.h:167-196 | the top of a non-empty stack holds its first value, and its link is the rest of the stack |
| StackTreiber.OneTwoThree | stack/inc/stack_treiber.h:96-201 | pushing 1, 2, 3 then popping gives 3, 2, 1 and then the empty stack |
| StackTreiber.PushSeen | stack/inc/stack_treiber.h:96-127 | push's successful attempt read the first top or a value another rank stored; with no interference it is the first top read |
| StackTreiber.PopSeen | stack/inc/stack_treiber.h:138-188 | pop's last attempt read the first top or a value another rank stored; with no interference, or a null first read, it is the first top read |
| StackTreiber.Stack.constructor | stack/inc/stack_treiber.h:50-67 | the master stores null into its top; the other ranks point their top at the master's |
| StackTreiber.Stack.Push | stack/inc/stack_treiber.h:77-128 | push returns false and touches nothing when malloc failed; otherwise the element holds {seen top, v} and top is the element |
| StackTreiber.Stack.Pop | stack/inc/stack_treiber.h:130-202 | pop on a null top returns false; otherwise it returns the top's value, swings top to its link, and hands the element to free |
| StackTreiber.Stack.PushThenPop | stack/inc/stack_treiber.h:77-202 | push then pop, with no rank in between, returns the value and restores top |
| StackTreiber.Stack.PushFill | stack/inc/stack_treiber.h:227-251 | on the master, the element is linked in front of top with plain stores; false when malloc failed |
| StackTsStutter.Inc64 | stack/inc/stack_ts_stutter.h:115 | ++ on a uint64 adds one, and wraps to 0 past ULLI_MAX |
| StackTsStutter.BeforeOrder | stack/inc/stack_ts_stutter.h:82-85 | the interval order is a strict order; nothing is below TS_MIN and TS_MAX is below nothing |
| StackTsStutter.FirstUntaken | stack/inc/stack_ts_stutter.h:257-263 | the result is the first untaken position at or after k, past taken elements only |
| StackTsStutter.LiveSkip | stack/inc/stack_ts_stutter.h:183-190 | skipping taken elements leaves the untaken values the same |
| StackTsStutter.LiveFirst | stack/inc/stack_ts_stutter.h:251-264 | the first untaken element holds the first untaken value |
| StackTsStutter.LiveFrame | stack/inc/stack_ts_stutter.h:266-311 | the untaken values depend only on the chain's own taken flags and values |
| StackTsStutter.ChainFrame | stack/inc/stack_ts_stutter.h:266-311 | a list stays the same list when its cells are not written |
| StackTsStutter.TakeAndLink | stack/inc/stack_ts_stutter.h:277-289 | remove's CAS takes the youngest element, and a different top links to it; nothing else changes |
| StackTsStutter.RemoveTops | stack/inc/stack_ts_stutter.h:282-283 | remove's CAS on the top cell either leaves the tops or makes the youngest the top |
| StackTsStutter.FirstUntakenUnique | stack/inc/stack_ts_stutter.h:257-263 | a position past taken elements only, and untaken, is the first untaken one |
| StackTsStutter.FirstUntakenFrame | stack/inc/stack_ts_stutter.h:257-263 | the first untaken position depends only on the taken flags |
| StackTsStutter.ChainSuffix | stack/inc/stack_ts_stutter.h:183-190 | the list from any of its elements is the rest of the list |
| StackTsStutter.ChainCons | stack/inc/stack_ts_stutter.h:178-180 | an element linking to a list's head, and not in it, heads the longer list |
| StackTsStutter.Candidate | stack/inc/stack_ts_stutter.h:251-264 | the youngest candidate, when there is one, is an existing element |
| StackTsStutter.RemoveCellsWrites | stack/inc/stack_ts_stutter.h:277-301 | remove takes y, links it to the next untaken element, links a different top to y, and changes nothing else |
| StackTsStutter.RemoveCellsLink | stack/inc/stack_ts_stutter.h:291-301 | the link remove leaves in y is the same as before its first writes |
| StackTsStutter.RemoveKeepsOwn | stack/inc/stack_ts_stutter.h:277-306 | the removing rank keeps its other untaken values, in order |
| StackTsStutter.RemoveKeepsOther | stack/inc/stack_ts_stutter.h:277-306 | another rank's list and values are untouched by the remove |
| StackTsStutter.RemoveKeeps | stack/inc/stack_ts_stutter.h:266-311 | a remove gives the first untaken value of its rank, leaves that rank the rest in order, and leaves every other rank unchanged |
| StackTsStutter.PickFrom | stack/inc/stack_ts_stutter.h:329-353 | the scan from any rank on chooses as the elimination and youngest rules say |
| StackTsStutter.PickEmpty | stack/inc/stack_ts_stutter.h:329-369 | with stamps after TS_MIN, the scan finds no candidate exactly when every rank has no untaken element |
| StackTsStutter.PoppedValues | stack/inc/stack_ts_stutter.h:304-306 | a successful pop hands out the first untaken value of its rank, leaves that rank the rest, and leaves the other ranks unchanged |
| StackTsStutter.TryRemAsWrittenLosesElement | stack/inc/stack_ts_stutter.h:372 | with another rank's top passed to remove, a value of that rank drops out of its list |
| StackTsStutter.MaxClock | stack/inc/stack_ts_stutter.h:107-114 | the largest clock is at least every clock and is one of them, or ULLI_MIN |
| StackTsStutter.MaxClockRaise | stack/inc/stack_ts_stutter.h:115-116 | raising the own clock to at least every clock makes it the largest |
| StackTsStutter.NewStamp | stack/inc/stack_ts_stutter.h:98-133 | start is one past the largest clock and end one past start; the own clock is end; the stamp is not below itself, and earlier stamps are below it |
| StackTsStutter.Time.constructor | stack/inc/stack_ts_stutter.h:87-91 | the own clock starts at 0 |
| StackTsStutter.Time.ReadMax | stack/inc/stack_ts_stutter.h:107-114 | the loop returns the largest clock |
| StackTsStutter.Time.GetNewTS | stack/inc/stack_ts_stutter.h:98-133 | getNewTS leaves the clocks and returns the stamp as Stamped says |
| StackTsStutter.PushKeeps | stack/inc/stack_ts_stutter.h:157-201 | push puts v in front of the own untaken values and changes no other rank's |
| StackTsStutter.Stack.constructor | stack/inc/stack_ts_stutter.h:135-149 | the own top starts null and every list is empty |
| StackTsStutter.Stack.Push | stack/inc/stack_ts_stutter.h:157-201 | a null malloc result changes nothing; otherwise the own untaken values gain v in front and no other rank's change |
| StackTsStutter.Stack.Link | stack/inc/stack_ts_stutter.h:178-192 | the new element becomes the own top and links past the leading taken elements |
| StackTsStutter.Stack.SkipTaken | stack/inc/stack_ts_stutter.h:183-190 | the unlinking walk stops at the first untaken element, or null |
| StackTsStutter.Stack.GetYoungest | stack/inc/stack_ts_stutter.h:251-264 | get_youngest returns the first untaken element, null exactly when the rank has no untaken value |
| StackTsStutter.Stack.Remove | stack/inc/stack_ts_stutter.h:266-311 | remove succeeds exactly when the element was untaken, and then it returns the rank's first untaken value |
| StackTsStutter.Stack.Scan | stack/inc/stack_ts_stutter.h:325-353 | try_rem's loop chooses what Pick says, with the top read with the chosen candidate |
| StackTsStutter.Stack.TryRem | stack/inc/stack_ts_stutter.h:313-373 | try_rem removes the chosen element using its own rank's top (the corrected behaviour), or reports EMPTY when no rank has an untaken element |
| StackTsStutter.Stack.Pop | stack/inc/stack_ts_stutter.h:203-216 | pop takes a new timestamp, then removes as TryRemPost says; NON_EMPTY unless every rank was empty |
| Backoff.Wrap | bclx/bclx/core/util/backoff.hpp:42 | a uint64 result is below 2^64, and equals the exact value when that fits |
| Backoff.Clamp | bclx/bclx/core/util/backoff.hpp:34-35 | the clamped bk is at most bk_max, and equals bk when bk is not above it |
| Backoff.Doubled | bclx/bclx/core/util/backoff.hpp:56-57 | bk doubles when twice bk fits under bk_max, and stays otherwise |
| Backoff.Incremented | bclx/bclx/core/util/backoff.hpp:70-71 | bk grows by one when that fits under bk_max, and stays otherwise |
| Backoff.DoubledAsWrittenWraps | bclx/bclx/core/util/backoff.hpp:56-57 | with bk_max at least 2^63, bk = 2^63 doubles to 0 as written and 0 doubles to 0, while the intended doubling keeps 2^63 |
| Backoff.DoubledAgrees | bclx/bclx/core/util/backoff.hpp:56-57 | below 2^63 the as-written doubling is the intended one |
| Backoff.IncrementedAsWrittenWraps | bclx/bclx/core/util/backoff.hpp:70-71 | with bk = bk_max = 2^64 - 1, the as-written increment wraps bk to 0, while the intended one keeps it |
| Backoff.IncrementedAgrees | bclx/bclx/core/util/backoff.hpp:70-71 | below 2^64 - 1 the as-written increment is the intended one |
| Backoff.DblResults | bclx/bclx/core/util/backoff.hpp:48-60 | n delay_dbl calls give n results, the first being the clamped bk |
| Backoff.DblResultsGrow | bclx/bclx/core/util/backoff.hpp:48-60 | successive delay_dbl results never decrease and never pass bk_max |
| Backoff.DblResultsDouble | bclx/bclx/core/util/backoff.hpp:48-60 | the k-th delay_dbl result is init times 2^k while that fits under bk_max |
| Backoff.Backoff.constructor | bclx/bclx/core/util/backoff.hpp:26-30 | bk and bk_max are the given values |
| Backoff.Backoff.DelayDbl | bclx/bclx/core/util/backoff.hpp:48-60 | delay_dbl returns the clamped bk, then doubles it if the doubled value fits under bk_max (the intended guard, Findings 4); afterwards bk is at most bk_max |
| Backoff.Backoff.DelayInc | bclx/bclx/core/util/backoff.hpp:62-74 | delay_inc returns the clamped bk, then adds one if that fits under bk_max (the intended guard, Findings 4); afterwards bk is at most bk_max |
| Backoff.Backoff.DelayExp | bclx/bclx/core/util/backoff.hpp:32-46 | delay_exp returns the draw, which is in [0, clamped bk], then updates bk as delay_dbl does (the intended guard, Findings 4) |

## Left out

- Concurrency: the interleavings of ranks, and linearizability. Other ranks' stores enter as `others` parameters of reserve, try_reserve and the stacks' retry loops. Each operation is a sequence of atomic steps on one heap.
- MPI itself: flushes, requests, error codes, barriers and broadcasts. The broadcast and the barriers of the constructors are folded into their parameters. For the pools, that is the head the host broadcasts and the pool grid.
- The error messages printed with printf. Where the caller can tell, they are `full` or `missing` flags, or a `false` result.
- Tracing and debugging counters, and the `sleep_for`/`usleep` delays.
- Backoff.Backoff.DelayExp: the default-seeded random draw is a parameter, required to lie within [0, clamped bk].
- The retry backoff inside Treiber push and pop: it only delays.
- The `MEM_REC` branches of the stacks. They reference a member the hp manager does not declare. The default branches are modelled, with dang3 as the TS stack's manager.
- The Treiber and TS stacks' call to malloc: its result is the `addr` parameter of push. StackTsStutter.Stack.Push requires an own-rank address not already in the own list, which is what a fresh malloc gives.
- StackTreiber.Stack.Pop: its call to the manager's free is not made; the element it would free is returned as the `freed` out-parameter.
- The stacks' print functions and the destructors (dealloc, clear): they are output and teardown only.
- `queue_spsc`, whose source is not part of this model. It is modelled as a map from (owner, producer) to a sequence of batches. After a buffer is moved into a queue, the buffer holds an arbitrary value, since the move does not fix what it leaves. MemoryDang3.OverfullStays shows what happens if that value is not empty.
- MemoryDang3.Memory.Free: requires a non-null address of an existing rank, because the scan indexes `buffers[addr.rank]` with it.
- MemoryDang4.Memory.Free: requires `Freeable([ptr], nprocs)`, a non-null address of an existing rank with room for a header in front of it, because free indexes `buffers[ptr.rank]` and takes the header of an own address. Retire, ReclaimAll and Reclaim require the same of what they are given.
- MemoryDang5.Memory.Free: requires `Freeable([ptr], nprocs)` for the same reason: free indexes `buffers[ptr.rank]` and `pools[ptr.rank]`, and the pool takes the headers.
- MemoryDang3.Memory.Malloc: `counter` is unbounded here, while the source's is a uint64_t. After 2^64 calls it would wrap and, when HP_WINDOW does not divide 2^64, shift which calls drain first.
- MemoryDang4.Memory.ReclaimAll: the puts of a scan are stated through the ghost log `puts`, one batch per flush, and not as the head and header cells they leave. Free's `Buffered` clause states those cells for one put at a time.
- MemoryDang4.Memory.Empty: as for ReclaimAll, its puts are stated through the ghost log `puts`, not as head and header cells.
- MemoryDang4.Memory.Retire: as for ReclaimAll, the puts of its scan are stated through the ghost log `puts`, not as head and header cells.
- `list_seq`, `list_seq2`, `block` and `header`, whose definitions are not part of this model. They are sequences of addresses. The carve takes min(HP_WINDOW, |pool_mem|) blocks. Header and pointer sizes are fixed at 8 bytes.
- `pool_ubd_mpsc`: its source is not part of this model. PoolUbdMpsc keeps only what dang5 relies on: put adds a batch's headers, and get hands all of them out.
- The second drain of dang4 malloc and the second get of dang5 malloc: in a sequential run the first one left nothing pending. The models state that they find nothing.
- MemoryDang5.Memory.constructor: a failed pool allocation leaves an object whose `Valid()` is false, so no other operation may be called on it.
- MemoryBl2.Memory.Malloc: on an odd number of nodes, the last node's addresses name a rank past the last one. MemoryBl2.ShiftInRange states when this happens. The model returns that address, as the code does.
- StackTsStutter.Time.GetNewTS: another rank's clock moving between the two reads is not modelled.
- StackTsStutter.NewStamp: holds only while no clock wraps, that is while the largest clock plus 2 is at most 2^64 - 1.
- StackTsStutter.PickEmpty: the emptiness equivalence needs every candidate stamped after TS_MIN, which a wrapped clock would break.
- StackTsStutter.Stack.Scan: it records every rank's top in `emptyTops`. The source leaves the entries of non-empty ranks uninitialised, and reads only those of empty ranks.
- StackTsStutter.Stack.TryRem: in a sequential run the re-read tops equal the first reads, so try_rem always succeeds. The retry in pop therefore runs once.

## Findings

| source | as written | input that shows it | evidently intended | confidence | as-written member | corrected member |
|---|---|---|---|---|---|---|
| memory/memory_hp.h:227-236 (the same Stage 1 in memory/inc/memory_bl2.h:214-223, memory/memory_dang3.h:225-234, memory/inc/memory_dang4.h:363-372, memory/inc/memory_dang5.h:343-352) | the slot cursor's offset is set once, before the loop over ranks, and is incremented across ranks, so rank i is read from i·HPS_PER_UNIT slots past the start of its slot array | two ranks, one slot each; rank 1's slot holds an address that is also in list_ret: Stage 1 reads rank 1's cell one slot too far, the address is not in the protected list, and Stage 3 reclaims it | reset the cursor's offset to the slot array's start for every rank | not executed; high | Hazard.ScanAsWrittenMissesRank1 | Hazard.Scan |
| memory/inc/memory_dang4.h:196-205 | free sends every address, own-rank ones included, to the buffer of its rank, and puts a full own-rank buffer into pools[own][own]. That is the object malloc gets from for this rank, and put caches the head it publishes there, so get on it never sees the batch | one rank, one slot (HP_WINDOW 2): free two own elements; the buffer is put into pools[0][0], and every later get on it returns false, so both blocks are lost to malloc | keep own-rank frees local, as dang5 does with its own buffer; the model puts them back into ncontig | not executed; medium | MemoryDang4.Memory.FreeAsWritten | MemoryDang4.Memory.Free |
| stack/inc/stack_ts_stutter.h:372 | after the scan, try_rem passes `topAddr` to remove. That is the top read from the last rank scanned, not from the rank of the youngest element | rank 0 holds y0 stamped [5, 6] with value 10; rank 1 holds x1 then z1, stamped [1, 2], with values 20 and 30; startTime [7, 8]. The scan picks y0; remove's CAS on rank 0's top (expecting x1) fails, and its unlinking store makes x1 link to y0, so z1 and 30 drop out of rank 1's list | pass the top read together with the youngest element | not executed; high | StackTsStutter.TryRemAsWrittenLosesElement | StackTsStutter.Stack.TryRem |
| bclx/bclx/core/util/backoff.hpp:42-43, 56-57, 70-71 | the guards `2 * bk <= bk_max` and `1 + bk <= bk_max` are computed in uint64 and can wrap | bk_max ≥ 2^63 and bk = 2^63: 2·bk wraps to 0, which passes the guard, so bk becomes 0 and stays 0; bk = bk_max = 2^64 - 1: 1 + bk wraps to 0 and bk becomes 0 | grow bk only when the grown value fits under bk_max | not executed; low (needs bk_max of 2^63 or more) | Backoff.DoubledAsWrittenWraps, Backoff.IncrementedAsWrittenWraps | Backoff.Backoff.DelayDbl, Backoff.Backoff.DelayInc, Backoff.Backoff.DelayExp |
