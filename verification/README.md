# yacul: a verified model of its concurrency, memory and scheduling cores

This project models the parts of yacul whose correctness is hard to see from the code, and proves
what they promise. Every `.dfy` file is one module; `dafny verify dfyconfig.toml` checks all of them.

| file | models |
|---|---|
| `FreeList.dfy` | the lock-free free list of the concurrent queue, as atomic steps of any number of threads |
| `FreeListProgress.dfy` | what a call of add or try_get achieves, alone and in any run |
| `DequeueProtocol.dfy` | the optimistic-count / overcommit protocol of a producer's `dequeue` and `dequeue_bulk`, and `circular_less_than` |
| `DequeueProgress.dfy` | what consumers get that race for the same elements |
| `BlockKeys.dfy`, `BlockLog.dfy`, `BlockIndex.dfy` | the implicit producer's circular block index: 64-bit index arithmetic, the index as a value, and the index in memory |
| `RangeTable.dfy`, `LockRange.dfy` | the range reader/writer lock: the table operations as a class, then runs of critical sections |
| `LockRangeFate.dfy` | who gets what in a run of the range lock, told by guards and waiting writers |
| `LockId.dfy` | sharded per-id lock entries created and erased on demand |
| `Buffer.dfy`, `BufferCursor.dfy`, `BufferWriter.dfy` | reference-counted copy-on-write buffers on doubly linked rings, and the two cursors |
| `Arena.dfy` | the bump allocator with block growth, marks and rewinding |
| `TokenBucket.dfy`, `Qos.dfy` | the rate limiter over reals, and the priority scheduler's accounting |
| `ShellCommand.dfy` | `ShellEscape` / `BuildShellCommand` against a POSIX word reader |
| `Murmur.dfy` | `MurmurHash3_x86_32` and the chained hash of integer pairs |
| `MurmurKnownValue.dfy` | the value that the source's own test expects |
| `Counting.dfy`, `Masks.dfy`, `Options.dfy` | shared facts about finite sets, and about bit masks and remainders; the option datatype |

## How concurrency is modelled

`FreeList`, `DequeueProtocol`, `LockRange` and `LockId` are state machines. One action is one atomic
operation of the source (a load, a `fetch_add`, a compare-and-swap), or one critical section under the
source's mutex. `IsRun(tr, acts)` says that the states `tr` follow from an initial state by the actions
`acts`, of any threads in any order; the theorems hold at every state of every run. Memory is
sequentially consistent. The invariants relate the state to a ghost value (`Ghost` in `FreeList` and
`DequeueProtocol`) that the final theorems do not mention.

In `FreeList` a node has a place: owned by a client, on the list, or on its way with one thread. In
`DequeueProtocol` each `fetch_add` on the optimistic count is a ticket; the proof takes the last ticket
that passed its test and shows that every overcommit it counted belongs to a smaller ticket. A single
`dequeue` is a `dequeue_bulk` of at most one element. In `LockRange` a sleeping thread is a registered
waiter; a guard blocked in `UpgradeUntil` owns no entry. In `LockId` an erased entry's address may be
used again.

## Where code and documentation disagree

The model follows the code.

- `Buffer::SplitChainAfter` takes `prev_` as the left head, so for three or more nodes the left ring is
  exactly the predecessor and this node, and a ring of two is left as it is. The header promises the
  nodes from the head up to this one; `Buffers.SplitMatchesDocumentation` says when
  both rings are the promised ones, and `Buffers.SplitMovesHead` is a run.
- `Buffer::EnsureTailroom` keeps the old headroom but does not count it in the new capacity. With a large
  headroom the view moves to a store that is too small for the request, and with a larger one its own bytes
  are copied past the end (`Buffers.Buffer.RoomBounds` gives both bounds, `Buffers.CopyOverflows` and
  `Buffers.AppendOverflows` a run for each).
- The comment in `get_block_index_index_for_index` says the division preserves a negative offset.
  `BLOCK_SIZE` is a `size_t`, so the division is unsigned; the lookup is right all the same because the
  capacity divides 2^64 / `BLOCK_SIZE` (`BlockKeys.SlotIsExact`), and would not be otherwise
  (`BlockKeys.ExactNeedsDivisor`).
- `LockRange`: an exclusive wait that expires unregisters without notifying anybody, so a reader that was
  held up only by that writer sleeps on. `LockRange.LostWakeupRun` is such a run,
  `LockRange.NoLostWakeupExactly` says exactly which runs lose none.
- `LockRange::IsLockedAny` computes `offset + length` in 64 bits and gives wrong answers for ranges that
  overflow (`LockRange.LockedAnyExact`, with a run in `LockRange.LockedAnyWrongRun`).
- `LockId` says the number of shards must be a power of two but does not check it; no safety property
  needs it.
- `TokenBucket::TryConsume` is documented not to modify the bucket on failure; it keeps the refill
  (`TokenBucket.RefusalKeepsBucket`, `TokenBucket.RefusalChangesBucket`).
- `QOS::TryDequeue` is documented to return null if all queues are empty. Expired items use up the
  quantum, so null can come with items left (`Qos.NullMeansEmpty`, with a run in `Qos.NullWithItemLeft`), and an
  item of lower priority before one behind a quantum of expired items (`Qos.HighestFirst`, `Qos.LowerFirst`).
- `ShellEscape`'s first comment speaks of `'\''`; the code writes the apostrophe in double quotes.

## Model

| member | source | states |
|---|---|---|
| `FreeList.RunInv` | yacul/concurrency/os_lockless_queue.h:1300-1379 | every reachable state of any interleaving of add and try_get satisfies the inductive invariant on the list, the reference words and every thread's position |
| `FreeList.ListIsSound` | yacul/concurrency/os_lockless_queue.h:1300-1379 | the free list is acyclic, holds each node at most once, and only nodes no client owns with the should-be-on-list flag clear |
| `FreeList.CountIsExact` | yacul/concurrency/os_lockless_queue.h:1300-1379 | a node's reference count is the number of threads holding a reference plus one for the list or for the thread moving it |
| `FreeList.TakenFromNobody` | yacul/concurrency/os_lockless_queue.h:1314-1355 | a node try_get is about to return belongs to nobody, is off the list, and no other thread is about to return it |
| `FreeList.NeverTakenTwice` | yacul/concurrency/os_lockless_queue.h:1314-1355 | between two returns of the same node somebody added it back |
| `FreeList.QuiescentListIsComplete` | yacul/concurrency/os_lockless_queue.h:1300-1379 | when no thread is inside an operation the list holds exactly the added and untaken nodes: no deferred insertion is lost |
| `FreeList.AccessesInBounds` | yacul/concurrency/os_lockless_queue.h:1300-1379 | in every run no thread ever touches a node that does not exist: its next step is always possible |
| `FreeListProgress.SoloTryGet` | yacul/concurrency/os_lockless_queue.h:1314-1355 | from every reachable state, wherever other threads are suspended, an uninterrupted try_get on a list with head n takes n in seven steps: n is the caller's, the head its successor, and nothing else has changed |
| `FreeListProgress.SoloTryGetEmpty` | yacul/concurrency/os_lockless_queue.h:1314-1355 | and on an empty list it returns null and changes nothing |
| `FreeListProgress.SoloAdd` | yacul/concurrency/os_lockless_queue.h:1300-1379 | an uninterrupted add of a node that no suspended thread has a reference to makes it the head in five steps |
| `FreeListProgress.SoloAddDeferred` | yacul/concurrency/os_lockless_queue.h:1300-1312 | if some thread has a reference, add only sets the flag |
| `FreeListProgress.SoloFinishes` | yacul/concurrency/os_lockless_queue.h:1300-1379 | from any reachable state, wherever all threads are, one that runs alone finishes its call within 20 steps |
| `FreeListProgress.TryGetReturns` | yacul/concurrency/os_lockless_queue.h:1314-1355 | in every run, a try_get that returns hands over a node or the list was empty at some moment during the call |
| `FreeListProgress.AddReturns` | yacul/concurrency/os_lockless_queue.h:1300-1379 | in every run, an add that returns has just made its node the head or leaves it flagged to threads that hold references |
| `DequeueProtocol.RunInv` | yacul/concurrency/os_lockless_queue.h:1793-1890 | every reachable state of one enqueuer and any number of single and bulk dequeuers satisfies the ticket invariant |
| `DequeueProtocol.TakesFit` | yacul/concurrency/os_lockless_queue.h:1793-1890 | the elements promised to any prefix of the tickets fit below the published tail |
| `DequeueProtocol.HeadWithinTail` | yacul/concurrency/os_lockless_queue.h:1793-1890 | headIndex never passes tailIndex, dequeueOvercommit never exceeds dequeueOptimisticCount, and their difference never falls below headIndex |
| `DequeueProtocol.OvercommitWithinTicket` | yacul/concurrency/os_lockless_queue.h:2077-2169 | the assertion in both functions: the overcommit value read is at most the ticket obtained after it |
| `DequeueProtocol.HandedRangesArePublished` | yacul/concurrency/os_lockless_queue.h:2077-2169 | every index range handed to a consumer is published, and together they tile everything below headIndex |
| `DequeueProtocol.HandedRangesAreDisjoint` | yacul/concurrency/os_lockless_queue.h:2077-2169 | index ranges handed to consumers are pairwise disjoint and in order |
| `DequeueProtocol.QuiescentCountsAgree` | yacul/concurrency/os_lockless_queue.h:1793-1890 | with no consumer inside a dequeue, optimistic count less overcommit is headIndex |
| `DequeueProtocol.SoloDequeue` | yacul/concurrency/os_lockless_queue.h:2077-2169 | from any quiescent reachable state a consumer running alone gets min(max, size) elements |
| `DequeueProgress.SharedOut` | yacul/concurrency/os_lockless_queue.h:2077-2169 | any number of consumers that call on a queue at rest and read the counters before the first of them claims get, in whatever order their further steps interleave, the sum of their maxima or all there is |
| `DequeueProgress.RaceStep` | yacul/concurrency/os_lockless_queue.h:2077-2169 | each step of such a race keeps what is taken and what will be equal to the part of the claims that is there |
| `DequeueProtocol.CircularLess` | yacul/concurrency/os_lockless_queue.h:334-345 | circular_less_than on wrapped counters less than 2^63 apart is the order of the counters |
| `DequeueProtocol.CircularLessExactly` | yacul/concurrency/os_lockless_queue.h:334-345 | for all counters the answer is whether b is ahead of a by less than half a turn, so beyond 2^63 it is not the order of the counters |
| `DequeueProtocol.CountWraps` | yacul/concurrency/os_lockless_queue.h:2077-2100 | the wrapped element count of dequeue_bulk is positive exactly when the true count is, and then equal to it |
| `BlockKeys.BlockStartRounds` | yacul/concurrency/os_lockless_queue.h:2770 | index & ~(BLOCK_SIZE - 1) rounds a 64-bit index down to a multiple of the block size |
| `BlockKeys.ElementInBlock` | yacul/concurrency/os_lockless_queue.h:2770 | masking a wrapped element index gives the key of the element's block |
| `BlockKeys.KeyDifference` | yacul/concurrency/os_lockless_queue.h:2765-2781 | the wrapped difference of two block keys, divided unsigned, is the difference of the block numbers modulo the number of keys |
| `BlockKeys.SlotIsExact` | yacul/concurrency/os_lockless_queue.h:2765-2781 | the computed slot is exactly (m - t) entries from the anchor on the circle, before or after it, for all blocks m and t |
| `BlockKeys.AnyAnchor` | yacul/concurrency/os_lockless_queue.h:2765-2781 | a stale tail that still has its key gives the same slot |
| `BlockKeys.ExactNeedsDivisor` | yacul/concurrency/os_lockless_queue.h:2765-2781 | for power-of-two capacities the slot the code computes is right for all blocks and tails if and only if the capacity is at most 2^64 / BLOCK_SIZE |
| `BlockKeys.KeyIsValid` | yacul/concurrency/os_lockless_queue.h:2707-2708 | no block key is INVALID_BLOCK_BASE |
| `BlockKeys.KeysDiffer` | yacul/concurrency/os_lockless_queue.h:2765-2781 | blocks fewer than 2^64 / BLOCK_SIZE apart have different keys |
| `BlockLog.AdvanceAgrees` | yacul/concurrency/os_lockless_queue.h:2725-2738 | inserting into a free entry keeps the index in agreement with the plain map from block number to block |
| `BlockLog.GrowAgrees` | yacul/concurrency/os_lockless_queue.h:2783-2824 | growth keeps that agreement |
| `BlockLog.StoreAgrees` | yacul/concurrency/os_lockless_queue.h:2437-2440 | storing or releasing a block changes index and plain map alike |
| `BlockLog.SteadyState` | yacul/concurrency/os_lockless_queue.h:2725-2750 | while consumers release each block before the index comes round to it, the index never grows and asks for no memory |
| `BlockIndex.StaleTurns` | yacul/concurrency/os_lockless_queue.h:2725-2738 | keying an entry again gives it a block with the same remainder modulo every older capacity |
| `BlockIndex.StaleSlot` | yacul/concurrency/os_lockless_queue.h:2765-2781 | the slot computed on a header, anchored at any of its slots and whatever block that entry stands for by now, is the slot of the block looked up |
| `BlockIndex.KeptAdvance` | yacul/concurrency/os_lockless_queue.h:2725-2738 | an insertion keeps every keyed entry keyed and every keyed block on its entry, except the block it replaces |
| `BlockIndex.KeptEnlarge` | yacul/concurrency/os_lockless_queue.h:2783-2824 | so does growth, and the replaced header stays published |
| `BlockIndex.KeptOn` | yacul/concurrency/os_lockless_queue.h:2758-2781 | these guarantees, which the contract of every operation gives, carry over from one operation to the next |
| `BlockIndex.HeaderServes` | yacul/concurrency/os_lockless_queue.h:2765-2781 | the header a consumer loads has the entry of every keyed block |
| `BlockIndex.ServesOn` | yacul/concurrency/os_lockless_queue.h:2765-2781 | and goes on having it, the same entry, while the block is keyed, whatever happens to the index |
| `BlockIndex.AnchorsOn` | yacul/concurrency/os_lockless_queue.h:2765-2781 | a tail slot loaded from a published header keeps a keyed entry in every later state |
| `BlockIndex.ImplicitIndex.TailAnchors` | yacul/concurrency/os_lockless_queue.h:2765-2781 | the tail of any published header is a slot to look up from once a block has been inserted |
| `BlockIndex.ImplicitIndex.constructor` | yacul/concurrency/os_lockless_queue.h:2254-2260 | the first index is empty and valid, with its tail at the last slot |
| `BlockIndex.ImplicitIndex.Lookup` | yacul/concurrency/os_lockless_queue.h:2758-2781 | for an index of any keyed block, whatever the tail, the entry found is the one keyed by that block's base, with the block the plain map gives |
| `BlockIndex.ImplicitIndex.LookupFrom` | yacul/concurrency/os_lockless_queue.h:2765-2781 | with any header, present or replaced, that has the block, and any slot of it that is keyed as the tail, the entry found is the one of the block looked up |
| `BlockIndex.ImplicitIndex.LookupLater` | yacul/concurrency/os_lockless_queue.h:2765-2781 | header and tail loaded in one state, the key read in any later one: a block still in the map is found at the entry it had |
| `BlockIndex.ImplicitIndex.LookupAcross` | yacul/concurrency/os_lockless_queue.h:2473-2530 | a consumer that loads header and tail, is overtaken by a whole bulk insertion with its growths, undo and releases, and goes on, finds the entry and the block it would have found before |
| `BlockIndex.ImplicitIndex.InsertHere` | yacul/concurrency/os_lockless_queue.h:2727-2737 | succeeds exactly if the next entry holds no block; then keys it and moves the tail, and no other block is disturbed |
| `BlockIndex.ImplicitIndex.CopyFromTail` | yacul/concurrency/os_lockless_queue.h:2800-2808 | the copy loop reads the old index once round, oldest entry first |
| `BlockIndex.ImplicitIndex.NewBlockIndex` | yacul/concurrency/os_lockless_queue.h:2783-2824 | doubles the capacity, keeps every entry object and every block's place in the order, and makes room |
| `BlockIndex.ImplicitIndex.Insert` | yacul/concurrency/os_lockless_queue.h:2725-2750 | succeeds exactly if the next entry is free or an index of twice the size can be had; keys exactly block nb and changes nothing else in the map |
| `BlockIndex.ImplicitIndex.RewindTail` | yacul/concurrency/os_lockless_queue.h:2752-2756 | takes back the last insertion's tail, with the unsigned wrap at slot 0 |
| `BlockIndex.ImplicitIndex.StoreValue` | yacul/concurrency/os_lockless_queue.h:2437-2440 | setting or clearing one block's value changes the map at that block only |
| `BlockIndex.ImplicitIndex.ReleaseBlock` | yacul/concurrency/os_lockless_queue.h:2437-2440 | a consumer's release takes exactly the block of its element index out of the map |
| `BlockIndex.ImplicitIndex.AddBlock` | yacul/concurrency/os_lockless_queue.h:2332-2366 | enqueue at a block boundary adds exactly one block, or leaves map and tail as they were |
| `BlockIndex.ImplicitIndex.Undo` | yacul/concurrency/os_lockless_queue.h:2495-2501 | the undo loop, which looks entries up while it rewinds past them, removes exactly the n added blocks |
| `BlockIndex.ImplicitIndex.AddStep` | yacul/concurrency/os_lockless_queue.h:2475-2513 | one round succeeds exactly if it is not full, a block is had, and the next entry is free or an index of twice the size can be had |
| `BlockIndex.ImplicitIndex.AddBlocks` | yacul/concurrency/os_lockless_queue.h:2473-2530 | with consumers releasing older blocks between any two rounds, enqueue_bulk adds all its blocks if and only if every round had a block and a free entry or memory for twice the index size it met, that size and the map being told by where the loop began; otherwise it adds none, and only what was released up to the first failing round has changed |
| `RangeTable.InsertSorted` | yacul/concurrency/lock_range.cc:285-294 | insertion keeps the table ordered by (offset, id) |
| `RangeTable.InsertMembers` | yacul/concurrency/lock_range.cc:285-294 | insertion adds exactly one entry and keeps the others |
| `RangeTable.UnregisterKeepsGrant` | yacul/concurrency/lock_range.cc:305-349 | a waiter's own registration does not affect whether it can be granted |
| `RangeTable.RangeLock.HasConflict` | yacul/concurrency/lock_range.cc:233-256 | the early-exit scan equals an unrestricted search for a conflicting entry |
| `RangeTable.RangeLock.ExclusiveWaiterExists` | yacul/concurrency/lock_range.cc:260-268 | true exactly if some exclusive waiter overlaps |
| `RangeTable.RangeLock.CanGrant` | yacul/concurrency/lock_range.cc:272-281 | no conflict anywhere and, for a shared request, no overlapping exclusive waiter |
| `RangeTable.RangeLock.InsertEntry` | yacul/concurrency/lock_range.cc:285-294 | the new table is the old one with one entry of share count 1 in its ordered place |
| `RangeTable.RangeLock.DoRelease` | yacul/concurrency/lock_range.cc:353-378 | the early-exit scan removes the first matching entry of the whole table and notifies exactly if it removed one |
| `RangeTable.RangeLock.DropShared` | yacul/concurrency/lock_range.cc:77-112 | the same for the shared entry given up by an upgrade |
| `RangeTable.RangeLock.Enter` | yacul/concurrency/lock_range.cc:305-325 | acquired exactly if grantable; otherwise refused without waiting, or registered as a waiter |
| `RangeTable.RangeLock.Recheck` | yacul/concurrency/lock_range.cc:325-349 | after a wake-up: acquired exactly if grantable, else unregistered on expiry, else asleep with the table unchanged |
| `RangeTable.RangeLock.IsLockedAny` | yacul/concurrency/lock_range.cc:208-222 | the early-exit scan equals an unrestricted search, over the end computed in 64 bits |
| `LockRange.RunInv` | yacul/concurrency/lock_range.cc:35-142 | every reachable state satisfies the invariant on entries, waiters and guards |
| `LockRange.GuardsExclude` | yacul/concurrency/lock_range.cc:226-281 | in every reachable state two valid guards on overlapping ranges are both shared |
| `LockRange.EntriesMatchGuards` | yacul/concurrency/lock_range.cc:35-142 | the entries are the granted guards as multisets of (offset, end, mode), through lock, move, release and upgrade; overlapping entries are both shared; share_count is 1 |
| `LockRange.OwnEntryFound` | yacul/concurrency/lock_range.cc:77-142 | release and upgrade always find an entry: "Could not find own lock entry" is unreachable |
| `LockRange.ReadersOnlyLeave` | yacul/concurrency/lock_range.cc:260-281 | while an exclusive request stays registered the shared entries overlapping it only go away, over every run |
| `LockRange.NoLostWakeup` | yacul/concurrency/lock_range.cc:305-378 | if no exclusive wait has expired, every sleeping waiter whose request can be granted has been notified |
| `LockRange.NoLostWakeupExactly` | yacul/concurrency/lock_range.cc:305-378 | over any run, no wake-up is lost up to a state if and only if no earlier step is an expiring exclusive wait that alone holds some waiter up |
| `LockRange.ExpiryLosesWakeup` | yacul/concurrency/lock_range.cc:305-349 | an expiring exclusive wait keeps that property if and only if nobody is held up by that waiter alone |
| `LockRange.LostWakeupRun` | yacul/concurrency/lock_range.cc:305-349 | a run in which a reader that could be granted sleeps unnotified |
| `LockRange.LockedAnyExact` | yacul/concurrency/lock_range.cc:208-222 | the wrapped end gives the true answer on every table if and only if the range does not overflow or starts at the last offset |
| `LockRange.LockedAnyWrongRun` | yacul/concurrency/lock_range.cc:208-222 | a run after which the query for an overflowing range misses a held lock |
| `LockRangeFate.OverlapsExactly` | yacul/concurrency/lock_range.cc:226-256 | two ranges overlap if and only if some offset is in both |
| `LockRangeFate.GrantedExactly` | yacul/concurrency/lock_range.cc:226-281 | in every reachable state a request can be granted if and only if no valid guard that has an offset in common with it conflicts and, for a shared one, no writer waits for such a range |
| `LockRangeFate.AcquireFate` | yacul/concurrency/lock_range.cc:305-325 | a lock call is granted at once exactly then; otherwise it is refused without waiting or becomes the last waiter |
| `LockRangeFate.WakeFate` | yacul/concurrency/lock_range.cc:325-349 | a waiter that looks again is granted exactly then; otherwise it sleeps on, or its guard is empty if its wait has expired |
| `LockRangeFate.UpgradeFate` | yacul/concurrency/lock_range.cc:77-142 | an upgrade holds its range exclusively at once if and only if no other guard meets it; otherwise its thread is the last waiter, and every sleeper has been notified |
| `LockRangeFate.ReleaseFate` | yacul/concurrency/lock_range.cc:353-378 | a release empties its guard, notifies every sleeper and touches nothing else |
| `LockRangeFate.EmptiedOnlyBy` | yacul/concurrency/lock_range.cc:35-142 | a guard comes out empty only by release, by being moved from, or by a wait that expires with somebody in its way |
| `LockId.MaskIndexIsRemainder` | yacul/concurrency/lock_id.h:327-333 | the shard is the hash modulo the shard count for every hash if and only if the count is a power of two |
| `LockId.ShardIndex` | yacul/concurrency/lock_id.h:327-333 | in range for every positive shard count, power of two or not |
| `LockId.LockTable.AcquireEntry` | yacul/concurrency/lock_id.h:337-350 | finds or creates the id's entry and counts one more user |
| `LockId.LockTable.ReleaseEntry` | yacul/concurrency/lock_id.h:353-368 | counts one user less and erases the entry with the last |
| `LockId.LockTable.ActiveEntryCount` | yacul/concurrency/lock_id.h:571-580 | the sum of the shard sizes, each as it was when that shard was locked |
| `LockId.RunInv` | yacul/concurrency/lock_id.h:327-435 | every reachable state of any interleaving of lock, try-lock, unlock and release steps satisfies the invariant |
| `LockId.EntriesAreLive` | yacul/concurrency/lock_id.h:337-435 | no operation refers to an erased entry, its entry is the one mapped for its id, and ref_count is the number of its holders and waiters |
| `LockId.OneEntryPerId` | yacul/concurrency/lock_id.h:337-435 | two operations have the same entry exactly if they have the same id |
| `LockId.HoldersExclude` | yacul/concurrency/lock_id.h:371-435 | two holders of one id are both shared, across erasure and re-creation of the entry |
| `LockId.LockExactly` | yacul/concurrency/lock_id.h:371-435 | in every reachable state a waiting operation can have its lock if and only if no operation holds the same id in a mode that excludes it: shared holders coexist |
| `LockId.LifeOf` | yacul/concurrency/lock_id.h:337-435 | an operation waits for its own id and mode, gets its lock or gives up, and leaves the lock only by unlocking; no other operation changes it |
| `LockId.NoEntryLeaks` | yacul/concurrency/lock_id.h:353-368 | an id is mapped exactly while some operation uses it |
| `LockId.SeenCountIsActiveIds` | yacul/concurrency/lock_id.h:571-580 | with shards counted at any different moments of a run, the count is the number of ids that had a holder or waiter when their own shard was counted |
| `LockId.CountIsActiveIds` | yacul/concurrency/lock_id.h:571-580 | in a single state, the number of ids with a holder or waiter |
| `Buffers.Buffer.Copy` | yacul/memory/buffer.cc:56-63 | a copy is one more counted view with the same store, offset and bytes, alone on its ring; no other view changes |
| `Buffers.Buffer.Slice` | yacul/memory/buffer.cc:262-273 | a slice is one more counted view on the same store, at that offset, with exactly those bytes; no other view changes |
| `Buffers.Buffer.Release` | yacul/memory/buffer.cc:329-334 | one view less, counts exact for the rest; the store is freed if and only if no other view is on it |
| `Buffers.Buffer.CowDetach` | yacul/memory/buffer.cc:314-325 | afterwards this is the only view of its store and no view's bytes have changed; capacity and headroom are kept, and the store is a new one exactly if it was shared |
| `Buffers.Buffer.WriteAt` | yacul/memory/buffer.h:368-371 | a write through writable_data changes exactly this view's bytes and no other view's |
| `Buffers.Buffer.RoomBounds` | yacul/memory/buffer.cc:238-252 | the request fits if and only if no new store is needed or the headroom is at most (length + n) / 2 + 64; the copy itself overflows if and only if a new store is needed and the headroom exceeds that bound by more than n |
| `Buffers.Buffer.EnsureTailroom` | yacul/memory/buffer.cc:238-252 | which of the three happens, and that short of an overflow the view is on an unshared store at the same offset; no view's bytes change |
| `Buffers.Buffer.AppendData` | yacul/memory/buffer.h:397-401 | if the request fits exactly this view grows, by the given bytes; otherwise the memcpy would overflow and no view's bytes have changed yet |
| `Buffers.AppendToSlice` | yacul/memory/buffer.h:397-401 | appending n bytes to a slice at an offset of a full buffer fits, falls short or overflows by exact bounds on the offset |
| `Buffers.CopyOverflows` | yacul/memory/buffer.cc:238-252 | a run in which EnsureTailroom copies past the new store |
| `Buffers.AppendOverflows` | yacul/memory/buffer.h:397-401 | a run in which EnsureTailroom moves the view safely and AppendData then writes past the store |
| `Buffers.Buffer.AssignCopy` | yacul/memory/buffer.cc:65-77 | copy assignment leaves the old ring, releases the old store and becomes one more view on rhs's bytes; self-assignment changes nothing |
| `Buffers.Buffer.MoveFrom` | yacul/memory/buffer.cc:81-90 | the new node takes the old one's place on its ring and its view; the old one is empty and alone; no other view changes |
| `Buffers.Buffer.AssignMove` | yacul/memory/buffer.cc:92-106 | move assignment between rings: this leaves its ring and takes rhs's place and view; rhs is empty and alone |
| `Buffers.Buffer.AssignMoveWithin` | yacul/memory/buffer.cc:92-106 | the same when both nodes are on one ring |
| `Buffers.Buffer.StealRingPosition` | yacul/memory/buffer.cc:301-310 | the ring with one node replaced in place |
| `Buffers.Buffer.AppendChain` | yacul/memory/buffer.cc:110-122 | two disjoint rings become this ring followed by the other |
| `Buffers.Buffer.PrependChain` | yacul/memory/buffer.cc:124-135 | the same cycle, which seen from other has other's ring first |
| `Buffers.Buffer.Unlink` | yacul/memory/buffer.cc:137-146 | this node is alone and the rest is one ring in the old order, or null if there was no rest |
| `Buffers.Buffer.SplitChainAfter` | yacul/memory/buffer.cc:148-188 | for three or more nodes the rings are [prev, this] and the rest in order; a ring of two is unchanged; a ring of one gives null |
| `Buffers.SplitMatchesDocumentation` | yacul/memory/buffer.h:343-351 | on rings of two nodes or more, both rings are the documented ones if and only if there are at least three nodes and the head is this node's predecessor |
| `Buffers.SplitMovesHead` | yacul/memory/buffer.cc:148-188 | a ring of four, built by appending, whose split after the third node takes the head away from it |
| `Buffers.Rotate` | yacul/memory/buffer.cc:110-135 | a ring may be read from any of its nodes |
| `Buffers.Buffer.CountChainElements` | yacul/memory/buffer.h:321-326 | the loop ends after one turn with the number of nodes |
| `Buffers.AddView` | yacul/memory/buffer.h:173-182 | a retained store with one more view has an exact count again |
| `Buffers.DropView` | yacul/memory/buffer.h:173-182 | a released store with one view less has an exact count again |
| `BufferCursors.ChainDataLength` | yacul/memory/buffer.h:313-318 | the length of the concatenated bytes |
| `BufferCursors.ToVector` | yacul/memory/buffer.cc:211-220 | the concatenated bytes |
| `BufferCursors.CoalesceChain` | yacul/memory/buffer.cc:192-207 | a fresh buffer alone on its ring with the concatenated bytes |
| `BufferCursors.BufferCursor.TotalLength` | yacul/memory/buffer.cc:340-347 | the number of bytes from the cursor to the end of the chain |
| `BufferCursors.BufferCursor.Read` | yacul/memory/buffer.cc:355-371 | returns the next bytes of the concatenation, as many as there are, and moves past them, empty nodes included |
| `BufferCursors.BufferCursor.Skip` | yacul/memory/buffer.cc:373-383 | moves past the bytes Read would return |
| `BufferCursors.BufferCursor.Peek` | yacul/memory/buffer.cc:385-409 | returns what Read would, without moving |
| `BufferCursors.BufferCursor.Reset` | yacul/memory/buffer.cc:411-414 | back to the start of the chain |
| `BufferWriter.BeforeAfter` | yacul/memory/buffer.cc:444-459 | the bytes passed and the bytes to come make up the concatenated bytes at every position |
| `BufferWriter.PatchMoves` | yacul/memory/buffer.cc:444-459 | writing a piece into a node moves exactly that piece from the bytes to come to the bytes passed |
| `BufferWriter.WriteTurn` | yacul/memory/buffer.cc:444-459 | one turn of the loop changes the bytes of one node, even if nodes share a store, and of no other view |
| `BufferWriter.WriteLoop` | yacul/memory/buffer.cc:444-459 | the loop keeps every property of bytes, position and count that its turns keep, and stops at the end of the source or of the chain |
| `BufferWriter.Write` | yacul/memory/buffer.cc:444-459 | the next bytes of the chain become the source bytes as far as the chain goes; what was before, what comes after and every view off the chain are unchanged |
| `Arena.AlignUp` | yacul/memory/arena.h:73-76 | the least multiple of the alignment that is not smaller |
| `Arena.Block.TryAlloc` | yacul/memory/arena.h:111-122 | succeeds exactly if the aligned request fits the block's free tail, and then returns the first aligned address of it |
| `Arena.SpanInBlock` | yacul/memory/arena.cc:51-78 | every live allocation is aligned as asked and inside one block |
| `Arena.SpansDisjoint` | yacul/memory/arena.cc:51-78 | any two live allocations are disjoint |
| `Arena.LiveWithinReserved` | yacul/memory/arena.h:199-204 | live bytes never exceed the bytes reserved |
| `Arena.Arena.constructor` | yacul/memory/arena.cc:10-19 | one empty block of at least twice the block header |
| `Arena.Arena.AllocBytes` | yacul/memory/arena.cc:51-78 | adds exactly one allocation at the first aligned address, in the newest block if it fits and else in a fresh block, of exactly the capacity computed, that always satisfies it; keeps every mark valid |
| `Arena.Arena.Reset` | yacul/memory/arena.cc:82-87 | one empty block of the initial size, totals cleared |
| `Arena.Arena.FreeAllBlocks` | yacul/memory/arena.cc:142-148 | every block of the list is freed exactly once |
| `Arena.Arena.Mark` | yacul/memory/arena.h:194 | records the present block list |
| `Arena.Arena.Rewind` | yacul/memory/arena.cc:197-202 | whatever was allocated since, blocks, used offsets and live allocations are exactly those at Mark time; a spent mark does nothing |
| `Arena.Arena.RewindTo` | yacul/memory/arena.cc:152-159 | frees exactly the blocks newer than the mark's, each once, and restores the mark's block list |
| `Arena.Arena.ReservedBytes` | yacul/memory/arena.h:199-211 | the sum of the capacities and the number of blocks |
| `Arena.Arena.SetGrowthFactor` | yacul/memory/arena.h:213-215 | at least 1 |
| `TokenBucket.Limiter.RefillLocked` | yacul/qos/token_bucket.cc:28-43 | the bucket as if filled continuously until the reading; the cap on the elapsed time changes nothing; earlier readings are ignored |
| `TokenBucket.Limiter.TryConsume` | yacul/qos/token_bucket.cc:47-59 | grants exactly if the refilled bucket holds the amount, or nothing is asked |
| `TokenBucket.Limiter.Refill` | yacul/qos/token_bucket.cc:63-69 | credit up to the capacity |
| `TokenBucket.Limiter.Reset` | yacul/qos/token_bucket.cc:73-77 | full, as of the reading |
| `TokenBucket.Limiter.CurrentTokens` | yacul/qos/token_bucket.cc:81-85 | the refilled level |
| `TokenBucket.RefusalKeepsBucket` | yacul/qos/token_bucket.cc:47-59 | a refused request leaves the bucket as it was if and only if no time has passed since the last refill |
| `TokenBucket.RefusalChangesBucket` | yacul/qos/token_bucket.cc:47-59 | a refused request after which the bucket holds more tokens than before |
| `TokenBucket.RateBound` | yacul/qos/token_bucket.cc:28-69 | over any Reset-free run and any clock readings tokens stay in [0, capacity] and consumption is at most initial tokens + rate times clock advance + credit |
| `TokenBucket.LevelExactly` | yacul/qos/token_bucket.cc:28-69 | after any call, what was taken and what is left are exactly what was there, earned and given, cut at the capacity |
| `TokenBucket.RateExactly` | yacul/qos/token_bucket.cc:28-69 | over any run in which the bucket does not run over, consumption and what is left are exactly initial tokens + rate times time + credit |
| `TokenBucket.RefillOnce` | yacul/qos/token_bucket.cc:28-43 | refilling at two readings, in either order, is refilling once at the later |
| `TokenBucket.LookIsInvisible` | yacul/qos/token_bucket.cc:47-85 | looking at the tokens changes no later outcome |
| `TokenBucket.FullAfterIdle` | yacul/qos/token_bucket.cc:28-59 | after capacity / rate idle seconds an amount is granted if and only if it is at most the capacity |
| `Qos.LedgerBalances` | yacul/qos/qos.cc:177-309 | per priority: enqueued = dequeued + evicted + depth and dequeued = expired + delivered |
| `Qos.PopKeepsBalance` | yacul/qos/qos.cc:284-305 | an item that leaves, whatever its fate, keeps counters, order and history in agreement |
| `Qos.ExpiredExactly` | yacul/qos/qos.cc:284-305 | an item is expired if it says so, its deadline has passed, or the whole time to live has, to the nanosecond; the cut to milliseconds does not matter |
| `Qos.StaysExpired` | yacul/qos/qos.cc:284-305 | an expired item stays expired |
| `Qos.OutcomeWithin` | yacul/qos/qos.cc:183-207 | with a drop policy no request makes a queue longer than the limit |
| `Qos.OutcomeWithinTotal` | yacul/qos/qos.cc:208-214 | no request, whatever becomes of it, makes the queues together longer than the total limit |
| `Qos.TurnedAwayExactly` | yacul/qos/qos.cc:183-214 | a request is turned away for want of room if and only if its queue is at its limit under the drop policy or the total is at its limit after an eviction; it waits if and only if its queue is at its limit under the blocking policy |
| `Qos.OutcomeQueues` | yacul/qos/qos.cc:183-252 | the oldest item makes room if it has to, even for a request that is then turned away, the new one comes last, other queues stay |
| `Qos.GrantsExactly` | yacul/qos/qos.cc:217-232 | a limiter grants a cost if and only if the cost is taken out of its bucket |
| `Qos.NullExactly` | yacul/qos/qos.cc:274-309 | a dequeue returns null if and only if no quota window has an unexpired item |
| `Qos.OutcomeIsUnique` | yacul/qos/qos.cc:274-309 | the dequeue specification determines level, item and all queues |
| `Qos.NullMeansEmpty` | yacul/qos/qos.h:126-128 | "null means all queues are empty" holds whatever has expired if and only if every queue fits its quantum |
| `Qos.NullWithItemLeft` | yacul/qos/qos.cc:274-309 | a scheduler reached by two enqueues whose dequeue returns null and leaves an item |
| `Qos.ServingDelivers` | yacul/qos/qos.cc:274-309 | the level that delivers is the highest with an unexpired item in its window |
| `Qos.HighestFirst` | yacul/qos/qos.h:126-128 | "the highest-priority non-expired item" comes out, whatever has expired, if and only if every queue fits its quantum or has only queues below it from which nothing is ever taken |
| `Qos.LowerFirst` | yacul/qos/qos.cc:274-309 | a scheduler reached by three enqueues whose dequeue passes over an unexpired item of higher priority |
| `Qos.OutcomeNumbered` | yacul/qos/qos.cc:234-239 | every request, accepted or not, keeps the numbers of queued items different and below the next one |
| `Qos.DequeueNumbered` | yacul/qos/qos.cc:274-309 | and so does a dequeue |
| `Qos.DequeueWithin` | yacul/qos/qos.cc:274-309 | a dequeue keeps every queue within the limit |
| `Qos.DequeueWithinTotal` | yacul/qos/qos.cc:274-309 | a dequeue keeps the queues together within the total limit |
| `Qos.Scheduler.MakeRoom` | yacul/qos/qos.cc:183-214 | the capacity checks, with the oldest item evicted under the drop-oldest policy even if the new one is turned away |
| `Qos.Scheduler.CheckLimits` | yacul/qos/qos.cc:217-232 | both limiters must grant; the global one is charged even if the level's refuses |
| `Qos.Scheduler.Enqueue` | yacul/qos/qos.cc:177-252 | exactly when a request waits, is accepted or is rejected, and all queues, counters, totals and limiters afterwards; an accepted cost was taken from both limiters; history only grows, the ledger stays balanced, each queue and all together stay within their limits |
| `Qos.Scheduler.TakeFrom` | yacul/qos/qos.cc:279-306 | up to a quantum of one level: the first unexpired item is delivered and only expired ones before it are discarded, or the whole window was expired and is gone |
| `Qos.Scheduler.Dequeue` | yacul/qos/qos.cc:274-309 | the delivered item is the first unexpired one in the window of the highest level that has one; lower levels are untouched; no unexpired item is discarded |
| `Qos.Scheduler.DequeueBulk` | yacul/qos/qos.cc:260-270 | each item returned is the dequeue outcome of the state that call met, in order, and it stops early only on a null |
| `ShellCommand.ShellEscape` | yacul/system/popen_wrapper.cc:166-185 | the token in single quotes with each apostrophe replaced |
| `ShellCommand.ScanInner` | yacul/system/popen_wrapper.cc:166-185 | read inside single quotes, the escaped text and closing quote add exactly the token to the word |
| `ShellCommand.RoundTrip` | yacul/system/popen_wrapper.cc:189-197 | for every argument vector, reading the command by POSIX quoting rules gives back exactly that vector |
| `ShellCommand.BuildShellCommand` | yacul/system/popen_wrapper.cc:189-197 | the loop's result tokenizes to exactly the argument vector |
| `Murmur.MurmurHash3` | yacul/hashing/os_murmur_hash3.cc:94-146 | the code computes the hash built from the steps `Murmur3()` over blocks, tail and length, and these steps are invertible |
| `Murmur.ReadTail` | yacul/hashing/os_murmur_hash3.cc:128-136 | the fall-through switch assembles the tail bytes as one little-endian word |
| `Murmur.TailAsBlock` | yacul/hashing/os_murmur_hash3.cc:128-136 | the word of a tail is the block that zero bytes make of it |
| `Murmur.MurmurTailLikeBlock` | yacul/hashing/os_murmur_hash3.cc:110-136 | the tail goes through exactly what a block filled up with zero bytes goes through, but for the last rotation and sum |
| `Murmur.MurmurCountsZeros` | yacul/hashing/os_murmur_hash3.cc:128-143 | a key followed by zero bytes that do not fill its last block never has the hash of the key: the length counts |
| `MurmurKnownValue.KnownValue` | yacul/hashing/tests/os_murmur_hash3_test.cc:5-13 | the hash of "Hello world!" with seed 31 is the value that the test expects, which depends on every constant |
| `Murmur.FinishInverse` | yacul/hashing/os_murmur_hash3.cc:68-77 | fmix32 has an inverse |
| `Murmur.ScrambleInverse` | yacul/hashing/os_murmur_hash3.cc:114-116 | the block mixing has an inverse |
| `Murmur.StirInverse` | yacul/hashing/os_murmur_hash3.cc:119-120 | the rotation and h * 5 + 0xe6546b64 have an inverse |
| `Murmur.Murmur3Invertible` | yacul/hashing/os_murmur_hash3.cc:68-146 | all steps of MurmurHash3_x86_32 are bijections, which is the hypothesis of the rows below |
| `Murmur.RoundInjective` | yacul/hashing/os_murmur_hash3.cc:110-121 | one round is injective in the hash and in the block |
| `Murmur.OneBlockBetween` | yacul/hashing/os_murmur_hash3.cc:110-121 | from any hash exactly one block leads to any other in one round |
| `Murmur.SeedsTellApart` | yacul/hashing/os_murmur_hash3.cc:94-146 | for every key, two seeds give the same hash if and only if they are equal |
| `Murmur.BlockTellsApart` | yacul/hashing/os_murmur_hash3.cc:94-146 | keys that differ at most in one 4-byte block have the same hash if and only if they are equal |
| `Murmur.TailTellsApart` | yacul/hashing/os_murmur_hash3.cc:94-146 | keys that differ at most in the tail have the same hash if and only if they are equal |
| `Murmur.SpotTellsApart` | yacul/hashing/os_murmur_hash3.cc:94-146 | keys that differ at most in one block or at most in the tail have the same hash if and only if they are equal |
| `Murmur.OneCollision` | yacul/hashing/os_murmur_hash3.cc:94-146 | whatever precedes it, exactly one 4-byte block makes a key collide with a given one that agrees after it |
| `Murmur.PairTellsApart` | yacul/hashing/hash.h:122-136 | changing one component of a pair of integers of any width, in one block or only in the tail, always changes the chained hash |
| `Murmur.ShortIsOneSpot` | yacul/hashing/hash.h:122-136 | every change of an integer of at most 32 bits is of that kind |
| `Murmur.MurmurTellsApart` | yacul/hashing/os_murmur_hash3.cc:94-146 | for MurmurHash3_x86_32 itself: injective in the seed, and in one block or the tail of the key |
| `Murmur.MurmurTellsPairs` | yacul/hashing/hash.h:122-136 | for MurmurHash3_x86_32 itself: changing one component of a pair in one spot always changes the chained hash |
| `Murmur.MurmurHalvesCollide` | yacul/hashing/hash.h:122-136 | for MurmurHash3_x86_32 itself: when both halves of a 64-bit component change, then for every other first half exactly one second half leaves the chained hash as it was |
| `Murmur.RotlIsShiftOr` | yacul/hashing/os_murmur_hash3.cc:34-37 | the rotations are (x << r) or (x >> (32 - r)) in 32 bits |

## Left out

- C++ weak memory orderings, throwing constructors and element storage in the queue: steps are sequentially consistent and elements never throw.
- The queue's explicit block index, implicit-producer hash table, tokens, swap and move.
- BlockIndex.ImplicitIndex.NewBlockIndex: a capacity above 2^64 / `BLOCK_SIZE` is never granted by malloc, and the first allocation succeeds.
- LockRange: calls that `ValidateRange` aborts, the destructor's check and the never-used exclude key are not actions; deadlines appear only as the step "the wait has expired".
- LockId: timed try-locks are waits that may give up at any step; the hash and equality of ids are an arbitrary function to numbers.
- Buffer: external memory, `CopyFrom`, `Reserve`, `Clone`, trimming, the in-place view extensions and `DestroyChain`, which would add only easy members.
- BufferWriter.Write: the cursor's `current_` and `offset_` are passed in and out instead of being fields of an object.
- BufferRWCursor's `Skip`, `TotalLength` and `Reset` repeat the read cursor's.
- Arena: move construction and assignment, the typed allocation templates, `total_wasted_` (always 0) and address overflow; marks are used last in, first out, and `Reset` is called with none outstanding.
- TokenBucket: doubles are reals; the spinlock makes each call one step.
- Qos: each call is one step; concurrent check-then-act races on the depth counters are not modelled, and a woken caller that was waiting for room is a new call; items are values, so one item object queued twice at once, which would share its metadata, is not modelled.
- QOS observers, consumer threads, pause and stop, latency, `IsUnderBackPressure` and `ResetStats`: the ledger speaks of the time between two resets.
- PopenWrapper apart from the two string functions; arguments containing NUL, which a C string cannot carry.
- ShellCommand: the reader returns no result for text with unquoted operators, expansions, comments, assignments or reserved words, which the printer never writes.
- Murmur: big-endian machines, the 128-bit variants, strings and tuples in `hash.h`.
- ThreadPool, Spinlock, ScopedExec, SystemInfo, MonitorProcess, Logger, the transformation adapters, BloomFilter and Snippet.
