# lib-util object pools, modelled in Dafny

This project models the object pools and singleton holders of the C++ utility library
lib-util, and proves properties of the model.

- `ArenaPool` (`arena_pool.dfy`) is the size-bucketed pool `util::memory_pool_c` of
  `src/util_memory_pool.h` and `src/util_memory_pool.hpp`. The arena is a range of byte
  offsets. A bump cursor hands out new slots, with sizes rounded to the pointer width
  (8 bytes). Freed slots go into a multiset of (size, offset) entries, which plays the
  role of the `unordered_multimap`. Both `alloc` and `_free` compare group names. The pool
  keeps a live-allocation counter and byte counters. `Pool` is a class whose methods
  update these fields in place. Each method is proved against a relation on a pure
  `PoolState`: `AllocStep` for `alloc` and `Released` for `_free`. Lemmas about these
  relations show that no two slots ever overlap over any sequence of calls
  (`RunKeepsInv`). They also show that the counter tracks granted allocations minus
  accepted releases (`CounterTracksRun`).
- `LegacyArenaPool` (`legacy_arena_pool.dfy`) is the older revision of the same pool in
  the root `util_memory_pool.hpp`. It uses different bump arithmetic and has no capacity
  test. Its group test comes after the bookkeeping and reads the group name stored in the
  slot's memory, which is empty where nothing has been constructed yet. Its `uint32_t`
  counter wraps.
- `Singleton` (`singleton.dfy`) models `dynamic_singletonHolder_c` and
  `static_singletonHolder_c` of `src/util_singleton.h`. The dynamic holder is a class
  proved against the pure `Holder` state and its functions `Acquired` and `Returned`.
- `TypedPool` (`typed_pool.dfy`) is the earlier design of `memory_pool_t.h` and
  `memory_pool_t.cpp`. It keeps a FIFO queue of nodes per class type, counts creations in
  a 16-bit counter per type, and keeps a queue of integral cells. Each node has an 8-bit
  intrusive reference count.
- `Alignment` (`alignment.dfy`) holds the pointer-width arithmetic that both pool
  revisions share. `Wrappers` (`wrappers.dfy`) holds `Option`, which models a null pointer
  as `None`.

The classes model the code as written. The corrected definitions under "## Findings" are
separate members, so the classes keep the source's behaviour.

Three facts about the current revision's code that the model keeps as written:
- A release never lowers the used-byte counter, and `alloc` tests capacity before it
  looks at the free list. So once the budget is spent, a retry after a release is refused
  even though a slot of the right size is free (`ArenaPool.FullPageRefusesReuse`).
- For a size that is not a multiple of 8, the bump path advances the cursor by the size
  plus the size rounded up to 8 (`ArenaPool.BumpAdvance`). A multiple of 8 advances by
  the size itself.
- The free list is keyed by `sizeof(U)` as is, not by the rounded size.

## Model

| member | source | states |
|---|---|---|
| Alignment.AdjustSize | src/util_memory_pool.hpp:70-77 | `adjust_size` is 0 for a multiple of the pointer width; otherwise it is the next multiple of 8 strictly above the size, at most 7 bytes above it |
| Alignment.Padding | src/util_memory_pool.hpp:76 | the bytes added to the adjustment counter are below 8, bring the size to a multiple of 8, and are 0 exactly for aligned sizes |
| Alignment.RoundUp | src/util_memory_pool.h:66 | the size rounded up to the pointer width: a multiple of 8, at least the size, less than the size plus 8, and the size itself when already aligned |
| ArenaPool.BumpAdvance | src/util_memory_pool.hpp:72-81 | the bump stride is at least the size and keeps the size's remainder mod 8; it equals the size for an aligned size and the size plus its rounded-up value otherwise |
| ArenaPool.Released | src/util_memory_pool.hpp:13-32 | `_free` changes nothing exactly when the occupant's group is foreign; otherwise the entry joins the free list, no entry is lost, free entries plus the live counter are conserved, and no other field changes |
| ArenaPool.BumpKeepsInv | src/util_memory_pool.hpp:66-81 | a bump slot taken within the budget overlaps no live, free or leaked slot, lies below the new cursor, and keeps the counter equal to the number of outstanding slots |
| ArenaPool.ReuseKeepsInv | src/util_memory_pool.hpp:83-87 | reusing a free entry moves exactly that slot from the free list to the live slots and keeps the invariant |
| ArenaPool.AllocKeepsInv | src/util_memory_pool.hpp:41-90 | every outcome of `alloc` keeps the invariant (cursor equals used bytes, slots inside the arena and pairwise disjoint, counter equals the outstanding slots), and a granted slot becomes live |
| ArenaPool.ReleaseKeepsInv | src/util_memory_pool.hpp:13-32 | releasing a live slot keeps the invariant: the slot becomes free, or it leaks (not recycled, not uncounted) when the group is foreign |
| ArenaPool.Pool.constructor | src/util_memory_pool.h:77-84 | a new pool has its cursor at the base, every counter at 0 and an empty free list |
| ArenaPool.Pool.Alloc | src/util_memory_pool.hpp:36-96 | `alloc` refuses with no state change on a group mismatch, a null arena or `curByte + size > availMax`, all tested before the free list; otherwise it bumps when no entry of the size is free, else removes one such entry and returns it; each success adds 1 to the counter |
| ArenaPool.Pool.Release | src/util_memory_pool.hpp:9-33 | the new state is `Released` of the old one: a foreign group changes nothing; a matching group inserts (size, offset) and decrements the counter with no floor |
| ArenaPool.Pool.GetAllocCnt | src/util_memory_pool.h:47 | the `int32_t` counter read back as `uint32_t`: itself when non-negative, itself plus 2^32 when negative |
| ArenaPool.Pool.GetAdjustByte | src/util_memory_pool.h:50 | returns the adjustment counter |
| ArenaPool.Pool.GetAvailMaxByte | src/util_memory_pool.h:51 | returns the usable budget |
| ArenaPool.Pool.GetCurByte | src/util_memory_pool.h:52 | returns the used-byte counter |
| ArenaPool.Pool.GetPoolSize | gtest/memory_pool_gtest.cpp:168-169 | returns the number of free-list entries, counting entries of one size separately |
| ArenaPool.CounterTracksRun | src/util_memory_pool.hpp:28-89 | over any sequence of calls the group is constant and the counter ends at its start value plus granted allocations minus releases of the pool's group |
| ArenaPool.RunKeepsInv | src/util_memory_pool.hpp:9-96 | over any sequence of calls that releases only live slots, the invariant holds at every state, so no two outstanding or free slots ever share a byte |
| ArenaPool.FullPageRefusesReuse | src/util_memory_pool.hpp:56-60 | in a 4096-byte pool of 64-byte objects the 64 allocations land at 0, 64, ..., 4032 and the 65th is refused; after any one release a retry is still refused and the freed entry stays unused |
| ArenaPool.AllocThenReleaseAll | gtest/memory_pool_gtest.cpp:160-169 | `n` allocations at consecutive 64-byte slots, then `n` releases, leave the counter at 0 and `n` free entries |
| ArenaPool.MisalignedBumpScenario | src/util_memory_pool.hpp:72-81 | two 12-byte allocations land at 0 and 28, so the second slot is not pointer-aligned; 56 bytes are used and 8 counted as adjustment |
| ArenaPool.ForeignGroupScenario | gtest/memory_pool_gtest.cpp:289-295 | an allocation under another group is refused and one under the pool's group is granted; releasing a foreign occupant neither recycles the slot nor decrements the counter |
| ArenaPool.IntendedAllocKeepsInv | src/util_memory_pool.hpp:56-87 | with the free list consulted before the capacity test, the invariant still holds; a caller of the right group is refused only when no entry of the size is free and the budget is spent; a free entry is always reused without consuming budget |
| LegacyArenaPool.BumpAdvance | util_memory_pool.hpp:55-66 | the older bump stride is 0 for an aligned size and the rounded-up size otherwise |
| LegacyArenaPool.ResidentAt | util_memory_pool.hpp:77 | a non-empty name is read at a slot only where an object of that name was constructed, so while only empty names have been stored every slot, constructed on or still zero-filled, reads as the empty name |
| LegacyArenaPool.Pool.constructor | util_memory_pool.cpp:20-36 | a new pool has its cursor at the base, every counter at 0, an empty free list and no object constructed anywhere in the arena |
| LegacyArenaPool.Pool.Alloc | util_memory_pool.hpp:39-87 | a free entry of the size is removed and used, else the cursor slot is taken and the cursor advances by `adjust_size` only; the counter always gains 1 mod 2^32; then the slot is returned, and the caller's group recorded there, exactly when the name already stored at the slot equals the caller's group; since that name is always empty, exactly the calls with the empty group are granted |
| LegacyArenaPool.Pool.Release | util_memory_pool.hpp:9-37 | nothing changes for a non-`base_node_c` object or a foreign group; otherwise (size, offset) joins the free list and the `uint32_t` counter decrements, wrapping below 0 |
| LegacyArenaPool.FreshSlotsRefused | util_memory_pool.hpp:74-81 | in a pool of group "USER" two 64-byte allocations and one 12-byte allocation all return null, because fresh memory holds the empty name; the counter still reaches 3 and the cursor 16 |
| LegacyArenaPool.NamedGroupNeverServed | util_memory_pool.hpp:39-81 | for any non-empty group and any sequence of sizes, every allocation from a pool of that group returns null while the counter counts every call mod 2^32 |
| LegacyArenaPool.AlignedBumpsCollide | util_memory_pool.hpp:52-66 | with the empty group name, the only one fresh slots accept, two 64-byte allocations in a row both return offset 0 while the counter says two objects are live |
| LegacyArenaPool.ReleaseWrapsCounter | util_memory_pool.hpp:29-36 | a release with the `uint32_t` counter at 0 wraps it to 2^32 - 1 |
| LegacyArenaPool.IntendedAllocGrants | util_memory_pool.hpp:39-81 | with the group compared to the pool's before any bookkeeping, exactly the callers of the pool's group are granted, a refused call changes nothing, and a fresh slot ends at or before the new, still aligned cursor |
| LegacyArenaPool.IntendedBumpsAreDisjoint | util_memory_pool.hpp:55-66 | successive bumps by the rounded-up size hand out slots that lie between the base and the final cursor and never overlap one another |
| LegacyArenaPool.IntendedBumpsStayAligned | util_memory_pool.hpp:55-66 | from a pointer-aligned base, every slot that successive rounded-up bumps hand out, and the final cursor, are pointer-aligned |
| Singleton.Acquired | src/util_singleton.h:79-84 | after `get_instance` an object is held and the use count is one higher |
| Singleton.Returned | src/util_singleton.h:91-104 | releasing the held object removes one use and keeps the holder well-formed (held exactly while uses remain); with nothing held nothing changes |
| Singleton.AcquiredN | src/util_singleton.h:75-85 | `k` calls of `get_instance` add `k` uses, an object is held once `k > 0`, and the holder stays well-formed |
| Singleton.ReturnedN | src/util_singleton.h:87-105 | `k` matching releases with at least `k` uses leave `useCnt - k` uses, with the object held exactly while uses remain |
| Singleton.BalancedUseReleases | src/util_singleton.h:75-105 | `k` acquisitions then `j <= k` releases leave `useCnt + k - j` uses; from an empty holder the object is still held exactly when `j < k`; `k` then `k` restores the holder |
| Singleton.DynamicSingletonHolder.constructor | src/util_singleton.h:71-73 | the statics start with no object and a use count of 0 |
| Singleton.DynamicSingletonHolder.GetInstance | src/util_singleton.h:76-85 | `get_instance` returns the held object, or a new one when none was held, and adds one use |
| Singleton.DynamicSingletonHolder.Release | src/util_singleton.h:88-105 | `release` returns true exactly for the non-null held pointer and then removes one use, dropping the object at 0; otherwise it returns false and changes nothing |
| Singleton.DynamicSingletonHolder.IsReleased | src/util_singleton.h:57-62 | `is_released` is true exactly when no object is held, which is exactly when the use count is 0 |
| Singleton.BalancedUseScenario | src/util_singleton.h:75-105 | `k` calls return one object, `release(nullptr)` is refused, and after `j` accepted releases the holder is released exactly when `j == k` |
| Singleton.StaticSingletonHolder.constructor | src/util_singleton.h:31-36 | before the first call no object exists |
| Singleton.StaticSingletonHolder.GetInstance | src/util_singleton.h:31-36 | the first call creates the object and every later call returns that same object |
| Singleton.StaticInstanceIsStable | src/util_singleton.h:31-36 | two calls of the static `get_instance` return the same object |
| TypedPool.Node.constructor | memory_pool_t.h:57 | a new node has its class type and a reference count of 1 |
| TypedPool.Node.Retain | memory_pool_t.cpp:5-8 | `retain` adds one to the 8-bit count, wrapping at 256 |
| TypedPool.Node.Release | memory_pool_t.cpp:10-15 | `release` subtracts one from the 8-bit count, wrapping below 0; the node goes to the back of its type's queue exactly when the count reaches 0, and nothing else in the pool changes |
| TypedPool.FirstUseKeepsCounts | memory_pool_t.h:177-185 | registering a new class type above `STANDARD_TYPE` with an empty queue and a count of 1 keeps every count equal to its type's creations mod 2^16 |
| TypedPool.CreationKeepsCounts | memory_pool_t.h:187-194 | adding 1 to a type's 16-bit count for one more creation keeps every count equal to its type's creations mod 2^16 |
| TypedPool.RequeueKeepsCounts | memory_pool_t.h:195-216 | popping from or pushing onto a registered type's queue leaves the registered types and their counts matched |
| TypedPool.Pool.constructor | memory_pool_t.h:104-109 | the pool starts with empty queues and maps and both counts at 0 |
| TypedPool.Pool.Init | memory_pool_t.cpp:29-33 | `init` sets the maximum count and changes nothing else |
| TypedPool.Pool.Alloc | memory_pool_t.h:162-205 | null, with no state change, for a type at or below `STANDARD_TYPE`; a type's first use creates its empty queue, sets its count to 1 and returns a fresh node; an empty queue gives a fresh node and adds 1 to the 16-bit count; otherwise the front node is removed and returned |
| TypedPool.Pool.Free | memory_pool_t.cpp:35-41 | `_free` appends the node to the back of its type's existing queue and changes nothing else; each count still equals the type's creations mod 2^16 |
| TypedPool.Pool.AllocBasic | memory_pool_t.h:125-140 | `alloc_basic` pops the front cell when the queue is non-empty and otherwise returns a new cell |
| TypedPool.Pool.FreeBasic | memory_pool_t.h:112-123 | `free_basic` appends the cell to the back of the queue |
| TypedPool.FifoReuse | memory_pool_t.h:177-216 | `n` nodes allocated, freed in order and allocated again come back as the same nodes in the same order; the type's count is `n` mod 2^16 and the queue is left empty |
| TypedPool.RefCountScenario | memory_pool_t.cpp:10-15 | a retained node survives one release and returns to its queue on the second; taken out again it keeps the count 0, so its next release wraps to 255 and does not requeue it |
| TypedPool.BasicCellsAreFifo | memory_pool_t.h:112-140 | two distinct cells freed in order are handed out again in that order |

## Left out

- Arena reservation and teardown (`mmap`, `mprotect`, `sysconf`, the guard page, the
  constructors' page arithmetic and the destructors) are OS calls. In `ArenaPool` an
  arena is modelled by the flag `arenaOk` and the budget `availMax` given to the
  constructor.
- Placement new, the explicit destructor call and the `shared_ptr` custom deleter are
  left out. An occupant is reduced to its group name and `sizeof(U)`, and the deleter's
  call of `_free` is an explicit `Release`. A handle released twice is excluded by
  `ArenaPool.RunKeepsInv`'s requirement that only live slots are released.
- `ArenaPool.RunKeepsInv`: a released slot's offset is taken to be the one `alloc`
  handed out. `_free` stores the `base_node_c*` it casts the object to, which is that
  slot only when `base_node_c` sits at offset 0 of `U`. For a type with another base
  before it, the stored address lies inside the slot, and every object later placed
  there runs past the slot's end. Both revisions do this, and the model does not
  capture it.
- Which free entry `unordered_multimap::find` returns is unspecified. `ArenaPool.AllocStep`
  allows any entry of the size.
- The `std::mutex` locks, the unlocked capacity read and the `std::atomic` reference
  count are left out because they concern concurrency. The model is sequential.
- `ArenaPool.Pool.GetPoolSize`: its definition is not part of this model. It takes the
  meaning the tests give it, the number of free entries.
- `ArenaPool.Pool.Alloc`: the byte counters are unbounded. The `uint64_t` fields cannot
  wrap within an arena's size.
- `ArenaPool.Pool.GetAllocCnt`: it requires the counter to lie in the `int32_t` range.
  Overflow of that counter after 2^31 live allocations is not modelled.
- `LegacyArenaPool.Pool.Release`: after the destructor has run, reading the old
  occupant's `_grp_name` is undefined behaviour in C++. The model takes the slot's bytes
  to keep that name, so a later `alloc` reads it.
- `LegacyArenaPool.Pool.Alloc`: the model passes group names by value. In the root
  revision the constructor and `base_node_c` move from the caller's `std::string&`, so
  after building a pool from `g` or constructing an object with `g`, the caller's `g` is
  empty. An `alloc(g)` that follows passes the empty name. Fresh slots accept it, and
  the named pool then refuses the object's release as foreign.
- `LegacyArenaPool.Pool.constructor`: the root revision's constructor leaves the member
  `_base_ptr` unset because a local shadows it. Only the cursor offset is modelled, so
  this is not captured. Nor is the extent of the arena, the single page that the
  constructor maps and records in `_mpool_max_byte`, a field nothing reads. The model's
  cursor has no upper bound. A slot that reaches past the page size is an ordinary slot
  in the model, while `alloc` reads its group name and constructs its object outside
  the mapping. This holds for `LegacyArenaPool.Pool.Alloc` and equally for the
  corrected stride of `LegacyArenaPool.IntendedAllocStep` and `LegacyArenaPool.BumpSlots`.
- `Singleton.DynamicSingletonHolder.GetInstance`: the `uint32_t` use count is unbounded,
  so wrap-around after 2^32 outstanding calls is not modelled.
- `TypedPool.Pool.Alloc`: the class type of a fresh node is taken to be the requested
  one. In the source it is whatever `U`'s default constructor passes to `base_node_t`.
  The `dynamic_cast` to `U*` is taken to succeed.
- `TypedPool.Pool.AllocBasic`: the choice of the union member that the returned pointer
  addresses is type punning. Only the queue of cells is modelled.
- The destructor of `memory_pool_t` has an empty body. The unused `_mpool_total_cnt` is
  kept as a field that nothing changes.
- The thread pool, epoll wrapper and logger of the library are not part of this model.

## Findings

| source | as written | input that shows it | evidently intended | confidence | as-written member | corrected member |
|---|---|---|---|---|---|---|
| src/util_memory_pool.hpp:56-60 | the capacity test `_mpool_avail_max_byte < _mpool_cur_byte + obj_size` runs before the free-list lookup, and `_free` never lowers `_mpool_cur_byte` | a 4096-byte pool filled with 64 objects of 64 bytes, one of them released, then `alloc` of 64 bytes: refused although a 64-byte slot is free | a free slot of the size is reused whatever the used-byte counter says; the capacity test guards only the bump path | not executed; high | ArenaPool.FullPageRefusesReuse | ArenaPool.IntendedAllocKeepsInv |
| util_memory_pool.hpp:77-81 | the group test compares the caller's group with `base_node->_grp_name` read from the slot before any object is constructed there, after the slot has been taken and counted | a pool of group "USER" on fresh, zero-filled memory; `alloc` of a 64-byte type with group "USER" returns null, the counter rises to 1, and every later allocation of any size is refused the same way | compare the caller's group with the pool's `_grp_name` before taking a slot, as the current revision does | not executed; high | LegacyArenaPool.NamedGroupNeverServed | LegacyArenaPool.IntendedAllocGrants |
| util_memory_pool.hpp:65-66 | the bump path advances the cursor and the used-byte counter by `adjust_size` alone, which is 0 for a size that is a multiple of the pointer width | every pooled type derives from `base_node_c`, so its size is a multiple of 8; in a pool of the empty group, two allocations of 64 bytes both return offset 0 while both objects are live | advance by the size rounded up to the pointer width, so consecutive slots are disjoint and stay aligned | not executed; high | LegacyArenaPool.AlignedBumpsCollide | LegacyArenaPool.IntendedBumpsAreDisjoint |
