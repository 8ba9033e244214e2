/** The size-bucketed object pool `util::memory_pool_c` of `src/util_memory_pool.h` and
    `src/util_memory_pool.hpp`.

    The arena is modelled as byte offsets from its base: a slot is the offset where an
    object is placed, `cursor` is `_last_ptr - _base_ptr`, and `arenaOk` stands for
    `_last_ptr != nullptr`. An occupant is reduced to what the pool looks at: its group name
    and `sizeof(U)`. Releasing a handle is an explicit call of `Release`. */
module ArenaPool {
  import opened Wrappers
  import opened Alignment

  /** One entry of the `_mpool` multimap (the byte size it is keyed by and the slot's
      offset). A slot that a handle owns is described the same way. */
  datatype Entry = Entry(size: nat, offset: nat)

  /** The fields of `memory_pool_c` that `alloc` and `_free` read or write. */
  datatype PoolState = PoolState(
    group: string,          // _grp_name
    arenaOk: bool,          // _last_ptr != nullptr
    cursor: nat,            // _last_ptr - _base_ptr
    curByte: nat,           // _mpool_cur_byte
    adjustByte: nat,        // _mpool_adjust_byte
    availMax: nat,          // _mpool_avail_max_byte
    allocCnt: int,          // _mpool_alloc_cnt
    free: multiset<Entry>)  // _mpool

  /** The bytes the bump path moves the cursor and the used-byte counter by, as written:
      the size plus `adjust_size`. An aligned size advances by itself; any other size
      advances by itself plus its rounded-up value, so the next slot keeps its misalignment. */
  function BumpAdvance(size: nat): (n: nat)
    ensures size <= n
    ensures n % PointerWidth == size % PointerWidth
    ensures size % PointerWidth == 0 ==> n == size
    ensures size % PointerWidth != 0 ==> n == size + RoundUp(size)
  {
    size + AdjustSize(size)
  }

  /** `_mpool.find(size) != _mpool.end()`. */
  predicate HasFree(free: multiset<Entry>, size: nat) {
    exists e :: e in free && e.size == size
  }

  /** A refused call: `nullptr`, and nothing changes. */
  ghost predicate Refused(s: PoolState, t: PoolState, slot: Option<nat>) {
    t == s && slot == None
  }

  /** The bump path: the slot at the cursor; cursor and used bytes advance by
      `BumpAdvance(size)`, the adjustment counter grows by the padding, one more live
      allocation, the free list is untouched. */
  ghost predicate Bumped(s: PoolState, size: nat, t: PoolState, slot: Option<nat>) {
    slot == Some(s.cursor) &&
    t == s.(cursor := s.cursor + BumpAdvance(size), curByte := s.curByte + BumpAdvance(size),
            adjustByte := s.adjustByte + Padding(size), allocCnt := s.allocCnt + 1)
  }

  /** The reuse path: some free entry of this size (the multimap does not say which) leaves
      the free list and is returned; one more live allocation; nothing else changes. */
  ghost predicate Reused(s: PoolState, size: nat, t: PoolState, slot: Option<nat>) {
    slot.Some? && Entry(size, slot.value) in s.free &&
    t == s.(free := s.free - multiset{Entry(size, slot.value)}, allocCnt := s.allocCnt + 1)
  }

  /** The capacity test of `alloc`: it compares the unrounded size against what is left. */
  predicate OverBudget(s: PoolState, size: nat) {
    s.availMax < s.curByte + size
  }

  /** One call of `alloc<U>(grp, ...)` with `sizeof(U) == size`, from `s` to `t`, returning
      `slot`. The group, the arena and the capacity are checked in that order, all before
      the free list is consulted. */
  ghost predicate AllocStep(s: PoolState, grp: string, size: nat, t: PoolState, slot: Option<nat>) {
    if grp != s.group || !s.arenaOk || OverBudget(s, size) then Refused(s, t, slot)
    else if !HasFree(s.free, size) then Bumped(s, size, t, slot)
    else Reused(s, size, t, slot)
  }

  /** `_free<U>(obj)` for an occupant of group `occupant`, with `sizeof(U) == size`, at
      `offset`. A foreign group changes nothing; otherwise the slot joins the free list
      and the live counter drops by one, with no guard against going below zero. */
  function Released(s: PoolState, occupant: string, size: nat, offset: nat): (t: PoolState)
    ensures t == s <==> occupant != s.group
    ensures |t.free| + t.allocCnt == |s.free| + s.allocCnt
    ensures s.free <= t.free
    ensures t.(free := s.free, allocCnt := s.allocCnt) == s
    ensures occupant == s.group ==> Entry(size, offset) in t.free
  {
    if occupant != s.group then s
    else s.(free := s.free + multiset{Entry(size, offset)}, allocCnt := s.allocCnt - 1)
  }

  /** Two slots share at least one byte. */
  predicate Overlap(a: Entry, b: Entry) {
    a.offset < b.offset + b.size && b.offset < a.offset + a.size
  }

  /** No slot is listed twice and no two listed slots share a byte. */
  ghost predicate Disjoint(m: multiset<Entry>) {
    && (forall e :: e in m ==> m[e] == 1)
    && (forall a, b :: a in m && b in m && a != b ==> !Overlap(a, b))
  }

  /** Every slot is non-empty, lies in the part of the arena the cursor has passed, and ends
      within the usable budget. */
  ghost predicate InArena(s: PoolState, m: multiset<Entry>) {
    forall e :: e in m ==> 0 < e.size && e.offset + e.size <= s.cursor && e.offset + e.size <= s.availMax
  }

  /** The pool's invariant, given the slots that handles own (`live`) and the slots whose
      release was refused for a group mismatch (`leaked`): the cursor offset equals the
      used-byte counter; live, free and leaked slots lie inside the arena below the cursor
      and never overlap; the live-allocation counter counts the live and the leaked slots
      (so it is never negative). */
  ghost predicate Inv(s: PoolState, live: multiset<Entry>, leaked: multiset<Entry>) {
    var slots := live + s.free + leaked;
    && s.cursor == s.curByte
    && InArena(s, slots)
    && Disjoint(slots)
    && s.allocCnt == |live| + |leaked|
  }

  /** The bump path hands out a slot that overlaps no slot already handed out or free. */
  lemma BumpKeepsInv(s: PoolState, live: multiset<Entry>, leaked: multiset<Entry>, size: nat, t: PoolState, slot: Option<nat>)
    requires Inv(s, live, leaked) && 0 < size && !OverBudget(s, size)
    requires Bumped(s, size, t, slot)
    ensures Inv(t, live + multiset{Entry(size, slot.value)}, leaked)
  {
    var e := Entry(size, slot.value);
    var before := live + s.free + leaked;
    assert live + multiset{e} + t.free + leaked == before + multiset{e};
    assert e !in before;
    forall a | a in before
      ensures !Overlap(a, e)
    {
    }
  }

  /** The reuse path moves one slot from the free list to the live slots. */
  lemma ReuseKeepsInv(s: PoolState, live: multiset<Entry>, leaked: multiset<Entry>, size: nat, t: PoolState, slot: Option<nat>)
    requires Inv(s, live, leaked)
    requires Reused(s, size, t, slot)
    ensures Inv(t, live + multiset{Entry(size, slot.value)}, leaked)
  {
    var e := Entry(size, slot.value);
    assert live + multiset{e} + t.free + leaked == live + s.free + leaked;
  }

  /** `alloc` keeps the invariant; a granted slot becomes live. */
  lemma AllocKeepsInv(s: PoolState, live: multiset<Entry>, leaked: multiset<Entry>, grp: string, size: nat, t: PoolState, slot: Option<nat>)
    requires Inv(s, live, leaked) && 0 < size
    requires AllocStep(s, grp, size, t, slot)
    ensures Inv(t, if slot.Some? then live + multiset{Entry(size, slot.value)} else live, leaked)
  {
    if grp != s.group || !s.arenaOk || OverBudget(s, size) {
    } else if !HasFree(s.free, size) {
      BumpKeepsInv(s, live, leaked, size, t, slot);
    } else {
      ReuseKeepsInv(s, live, leaked, size, t, slot);
    }
  }

  /** Releasing a live slot keeps the invariant: it moves to the free list, or, when the
      occupant's group is foreign, it is dropped without being recycled and without the
      counter being decremented. */
  lemma ReleaseKeepsInv(s: PoolState, live: multiset<Entry>, leaked: multiset<Entry>, occupant: string, size: nat, offset: nat)
    requires Inv(s, live, leaked) && Entry(size, offset) in live
    ensures Inv(Released(s, occupant, size, offset), live - multiset{Entry(size, offset)},
                if occupant == s.group then leaked else leaked + multiset{Entry(size, offset)})
  {
    var e := Entry(size, offset);
    var t := Released(s, occupant, size, offset);
    assert live == (live - multiset{e}) + multiset{e};
    if occupant == s.group {
      assert (live - multiset{e}) + t.free + leaked == live + s.free + leaked;
    } else {
      assert (live - multiset{e}) + t.free + (leaked + multiset{e}) == live + s.free + leaked;
    }
  }

  /** `util::memory_pool_c`. */
  class Pool {
    var group: string
    var arenaOk: bool
    var cursor: nat
    var curByte: nat
    var adjustByte: nat
    var availMax: nat
    var allocCnt: int
    var free: multiset<Entry>

    function State(): PoolState
      reads this
    {
      PoolState(group, arenaOk, cursor, curByte, adjustByte, availMax, allocCnt, free)
    }

    /** The cursor offset and the used-byte counter advance together. The pool's real
        invariant is `Inv` on `State()`, which `RunKeepsInv` carries over any run. */
    ghost predicate Valid()
      reads this
    {
      cursor == curByte
    }

    /** A pool bound to `group`. Reserving the arena is outside the model: `arenaOk` says
        whether it succeeded and `availMax` is the usable budget it yields. Every other
        field starts at its declared initial value: cursor at the base, counters at zero,
        free list empty. */
    constructor (group: string, arenaOk: bool, availMax: nat)
      ensures Valid()
      ensures State() == PoolState(group, arenaOk, 0, 0, 0, availMax, 0, multiset{})
    {
      this.group := group;
      this.arenaOk := arenaOk;
      this.availMax := availMax;
      cursor, curByte, adjustByte, allocCnt := 0, 0, 0, 0;
      free := multiset{};
    }

    /** `alloc<U>(grp, args...)` with `sizeof(U) == size`: the slot it places the new
        object in, or `None` for `nullptr`. */
    method Alloc(grp: string, size: nat) returns (slot: Option<nat>)
      requires Valid()
      modifies this
      ensures Valid()
      ensures AllocStep(old(State()), grp, size, State(), slot)
    {
      if grp != group {
        return None;
      }
      if !arenaOk {
        return None;
      }
      if availMax < curByte + size {
        return None;
      }
      ghost var s := State();
      if e :| e in free && e.size == size {
        slot := Some(e.offset);
        free := free - multiset{e};
        allocCnt := allocCnt + 1;
        assert e == Entry(size, slot.value);
        assert Reused(s, size, State(), slot);
      } else {
        assert !HasFree(free, size);
        slot := Some(cursor);
        var adjust := 0;
        if size % PointerWidth != 0 {
          var quotient := size / PointerWidth;
          adjust := (quotient + 1) * PointerWidth;
          adjustByte := adjustByte + (adjust - size);
        }
        assert adjust == AdjustSize(size) && adjustByte == s.adjustByte + Padding(size);
        cursor := cursor + size + adjust;
        curByte := curByte + size + adjust;
        allocCnt := allocCnt + 1;
        assert Bumped(s, size, State(), slot);
      }
    }

    /** `_free<U>(obj)`, run by the deleter of a handle that `Alloc` returned, for an
        occupant of group `occupant` and size `size` at `offset`. */
    method Release(occupant: string, size: nat, offset: nat)
      modifies this
      ensures State() == Released(old(State()), occupant, size, offset)
    {
      if occupant != group {
        return;
      }
      free := free + multiset{Entry(size, offset)};
      allocCnt := allocCnt - 1;
    }

    /** `get_alloc_cnt()`: the `int32_t` counter returned as a `uint32_t`, that is,
        reinterpreted modulo 2^32. */
    method GetAllocCnt() returns (n: nat)
      requires -0x8000_0000 <= allocCnt < 0x8000_0000
      ensures n < 0x1_0000_0000
      ensures allocCnt >= 0 ==> n == allocCnt
      ensures allocCnt < 0 ==> n == allocCnt + 0x1_0000_0000
    {
      n := allocCnt % 0x1_0000_0000;
    }

    /** `get_adjust_byte()`: reads the adjustment counter and changes nothing. */
    method GetAdjustByte() returns (n: nat)
      ensures n == adjustByte
    {
      n := adjustByte;
    }

    /** `get_avail_max_byte()`: reads the usable budget and changes nothing. */
    method GetAvailMaxByte() returns (n: nat)
      ensures n == availMax
    {
      n := availMax;
    }

    /** `get_cur_byte()`: reads the used-byte counter and changes nothing. */
    method GetCurByte() returns (n: nat)
      ensures n == curByte
    {
      n := curByte;
    }

    /** `get_pool_size()`: the number of free-list entries, several of one size counting
        separately. */
    method GetPoolSize() returns (n: nat)
      ensures n == |free|
    {
      n := |free|;
    }
  }

  /** One operation on a pool, for reasoning about sequences of calls. */
  datatype Op = AllocOp(group: string, size: nat) | ReleaseOp(occupant: string, size: nat, offset: nat)

  /** One operation taking `s` to `t` with output `out` (`None` for a release). */
  ghost predicate Step(s: PoolState, op: Op, t: PoolState, out: Option<nat>) {
    match op
    case AllocOp(g, n) => AllocStep(s, g, n, t, out)
    case ReleaseOp(g, n, off) => t == Released(s, g, n, off) && out == None
  }

  /** `states[i]` is taken to `states[i + 1]` by `ops[i]`, which outputs `outs[i]`. */
  ghost predicate Run(states: seq<PoolState>, ops: seq<Op>, outs: seq<Option<nat>>) {
    && |states| == |ops| + 1
    && |outs| == |ops|
    && forall i :: 0 <= i < |ops| ==> Step(states[i], ops[i], states[i + 1], outs[i])
  }

  /** The number of granted allocations among the outputs. */
  function Granted(outs: seq<Option<nat>>): nat {
    if outs == [] then 0
    else Granted(outs[..|outs| - 1]) + (if outs[|outs| - 1].Some? then 1 else 0)
  }

  /** The number of releases of an occupant of group `g`. */
  function Recycled(ops: seq<Op>, g: string): nat {
    if ops == [] then 0
    else Recycled(ops[..|ops| - 1], g) + (if ops[|ops| - 1].ReleaseOp? && ops[|ops| - 1].occupant == g then 1 else 0)
  }

  /** Over any sequence of calls, the group stays the same and the live-allocation counter
      moves by exactly the granted allocations minus the accepted releases: N successful
      allocations and M accepted releases leave it at its start value plus N - M. */
  lemma {:induction false} CounterTracksRun(states: seq<PoolState>, ops: seq<Op>, outs: seq<Option<nat>>)
    requires Run(states, ops, outs)
    ensures states[|ops|].group == states[0].group
    ensures states[|ops|].allocCnt == states[0].allocCnt + Granted(outs) - Recycled(ops, states[0].group)
  {
    if ops != [] {
      var n := |ops| - 1;
      CounterTracksRun(states[..n + 1], ops[..n], outs[..n]);
      assert Step(states[n], ops[n], states[n + 1], outs[n]);
    }
  }

  /** Over any sequence of calls that starts from the invariant and releases only live
      slots, the invariant holds at every state: no two slots ever overlap. */
  lemma {:induction false} RunKeepsInv(states: seq<PoolState>, ops: seq<Op>, outs: seq<Option<nat>>,
                                       lives: seq<multiset<Entry>>, leaks: seq<multiset<Entry>>)
    requires Run(states, ops, outs) && |lives| == |leaks| == |states|
    requires Inv(states[0], lives[0], leaks[0])
    requires forall i :: 0 <= i < |ops| && ops[i].AllocOp? ==> 0 < ops[i].size
    requires forall i :: 0 <= i < |ops| && ops[i].AllocOp? ==>
      lives[i + 1] == (if outs[i].Some? then lives[i] + multiset{Entry(ops[i].size, outs[i].value)} else lives[i]) &&
      leaks[i + 1] == leaks[i]
    requires forall i :: 0 <= i < |ops| && ops[i].ReleaseOp? ==>
      && Entry(ops[i].size, ops[i].offset) in lives[i]
      && lives[i + 1] == lives[i] - multiset{Entry(ops[i].size, ops[i].offset)}
      && leaks[i + 1] == if ops[i].occupant == states[i].group then leaks[i]
                         else leaks[i] + multiset{Entry(ops[i].size, ops[i].offset)}
    ensures forall i :: 0 <= i < |states| ==> Inv(states[i], lives[i], leaks[i])
  {
    if ops != [] {
      var n := |ops| - 1;
      RunKeepsInv(states[..n + 1], ops[..n], outs[..n], lives[..n + 1], leaks[..n + 1]);
      assert Inv(states[n], lives[n], leaks[n]);
      assert Step(states[n], ops[n], states[n + 1], outs[n]);
      match ops[n]
      case AllocOp(g, size) =>
        AllocKeepsInv(states[n], lives[n], leaks[n], g, size, states[n + 1], outs[n]);
      case ReleaseOp(g, size, off) =>
        assert Entry(size, off) in lives[n];
        ReleaseKeepsInv(states[n], lives[n], leaks[n], g, size, off);
    }
  }

  /** A one-page pool (4096 usable bytes) of 64-byte objects: 64 allocations succeed at
      offsets 0, 64, ..., 4032 and the 65th is refused. After the `k`-th object is
      released, a retry is still refused and the freed slot stays in the free list,
      because the capacity test precedes the free-list lookup and a release does not lower
      the used-byte counter. */
  method FullPageRefusesReuse(k: nat) returns (slots: seq<Option<nat>>, extra: Option<nat>, retry: Option<nat>, freeAfter: multiset<Entry>)
    requires k < 64
    ensures |slots| == 64 && forall j :: 0 <= j < 64 ==> slots[j] == Some(64 * j)
    ensures extra == None
    ensures retry == None
    ensures freeAfter == multiset{Entry(64, 64 * k)}
  {
    var pool := new Pool("USER", true, 4096);
    slots := [];
    while |slots| < 64
      invariant |slots| <= 64
      invariant forall j :: 0 <= j < |slots| ==> slots[j] == Some(64 * j)
      invariant pool.Valid()
      invariant pool.State() == PoolState("USER", true, 64 * |slots|, 64 * |slots|, 0, 4096, |slots|, multiset{})
    {
      assert !HasFree(pool.free, 64);
      var slot := pool.Alloc("USER", 64);
      assert slot == Some(64 * |slots|);
      slots := slots + [slot];
    }
    extra := pool.Alloc("USER", 64);
    pool.Release("USER", 64, 64 * k);
    retry := pool.Alloc("USER", 64);
    freeAfter := pool.free;
  }

  /** `n` objects of 64 bytes allocated from a fresh pool with room for exactly them, then
      all released: the live count is back to 0 and the free list holds `n` entries, one
      per slot. */
  method AllocThenReleaseAll(n: nat) returns (slots: seq<nat>, count: int, poolSize: nat)
    ensures |slots| == n && forall j :: 0 <= j < n ==> slots[j] == 64 * j
    ensures count == 0 && poolSize == n
  {
    var pool := new Pool("USER", true, 64 * n);
    slots := [];
    while |slots| < n
      invariant |slots| <= n
      invariant forall j :: 0 <= j < |slots| ==> slots[j] == 64 * j
      invariant pool.Valid()
      invariant pool.State() == PoolState("USER", true, 64 * |slots|, 64 * |slots|, 0, 64 * n, |slots|, multiset{})
    {
      assert !HasFree(pool.free, 64);
      var slot := pool.Alloc("USER", 64);
      slots := slots + [slot.value];
    }
    var released := 0;
    while released < n
      invariant released <= n
      invariant pool.group == "USER"
      invariant pool.allocCnt == n - released && |pool.free| == released
    {
      pool.Release("USER", 64, slots[released]);
      released := released + 1;
    }
    count := pool.allocCnt;
    poolSize := pool.GetPoolSize();
  }

  /** A size that is not a multiple of the pointer width (12 bytes) advances the cursor by
      12 + 16 = 28: the second slot sits at offset 28, which is not pointer-aligned, and
      the adjustment counter records only the 4 padding bytes of each. */
  method MisalignedBumpScenario() returns (first: Option<nat>, second: Option<nat>, used: nat, adjusted: nat)
    ensures first == Some(0) && second == Some(28)
    ensures second.value % PointerWidth != 0
    ensures used == 56 && adjusted == 8
  {
    var pool := new Pool("ROOM", true, 4096);
    first := pool.Alloc("ROOM", 12);
    second := pool.Alloc("ROOM", 12);
    used := pool.GetCurByte();
    adjusted := pool.GetAdjustByte();
  }

  /** A call whose group differs from the pool's is refused even with room to spare, and
      a release of a foreign occupant neither recycles its slot nor decrements the count. */
  method ForeignGroupScenario() returns (refused: Option<nat>, granted: Option<nat>, countAfter: nat, poolSize: nat)
    ensures refused == None && granted == Some(0)
    ensures countAfter == 1 && poolSize == 0
  {
    var pool := new Pool("USER", true, 4096);
    refused := pool.Alloc("ROOM", 64);
    granted := pool.Alloc("USER", 64);
    pool.Release("ROOM", 64, 0);
    countAfter := pool.GetAllocCnt();
    poolSize := pool.GetPoolSize();
  }

  /** The corrected allocation: the free list is consulted first and the capacity test
      guards only the bump path, so a slot that is free is always reusable. */
  ghost predicate IntendedAllocStep(s: PoolState, grp: string, size: nat, t: PoolState, slot: Option<nat>) {
    if grp != s.group || !s.arenaOk then Refused(s, t, slot)
    else if HasFree(s.free, size) then Reused(s, size, t, slot)
    else if OverBudget(s, size) then Refused(s, t, slot)
    else Bumped(s, size, t, slot)
  }

  /** The corrected allocation keeps the pool's invariant, and it refuses a caller of the
      right group only when no free slot of the size exists and the budget is spent. */
  lemma IntendedAllocKeepsInv(s: PoolState, live: multiset<Entry>, leaked: multiset<Entry>, grp: string, size: nat, t: PoolState, slot: Option<nat>)
    requires Inv(s, live, leaked) && 0 < size
    requires IntendedAllocStep(s, grp, size, t, slot)
    ensures Inv(t, if slot.Some? then live + multiset{Entry(size, slot.value)} else live, leaked)
    ensures slot.None? && grp == s.group && s.arenaOk ==> !HasFree(s.free, size) && OverBudget(s, size)
    ensures HasFree(s.free, size) && grp == s.group && s.arenaOk ==> slot.Some? && t.curByte == s.curByte
  {
    if grp != s.group || !s.arenaOk {
    } else if HasFree(s.free, size) {
      ReuseKeepsInv(s, live, leaked, size, t, slot);
    } else if OverBudget(s, size) {
    } else {
      BumpKeepsInv(s, live, leaked, size, t, slot);
    }
  }
}
