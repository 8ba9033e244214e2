/** The superseded revision of `util::memory_pool_c` in the root `util_memory_pool.hpp`,
    kept apart from the current one in `ArenaPool`. It differs in three ways: the bump
    path advances by `adjust_size` alone, there is no arena or capacity test, and the
    group test comes after the slot has been taken and counted, and compares the caller's
    group with the group name found in the slot's memory rather than with the pool's.
    Its live-allocation counter is a `uint32_t` and wraps. */
module LegacyArenaPool {
  import opened Wrappers
  import opened Alignment
  import ArenaPool

  /** The range of the `uint32_t` counter `_mpool_alloc_cnt`. */
  const Uint32Modulus: nat := 0x1_0000_0000

  /** The bytes this revision moves the cursor and the used-byte counter by on the bump
      path: `adjust_size` alone. An aligned size does not move the cursor at all. */
  function BumpAdvance(size: nat): (n: nat)
    ensures size % PointerWidth == 0 ==> n == 0
    ensures size % PointerWidth != 0 ==> n == RoundUp(size)
  {
    AdjustSize(size)
  }

  /** Every object ever constructed in the arena carries the empty group name. */
  ghost predicate OnlyEmptyNames(residents: map<nat, string>) {
    forall offset :: offset in residents ==> residents[offset] == ""
  }

  /** The group name that `base_node->_grp_name` reads at `offset`: the name of the last
      object constructed there, or the empty name of the zero-filled anonymous mapping
      where no object has been constructed yet. While only empty names have been
      stored, every slot reads as empty, and a name can be read only where it was
      stored. */
  function ResidentAt(residents: map<nat, string>, offset: nat): (name: string)
    ensures OnlyEmptyNames(residents) ==> name == ""
    ensures name != "" ==> offset in residents && residents[offset] == name
  {
    if offset in residents then residents[offset] else ""
  }

  /** `util::memory_pool_c`, root revision. `residents` records, per offset, the group
      name of the object last constructed there. */
  class Pool {
    var group: string
    var cursor: nat
    var curByte: nat
    var adjustByte: nat
    var allocCnt: nat
    var free: multiset<ArenaPool.Entry>
    var residents: map<nat, string>

    ghost predicate Valid()
      reads this
    {
      allocCnt < Uint32Modulus && cursor == curByte && OnlyEmptyNames(residents)
    }

    /** A pool bound to `group`, with the cursor at the arena base, every counter at zero
        and no object constructed in the freshly mapped, zero-filled arena. */
    constructor (group: string)
      ensures Valid()
      ensures this.group == group && cursor == 0 && curByte == 0 && adjustByte == 0
      ensures allocCnt == 0 && free == multiset{} && residents == map[]
    {
      this.group := group;
      cursor, curByte, adjustByte, allocCnt := 0, 0, 0, 0;
      free := multiset{};
      residents := map[];
    }

    /** `alloc<U>(grp, args...)` with `sizeof(U) == size`. `taken` is the slot that was
        consumed, whether or not it is returned: the group test reads the name stored in
        that slot before the new object is constructed there. */
    method Alloc(grp: string, size: nat) returns (slot: Option<nat>, taken: nat)
      requires Valid()
      modifies this
      ensures Valid() && group == old(group)
      ensures ArenaPool.HasFree(old(free), size) ==>
        && ArenaPool.Entry(size, taken) in old(free)
        && free == old(free) - multiset{ArenaPool.Entry(size, taken)}
        && cursor == old(cursor) && curByte == old(curByte) && adjustByte == old(adjustByte)
      ensures !ArenaPool.HasFree(old(free), size) ==>
        && taken == old(cursor) && free == old(free)
        && cursor == old(cursor) + BumpAdvance(size)
        && curByte == old(curByte) + BumpAdvance(size)
        && adjustByte == old(adjustByte) + Padding(size)
      ensures allocCnt == (old(allocCnt) + 1) % Uint32Modulus
      ensures slot == if ResidentAt(old(residents), taken) == grp then Some(taken) else None
      ensures residents == if slot.Some? then old(residents)[taken := grp] else old(residents)
      ensures slot.Some? <==> grp == ""
    {
      if e :| e in free && e.size == size {
        taken := e.offset;
        free := free - multiset{e};
        assert e == ArenaPool.Entry(size, taken);
      } else {
        taken := cursor;
        var adjust := 0;
        if size % PointerWidth != 0 {
          var quotient := size / PointerWidth;
          adjust := (quotient + 1) * PointerWidth;
          adjustByte := adjustByte + (adjust - size);
        }
        assert adjust == AdjustSize(size) && adjustByte == old(adjustByte) + Padding(size);
        cursor := cursor + adjust;
        curByte := curByte + adjust;
      }
      allocCnt := (allocCnt + 1) % Uint32Modulus;
      if ResidentAt(residents, taken) != grp {
        return None, taken;
      }
      residents := residents[taken := grp];
      slot := Some(taken);
    }

    /** `_free<U>(obj)` for an occupant of group `occupant` and size `size` at `offset`;
        `isBaseNode` is whether `dynamic_cast<base_node_c*>` succeeds. The destructor
        leaves the slot's bytes, and so the name a later `alloc` reads, in place. */
    method Release(isBaseNode: bool, occupant: string, size: nat, offset: nat)
      requires Valid()
      modifies this
      ensures Valid()
      ensures !isBaseNode || occupant != group ==> free == old(free) && allocCnt == old(allocCnt)
      ensures isBaseNode && occupant == group ==>
        && free == old(free) + multiset{ArenaPool.Entry(size, offset)}
        && allocCnt == (old(allocCnt) + Uint32Modulus - 1) % Uint32Modulus
      ensures group == old(group) && cursor == old(cursor) && curByte == old(curByte)
      ensures adjustByte == old(adjustByte) && residents == old(residents)
    {
      if !isBaseNode {
        return;
      }
      if occupant != group {
        return;
      }
      free := free + multiset{ArenaPool.Entry(size, offset)};
      allocCnt := (allocCnt + Uint32Modulus - 1) % Uint32Modulus;
    }
  }

  /** A pool of a named group never grants a fresh slot: the group test reads the empty
      name of memory where nothing has been constructed, so `nullptr` comes back, while
      the counter rises and, for a misaligned size, the cursor moves. Every type the pool
      serves derives from `base_node_c`, so its size is a multiple of the pointer width,
      and then the cursor stays where it is and every later call is refused the same way. */
  method FreshSlotsRefused() returns (first: Option<nat>, second: Option<nat>, odd: Option<nat>,
                                      cursorAfter: nat, countAfter: nat)
    ensures first == None && second == None && odd == None
    ensures cursorAfter == 16 && countAfter == 3
  {
    var pool := new Pool("USER");
    var t1, t2, t3;
    first, t1 := pool.Alloc("USER", 64);
    second, t2 := pool.Alloc("USER", 64);
    assert pool.cursor == 0;
    odd, t3 := pool.Alloc("USER", 12);
    cursorAfter, countAfter := pool.cursor, pool.allocCnt;
  }

  /** A pool of group `grp`, a non-empty name, asked for objects of the given sizes in turn:
      every allocation returns `nullptr`, whatever the sizes, while the live-allocation counter
      counts every call. */
  method NamedGroupNeverServed(grp: string, sizes: seq<nat>) returns (slots: seq<Option<nat>>, liveCount: nat)
    requires grp != ""
    ensures |slots| == |sizes| && forall k :: 0 <= k < |slots| ==> slots[k] == None
    ensures liveCount == |sizes| % Uint32Modulus
  {
    var pool := new Pool(grp);
    slots := [];
    while |slots| < |sizes|
      invariant |slots| <= |sizes| && pool.Valid()
      invariant forall k :: 0 <= k < |slots| ==> slots[k] == None
      invariant pool.allocCnt == |slots| % Uint32Modulus
    {
      var slot, taken := pool.Alloc(grp, sizes[|slots|]);
      slots := slots + [slot];
    }
    liveCount := pool.allocCnt;
  }

  /** With the empty group name, the only one whose fresh slots the group test accepts,
      two allocations of a pointer-aligned size in a row return the same slot while the
      first object is still live. */
  method AlignedBumpsCollide() returns (first: Option<nat>, second: Option<nat>, liveCount: nat)
    ensures first == Some(0) && second == Some(0)
    ensures liveCount == 2
  {
    var pool := new Pool("");
    var t1, t2;
    first, t1 := pool.Alloc("", 64);
    second, t2 := pool.Alloc("", 64);
    liveCount := pool.allocCnt;
  }

  /** A release with the counter at zero wraps it round to 2^32 - 1. */
  method ReleaseWrapsCounter() returns (wrapped: nat)
    ensures wrapped == Uint32Modulus - 1
  {
    var idle := new Pool("USER");
    idle.Release(true, "USER", 64, 0);
    wrapped := idle.allocCnt;
  }

  /** The bookkeeping of the root revision as a value, for the corrected allocation. */
  datatype LegacyState = LegacyState(group: string, cursor: nat, adjustByte: nat, allocCnt: nat,
                                     free: multiset<ArenaPool.Entry>)

  /** The corrected allocation: the caller's group is compared with the pool's before any
      bookkeeping, a free entry of the size is reused, and otherwise the slot at the cursor
      is taken and the cursor advances by the size rounded up to the pointer width. */
  ghost predicate IntendedAllocStep(s: LegacyState, grp: string, size: nat, t: LegacyState, slot: Option<nat>) {
    if grp != s.group then
      t == s && slot == None
    else if ArenaPool.HasFree(s.free, size) then
      && slot.Some? && ArenaPool.Entry(size, slot.value) in s.free
      && t == s.(free := s.free - multiset{ArenaPool.Entry(size, slot.value)},
                 allocCnt := (s.allocCnt + 1) % Uint32Modulus)
    else
      && slot == Some(s.cursor)
      && t == s.(cursor := s.cursor + RoundUp(size), adjustByte := s.adjustByte + Padding(size),
                 allocCnt := (s.allocCnt + 1) % Uint32Modulus)
  }

  /** The corrected allocation grants exactly the callers of the pool's group, leaves the
      state alone otherwise, and a fresh slot ends at or before the new cursor, which stays
      pointer-aligned. */
  lemma IntendedAllocGrants(s: LegacyState, grp: string, size: nat, t: LegacyState, slot: Option<nat>)
    requires IntendedAllocStep(s, grp, size, t, slot)
    ensures slot.Some? <==> grp == s.group
    ensures slot.None? ==> t == s
    ensures slot.Some? && !ArenaPool.HasFree(s.free, size) ==>
      && slot.value + size <= t.cursor
      && (s.cursor % PointerWidth == 0 ==> t.cursor % PointerWidth == 0)
  {
  }

  /** Where a run of corrected bump allocations of the given sizes, from `base`, leaves the
      cursor. */
  function BumpEnd(base: nat, sizes: seq<nat>): nat {
    if sizes == [] then base else BumpEnd(base, sizes[..|sizes| - 1]) + RoundUp(sizes[|sizes| - 1])
  }

  /** The slots a run of corrected bump allocations of the given sizes hands out, from
      `base`. */
  function BumpSlots(base: nat, sizes: seq<nat>): (slots: seq<ArenaPool.Entry>)
    ensures |slots| == |sizes|
    ensures forall i :: 0 <= i < |sizes| ==> slots[i].size == sizes[i]
  {
    if sizes == [] then []
    else
      var n := |sizes| - 1;
      BumpSlots(base, sizes[..n]) + [ArenaPool.Entry(sizes[n], BumpEnd(base, sizes[..n]))]
  }

  /** Successive corrected bump allocations of non-empty sizes hand out slots that lie
      between `base` and the final cursor and never overlap one another. */
  lemma {:induction false} IntendedBumpsAreDisjoint(base: nat, sizes: seq<nat>)
    requires forall i :: 0 <= i < |sizes| ==> 0 < sizes[i]
    ensures base <= BumpEnd(base, sizes)
    ensures forall i :: 0 <= i < |sizes| ==>
      base <= BumpSlots(base, sizes)[i].offset &&
      BumpSlots(base, sizes)[i].offset + sizes[i] <= BumpEnd(base, sizes)
    ensures forall i, j :: 0 <= i < j < |sizes| ==>
      !ArenaPool.Overlap(BumpSlots(base, sizes)[i], BumpSlots(base, sizes)[j])
  {
    if sizes != [] {
      var n := |sizes| - 1;
      var prefix := sizes[..n];
      IntendedBumpsAreDisjoint(base, prefix);
      var slots, before, end := BumpSlots(base, sizes), BumpSlots(base, prefix), BumpEnd(base, prefix);
      assert slots == before + [ArenaPool.Entry(sizes[n], end)];
      forall i | 0 <= i < n
        ensures slots[i] == before[i] && sizes[i] == prefix[i]
      {
      }
      forall i, j | 0 <= i < j < |sizes|
        ensures !ArenaPool.Overlap(slots[i], slots[j])
      {
        if j < n {
          assert !ArenaPool.Overlap(before[i], before[j]);
        } else {
          assert before[i].offset + prefix[i] <= end;
        }
      }
    }
  }

  /** From a pointer-aligned base, every slot a run of corrected bump allocations hands
      out, and the final cursor, are pointer-aligned. */
  lemma {:induction false} IntendedBumpsStayAligned(base: nat, sizes: seq<nat>)
    requires base % PointerWidth == 0
    ensures BumpEnd(base, sizes) % PointerWidth == 0
    ensures forall i :: 0 <= i < |sizes| ==> BumpSlots(base, sizes)[i].offset % PointerWidth == 0
  {
    if sizes != [] {
      var n := |sizes| - 1;
      var prefix := sizes[..n];
      IntendedBumpsStayAligned(base, prefix);
      var slots, before, end := BumpSlots(base, sizes), BumpSlots(base, prefix), BumpEnd(base, prefix);
      assert slots == before + [ArenaPool.Entry(sizes[n], end)];
      assert BumpEnd(base, sizes) == end + RoundUp(sizes[n]);
      forall i | 0 <= i < n
        ensures slots[i] == before[i]
      {
      }
    }
  }
}
