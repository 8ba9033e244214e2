/** The earlier pool design of `memory_pool_t.h` and `memory_pool_t.cpp`: one FIFO queue
    of recycled nodes per class type, a per-type count of the nodes ever created, a queue
    of recycled cells for integral types, and an intrusive reference count on every node
    that hands the node back to its queue when it drops to zero. The process-wide
    instance returned by `_get_inst()` is modelled as one `Pool` object passed around. */
module TypedPool {

  /** `mpool_cls_type_e::STANDARD_TYPE`; the class types proper are the values above it. */
  const StandardType: int := 0

  /** `std::atomic_uint8_t`, the width of a node's reference count. */
  type Uint8 = x: nat | x < 0x100

  /** `uint16_t`, the width of a per-type creation count. */
  type Uint16 = x: nat | x < 0x1_0000

  /** `standard_type_u`: a cell big enough for any integral type. Which member a caller
      reads through is outside the model. */
  class BasicCell {
    constructor ()
    {
    }
  }

  /** `base_node_t`: a pooled object with its class type and reference count. */
  class Node {
    var refCnt: Uint8
    const clsType: int

    /** A node of class type `clsType`, its count at 1. */
    constructor (clsType: int)
      ensures this.clsType == clsType && refCnt == 1
    {
      this.clsType := clsType;
      refCnt := 1;
    }

    /** `retain()`: one more reference, wrapping round at 256. */
    method Retain()
      modifies this
      ensures refCnt == (old(refCnt) + 1) % 0x100
    {
      refCnt := (refCnt + 1) % 0x100;
    }

    /** `release()`: one reference fewer, wrapping round below 0; the node goes to the back
        of its class type's queue exactly when the count has reached 0. That queue must
        exist, which a prior `alloc` of the type guarantees. */
    method Release(pool: Pool)
      requires pool.Valid()
      requires refCnt == 1 ==> clsType in pool.buckets
      modifies this, pool
      ensures refCnt == (old(refCnt) + 0xFF) % 0x100
      ensures pool.Valid()
      ensures refCnt == 0 ==> pool.buckets == old(pool.buckets)[clsType := old(pool.buckets[clsType]) + [this]]
      ensures refCnt != 0 ==> pool.buckets == old(pool.buckets)
      ensures pool.counts == old(pool.counts) && pool.created == old(pool.created)
      ensures pool.basic == old(pool.basic) && pool.maxCnt == old(pool.maxCnt) && pool.totalCnt == old(pool.totalCnt)
    {
      refCnt := (refCnt + 0xFF) % 0x100;
      if refCnt == 0 {
        pool.Free(this, clsType);
      }
    }
  }

  /** A class type has a queue exactly when it has a count, only class types above
      `STANDARD_TYPE` have them, and each count is the number of nodes created for its
      type, reduced to 16 bits. */
  ghost predicate CountsMatch(buckets: map<int, seq<Node>>, counts: map<int, Uint16>, created: map<int, nat>) {
    && buckets.Keys == counts.Keys == created.Keys
    && (forall t :: t in counts ==> StandardType < t && counts[t] == created[t] % 0x1_0000)
  }

  /** Registering a new class type with one creation keeps the counts matched. */
  lemma FirstUseKeepsCounts(buckets: map<int, seq<Node>>, counts: map<int, Uint16>, created: map<int, nat>, t: int)
    requires CountsMatch(buckets, counts, created) && StandardType < t && t !in buckets
    ensures CountsMatch(buckets[t := []], counts[t := 1], created[t := 1])
  {
  }

  /** One more creation of a registered type, counted in 16 bits, keeps the counts matched. */
  lemma CreationKeepsCounts(buckets: map<int, seq<Node>>, counts: map<int, Uint16>, created: map<int, nat>, t: int)
    requires CountsMatch(buckets, counts, created) && t in buckets
    ensures CountsMatch(buckets, counts[t := (counts[t] as int + 1) % 0x1_0000], created[t := created[t] + 1])
  {
    var c := created[t];
    assert (c % 0x1_0000 + 1) % 0x1_0000 == (c + 1) % 0x1_0000;
  }

  /** Replacing the queue of a registered type keeps the counts matched. */
  lemma RequeueKeepsCounts(buckets: map<int, seq<Node>>, counts: map<int, Uint16>, created: map<int, nat>, t: int, q: seq<Node>)
    requires CountsMatch(buckets, counts, created) && t in buckets
    ensures CountsMatch(buckets[t := q], counts, created)
  {
  }

  /** `memory_pool_t`. */
  class Pool {
    var basic: seq<BasicCell>
    var buckets: map<int, seq<Node>>
    var counts: map<int, Uint16>
    var maxCnt: int
    var totalCnt: int
    /** How many nodes `alloc` has created for each class type. */
    ghost var created: map<int, nat>

    ghost predicate Valid()
      reads this
    {
      CountsMatch(buckets, counts, created)
    }

    /** The defaulted constructor with the members' initialisers: empty containers, both
        counts 0. */
    constructor ()
      ensures Valid()
      ensures basic == [] && buckets == map[] && counts == map[] && created == map[]
      ensures maxCnt == 0 && totalCnt == 0
    {
      basic, buckets, counts, created := [], map[], map[], map[];
      maxCnt, totalCnt := 0, 0;
    }

    /** `init(max_cnt)`: sets the maximum count and nothing else. */
    method Init(maxCnt: int)
      modifies this`maxCnt
      ensures this.maxCnt == maxCnt
    {
      this.maxCnt := maxCnt;
    }

    /** `alloc<U>(cls_type)`: `null` for a type at or below `STANDARD_TYPE`; otherwise the
        front of the type's queue when it holds one, else a new node, registering the type
        with a count of 1 on its first use and counting one more creation after that. */
    method Alloc(t: int) returns (n: Node?)
      requires Valid()
      modifies this
      ensures Valid()
      ensures basic == old(basic) && maxCnt == old(maxCnt) && totalCnt == old(totalCnt)
      ensures n == null <==> t <= StandardType
      ensures t <= StandardType ==>
        buckets == old(buckets) && counts == old(counts) && created == old(created)
      ensures StandardType < t && t !in old(buckets) ==>
        && n != null && fresh(n) && n.clsType == t && n.refCnt == 1
        && buckets == old(buckets)[t := []] && counts == old(counts)[t := 1]
        && created == old(created)[t := 1]
      ensures StandardType < t && t in old(buckets) && old(buckets[t]) == [] ==>
        && n != null && fresh(n) && n.clsType == t && n.refCnt == 1
        && buckets == old(buckets)
        && counts == old(counts)[t := (old(counts[t]) as int + 1) % 0x1_0000]
        && created == old(created)[t := old(created[t]) + 1]
      ensures StandardType < t && t in old(buckets) && old(buckets[t]) != [] ==>
        && n == old(buckets[t][0])
        && buckets == old(buckets)[t := old(buckets[t][1..])]
        && counts == old(counts) && created == old(created)
    {
      if t <= StandardType {
        return null;
      }
      if t !in buckets {
        FirstUseKeepsCounts(buckets, counts, created, t);
        counts := counts[t := 1];
        buckets := buckets[t := []];
        created := created[t := 1];
        n := new Node(t);
        return;
      }
      if |buckets[t]| == 0 {
        CreationKeepsCounts(buckets, counts, created, t);
        counts := counts[t := (counts[t] as int + 1) % 0x1_0000];
        created := created[t := created[t] + 1];
        n := new Node(t);
      } else {
        RequeueKeepsCounts(buckets, counts, created, t, buckets[t][1..]);
        n := buckets[t][0];
        buckets := buckets[t := buckets[t][1..]];
      }
    }

    /** `_free(node, cls_type)`: the node goes to the back of its type's queue, which must
        already exist. */
    method Free(node: Node, t: int)
      requires Valid() && t in buckets
      modifies this
      ensures Valid()
      ensures buckets == old(buckets)[t := old(buckets[t]) + [node]]
      ensures counts == old(counts) && created == old(created)
      ensures basic == old(basic) && maxCnt == old(maxCnt) && totalCnt == old(totalCnt)
    {
      RequeueKeepsCounts(buckets, counts, created, t, buckets[t] + [node]);
      buckets := buckets[t := buckets[t] + [node]];
    }

    /** `alloc_basic<U>()`: the front of the cell queue when it holds one, else a new cell. */
    method AllocBasic() returns (c: BasicCell)
      modifies this`basic
      ensures old(basic) == [] ==> fresh(c) && basic == []
      ensures old(basic) != [] ==> c == old(basic[0]) && basic == old(basic[1..])
    {
      if |basic| == 0 {
        c := new BasicCell();
      } else {
        c := basic[0];
        basic := basic[1..];
      }
    }

    /** `free_basic<U>(node)`: the cell goes to the back of the cell queue. */
    method FreeBasic(c: BasicCell)
      modifies this`basic
      ensures basic == old(basic) + [c]
    {
      basic := basic + [c];
    }
  }

  /** `n` nodes of one class type are allocated from a fresh pool, all released in the
      order they were allocated, and `n` more allocated: the second round returns the same
      nodes in the same order, the type's count is `n` reduced to 16 bits, and the queue
      is empty again. */
  method FifoReuse(n: nat) returns (first: seq<Node>, second: seq<Node>, count: Uint16, left: nat)
    requires 0 < n
    ensures |first| == n && second == first
    ensures count == n % 0x1_0000
    ensures left == 0
  {
    var pool := new Pool();
    first := [];
    while |first| < n
      invariant |first| <= n && pool.Valid()
      invariant |first| == 0 ==> 1 !in pool.buckets
      invariant 0 < |first| ==> 1 in pool.buckets && pool.buckets[1] == [] && pool.created[1] == |first|
    {
      var node := pool.Alloc(1);
      first := first + [node];
    }
    var freed := 0;
    while freed < n
      invariant freed <= n && pool.Valid()
      invariant 1 in pool.buckets && pool.buckets[1] == first[..freed] && pool.created[1] == n
    {
      pool.Free(first[freed], 1);
      assert first[..freed + 1] == first[..freed] + [first[freed]];
      freed := freed + 1;
    }
    assert first[..n] == first[0..];
    second := [];
    while |second| < n
      invariant |second| <= n && second == first[..|second|] && pool.Valid()
      invariant 1 in pool.buckets && pool.buckets[1] == first[|second|..] && pool.created[1] == n
    {
      var node := pool.Alloc(1);
      second := second + [node];
    }
    count := pool.counts[1];
    left := |pool.buckets[1]|;
  }

  /** The reference count at work: a node retained once survives one release; its second
      release returns it to its queue. Taken from the queue again, it keeps the count of 0
      it was freed with, so its next release wraps the count to 255 and does not return it. */
  method RefCountScenario() returns (afterOne: seq<Node>, afterTwo: seq<Node>, same: bool, wrapped: Uint8, afterThree: seq<Node>)
    ensures afterOne == [] && |afterTwo| == 1
    ensures same && wrapped == 255 && afterThree == []
  {
    var pool := new Pool();
    var node := pool.Alloc(7);
    assert node != null && node.refCnt == 1 && 7 in pool.buckets && pool.buckets[7] == [];
    node.Retain();
    assert node.refCnt == 2 && pool.Valid() && pool.buckets[7] == [];
    node.Release(pool);
    assert node.refCnt == 1 && pool.buckets[7] == [];
    afterOne := pool.buckets[7];
    node.Release(pool);
    assert node.refCnt == 0 && pool.buckets[7] == [node];
    afterTwo := pool.buckets[7];
    var again := pool.Alloc(7);
    assert again == node && again.refCnt == 0 && pool.buckets[7] == [];
    same := again == node;
    again.Release(pool);
    assert again.refCnt == 255;
    wrapped := again.refCnt;
    afterThree := pool.buckets[7];
  }

  /** Cells freed to the cell queue come back first in, first out. */
  method BasicCellsAreFifo() returns (a: BasicCell, b: BasicCell, x: BasicCell, y: BasicCell)
    ensures a != b && x == a && y == b
  {
    var pool := new Pool();
    a := pool.AllocBasic();
    b := pool.AllocBasic();
    pool.FreeBasic(a);
    pool.FreeBasic(b);
    x := pool.AllocBasic();
    y := pool.AllocBasic();
  }
}
