/** The singleton holders of `src/util_singleton.h`. The static members of a holder
    instantiated for one `Class` are modelled as the fields of one holder object. */
module Singleton {

  /** An object of the held `Class`; only its identity matters here. */
  class Instance {
    constructor ()
    {
    }
  }

  /** The state of a `dynamic_singletonHolder_c<Class>`: whether `_obj` is set, and
      `_use_cnt`. */
  datatype Holder = Holder(held: bool, useCnt: nat)

  /** The holder's invariant: an object is held exactly while its use count is positive. */
  predicate WellFormed(h: Holder) {
    h.held <==> 0 < h.useCnt
  }

  /** The holder before any call. */
  const Empty: Holder := Holder(false, 0)

  /** `get_instance()`: an object is held afterwards (created if there was none) and the
      use count has grown by one. */
  function Acquired(h: Holder): (r: Holder)
    ensures WellFormed(r)
    ensures r.held && r.useCnt == h.useCnt + 1
  {
    Holder(true, h.useCnt + 1)
  }

  /** `release(obj)` with `obj` the held pointer, or with a non-null pointer while nothing
      is held: in the first case one use fewer, and the object is gone once no use is
      left; in the second nothing changes. */
  function Returned(h: Holder): (r: Holder)
    requires WellFormed(h)
    ensures WellFormed(r)
    ensures h.held ==> r.useCnt == h.useCnt - 1
    ensures !h.held ==> r == h
  {
    if !h.held then h
    else if h.useCnt == 1 then Holder(false, 0)
    else Holder(true, h.useCnt - 1)
  }

  /** `k` calls of `get_instance()`. */
  function AcquiredN(h: Holder, k: nat): (r: Holder)
    ensures r.useCnt == h.useCnt + k
    ensures r.held == (h.held || 0 < k)
    ensures WellFormed(h) ==> WellFormed(r)
  {
    if k == 0 then h else Acquired(AcquiredN(h, k - 1))
  }

  /** `k` calls of `release` with the held pointer: while uses remain, each removes one,
      and the object stays held exactly while some use remains. */
  function ReturnedN(h: Holder, k: nat): (r: Holder)
    requires WellFormed(h)
    ensures WellFormed(r)
    ensures k <= h.useCnt ==> r == Holder(k < h.useCnt, h.useCnt - k)
  {
    if k == 0 then h else Returned(ReturnedN(h, k - 1))
  }

  /** `k` calls of `get_instance` followed by `j <= k` matching releases leave `k - j`
      more uses than before; `k` releases restore the holder exactly, and from an empty
      holder the object stays alive exactly while fewer releases than calls were made. */
  lemma BalancedUseReleases(h: Holder, k: nat, j: nat)
    requires WellFormed(h) && j <= k
    ensures ReturnedN(AcquiredN(h, k), j).useCnt == h.useCnt + k - j
    ensures h == Empty ==> (ReturnedN(AcquiredN(h, k), j).held <==> j < k)
    ensures ReturnedN(AcquiredN(h, k), k) == h
  {
  }

  /** `dynamic_singletonHolder_c<Class>`: a reference-counted holder that creates its
      object on first use and deletes it when the last user releases it. */
  class DynamicSingletonHolder {
    var obj: Instance?
    var useCnt: nat

    ghost predicate Valid()
      reads this
    {
      WellFormed(Abstract())
    }

    function Abstract(): Holder
      reads this
    {
      Holder(obj != null, useCnt)
    }

    /** The statics' initial values: nothing held, no use. */
    constructor ()
      ensures Valid() && obj == null && useCnt == 0
    {
      obj, useCnt := null, 0;
    }

    /** `get_instance()`. */
    method GetInstance() returns (r: Instance)
      requires Valid()
      modifies this
      ensures Valid() && obj == r
      ensures old(obj) != null ==> r == old(obj)
      ensures old(obj) == null ==> fresh(r)
      ensures Abstract() == Acquired(old(Abstract()))
    {
      if obj == null {
        obj := new Instance();
      }
      useCnt := useCnt + 1;
      r := obj;
    }

    /** `release(o)`: true exactly for the held, non-null pointer. */
    method Release(o: Instance?) returns (ok: bool)
      requires Valid()
      modifies this
      ensures Valid()
      ensures ok <==> o != null && o == old(obj)
      ensures !ok ==> obj == old(obj) && useCnt == old(useCnt)
      ensures ok ==> Abstract() == Returned(old(Abstract())) && (obj == null || obj == old(obj))
    {
      if o != null && obj == o {
        useCnt := useCnt - 1;
        if useCnt == 0 {
          obj := null;
        }
        return true;
      } else {
        return false;
      }
    }

    /** `is_released()`: nothing is held, which under the invariant means no use is left. */
    method IsReleased() returns (r: bool)
      requires Valid()
      ensures r <==> obj == null
      ensures r <==> useCnt == 0
    {
      r := obj == null;
    }
  }

  /** `k` calls of `get_instance` and then `j` releases of the pointer they returned: every
      call returns the same object, every release is accepted, and the holder is released
      afterwards exactly when `j == k`. A release of `null` is refused. */
  method BalancedUseScenario(k: nat, j: nat) returns (same: bool, accepted: bool, nullAccepted: bool, released: bool)
    requires 0 < k && j <= k
    ensures same && accepted && !nullAccepted
    ensures released <==> j == k
  {
    var holder := new DynamicSingletonHolder();
    var first := holder.GetInstance();
    same, accepted := true, true;
    var calls := 1;
    while calls < k
      invariant 1 <= calls <= k
      invariant holder.Valid() && holder.obj == first && holder.useCnt == calls
      invariant same
    {
      var r := holder.GetInstance();
      same := same && r == first;
      calls := calls + 1;
    }
    nullAccepted := holder.Release(null);
    var done := 0;
    while done < j
      invariant done <= j
      invariant holder.Valid() && holder.useCnt == k - done
      invariant done < k ==> holder.obj == first
      invariant accepted
    {
      var ok := holder.Release(first);
      accepted := accepted && ok;
      done := done + 1;
    }
    released := holder.IsReleased();
  }

  /** `static_singletonHolder_c<Class>`: the function-local static object of
      `get_instance`, constructed by the first call. */
  class StaticSingletonHolder {
    var obj: Instance?

    constructor ()
      ensures obj == null
    {
      obj := null;
    }

    /** `get_instance()`: the same object on every call, created by the first. */
    method GetInstance() returns (r: Instance)
      modifies this
      ensures obj == r
      ensures old(obj) != null ==> r == old(obj)
      ensures old(obj) == null ==> fresh(r)
    {
      if obj == null {
        obj := new Instance();
      }
      r := obj;
    }
  }

  /** Two calls of the static holder's `get_instance` return the same object. */
  method StaticInstanceIsStable() returns (a: Instance, b: Instance)
    ensures a == b
  {
    var holder := new StaticSingletonHolder();
    a := holder.GetInstance();
    b := holder.GetInstance();
  }
}
