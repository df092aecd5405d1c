/** The name-to-slot pool: at most one name per slot and one slot per name. */
module Pools {
  import opened Bytes
  import opened Packets

  type Ids = map<Name, uint32>

  predicate Learnable(name: Name, id: uint32) {
    name != [] && 1 <= id <= MAX_MACHINE
  }

  /** The pool after learning name -> id: other holders of the slot are evicted. */
  function Learned(ids: Ids, name: Name, id: uint32): Ids {
    if !Learnable(name, id) then ids
    else (map n | n in ids && !(ids[n] == id && n != name) :: ids[n])[name := id]
  }

  ghost predicate Injective(ids: Ids) {
    && (forall n :: n in ids ==> 1 <= ids[n] <= MAX_MACHINE)
    && (forall n, k :: n in ids && k in ids && ids[n] == ids[k] ==> n == k)
  }

  lemma LearnedInjective(ids: Ids, name: Name, id: uint32)
    requires Injective(ids)
    ensures Injective(Learned(ids, name, id))
  {
  }

  /** So the pool never holds more names than there are slots. */
  lemma PoolIsSmall(ids: Ids)
    requires Injective(ids)
    ensures |ids| <= MAX_MACHINE
  {
    InjectionBound(ids, ids.Keys, {1, 2, 3, 4});
  }

  lemma {:induction false} InjectionBound(ids: Ids, keys: set<Name>, slots: set<int>)
    requires Injective(ids) && keys <= ids.Keys && forall n :: n in keys ==> ids[n] in slots
    ensures |keys| <= |slots|
    decreases |keys|
  {
    if keys == {} {
    } else {
      var n :| n in keys;
      InjectionBound(ids, keys - {n}, slots - {ids[n]});
    }
  }

  class Pool {
    var ids: Ids
    var times: map<Name, int>

    /** Liveness is kept for exactly the names in the pool. */
    ghost predicate Valid()
      reads this
    {
      Injective(ids) && times.Keys == ids.Keys
    }

    constructor ()
      ensures Valid() && ids == map[]
    {
      ids, times := map[], map[];
    }

    method Learn(name: Name, id: uint32, now: int)
      requires Valid()
      modifies this
      ensures Valid() && ids == Learned(old(ids), name, id)
      ensures Learnable(name, id) ==> times[name] == now
    {
      if !Learnable(name, id) { return; }
      LearnedInjective(ids, name, id);
      Evict(name, id);
      ids := ids[name := id];
      times := times[name := now];
    }

    /** Deletes every other holder of the slot. */
    method Evict(name: Name, id: uint32)
      requires times.Keys == ids.Keys
      modifies this
      ensures times.Keys == ids.Keys
      ensures ids == map n | n in old(ids) && !(old(ids)[n] == id && n != name) :: old(ids)[n]
    {
      var left := ids.Keys;
      while left != {}
        invariant times.Keys == ids.Keys && left <= ids.Keys
        invariant forall n :: n in ids ==> n in old(ids) && ids[n] == old(ids)[n]
        invariant forall n :: n in old(ids) && n !in ids ==> old(ids)[n] == id && n != name
        invariant forall n :: n in ids && n !in left ==> !(ids[n] == id && n != name)
        decreases |left|
      {
        var n :| n in left;
        left := left - {n};
        if ids[n] == id && n != name {
          ids := ids - {n};
          times := times - {n};
        }
      }
    }

    method Touch(name: Name, now: int)
      requires Valid()
      modifies this`times
      ensures Valid()
      ensures times == if name in ids then old(times)[name := now] else old(times)
    {
      if name in ids {
        times := times[name := now];
      }
    }

    /** Zero exactly for an unknown name, and no two names share an answer that is not zero. */
    method IDOf(name: Name) returns (id: uint32)
      requires Valid()
      ensures id != 0 <==> name in ids
      ensures name in ids ==> ids[name] == id <= MAX_MACHINE
      ensures id != 0 ==> forall n :: n in ids && ids[n] == id ==> n == name
    {
      id := if name in ids then ids[name] else 0;
    }
  }
}
