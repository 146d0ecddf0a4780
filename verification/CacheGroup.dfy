/** `KCacheGroup` as the source has it, run by one thread: a class that owns an LRU cache and a
  * single-flight loader. */
module CacheGroup {
  import opened Common
  import opened Lru
  import LruInclusion
  import SF = SingleFlight

  /** The conversion of the byte limit to `int` in the LRU constructor (two's complement). */
  function Narrow(bytes: int): int {
    (bytes + 0x8000_0000) % 0x1_0000_0000 - 0x8000_0000
  }

  /** The limit survives the conversion exactly when it fits an `int`; any other multiple of
    * 4 GiB becomes 0, which means unlimited. */
  lemma NarrowKeepsIff(bytes: int)
    ensures Narrow(bytes) == bytes <==> -0x8000_0000 <= bytes < 0x8000_0000
    ensures Narrow(bytes) == 0 <==> bytes % 0x1_0000_0000 == 0
    ensures -0x8000_0000 <= Narrow(bytes) < 0x8000_0000 && (bytes - Narrow(bytes)) % 0x1_0000_0000 == 0
  {}

  class KCacheGroup {
    const cache: LRUCache
    const loader: SF.SingleFlight
    const getter: LruInclusion.Getter
    var isClosed: bool
    var loads: nat  // calls of the getter so far
    var calls: nat  // numbers the calls of the loader, and dates their steps

    /** No call of the loader is in progress, as is the case between calls of one thread. */
    ghost predicate Valid()
      reads this, cache, loader
    {
      cache.Valid() && loader.table == map[]
    }

    ghost function State(): LruInclusion.Group
      reads this, cache
    {
      LruInclusion.Group(cache.Contents(), loads)
    }

    constructor (bytes: int, getter: LruInclusion.Getter)
      ensures Valid() && fresh(cache) && fresh(loader) && !isClosed
      ensures State() == LruInclusion.Group([], 0)
      ensures this.getter == getter && cache.maxBytes == Narrow(bytes) && !cache.hasCallback
    {
      this.getter := getter;
      cache := new LRUCache(Narrow(bytes), false);
      loader := new SF.SingleFlight();
      isClosed, loads, calls := false, 0, 0;
    }

    lemma CachedOrLoaded(key: string)
      requires Valid() && key != ""
      ensures forall v | Entry(key, v) in cache.Contents() ::
                && LruInclusion.Answer(State(), getter, key) == Some(v)
                && LruInclusion.Apply(State(), cache.maxBytes, getter, LruInclusion.Get(key)).loads == loads
      ensures (forall e | e in cache.Contents() :: e.key != key) ==>
                && LruInclusion.Answer(State(), getter, key) == getter(key)
                && LruInclusion.Apply(State(), cache.maxBytes, getter, LruInclusion.Get(key)).loads == loads + 1
    {
      hide LruInclusion.Answer, LruInclusion.Apply, Linked;
      LinkedDistinct(cache.list, cache.cache, cache.nextId);
      LruInclusion.GetEffect(State(), cache.maxBytes, getter, key);
      forall v | Entry(key, v) in cache.Contents()
        ensures LruInclusion.Answer(State(), getter, key) == Some(v)
        ensures LruInclusion.Apply(State(), cache.maxBytes, getter, LruInclusion.Get(key)).loads == loads
      {
        var i :| 0 <= i < |cache.Contents()| && cache.Contents()[i] == Entry(key, v);
      }
    }

    lemma WhatDeleteLeaves(key: string)
      requires Valid()
      ensures IsRest(cache.Contents(), key, Without(cache.Contents(), key))
    {
      hide Linked;
      LinkedDistinct(cache.list, cache.cache, cache.nextId);
      WithoutIsRest(cache.Contents(), key);
    }

    method Get(key: string) returns (value: Option<string>)
      requires Valid()
      modifies this, cache, loader
      ensures Valid() && isClosed == old(isClosed)
      ensures isClosed ==> value == None && State() == old(State())
      ensures !isClosed ==>
                && value == LruInclusion.Answer(old(State()), getter, key)
                && State() == LruInclusion.Apply(old(State()), cache.maxBytes, getter, LruInclusion.Get(key))
      ensures !isClosed && key == "" ==> value == None && State() == old(State())
      ensures !isClosed && key != "" ==>
                && (forall v | Entry(key, v) in old(cache.Contents()) :: value == Some(v) && loads == old(loads))
                && ((forall e | e in old(cache.Contents()) :: e.key != key) ==>
                      value == getter(key) && loads == old(loads) + 1)
    {
      hide Linked;
      if key != "" {
        CachedOrLoaded(key);
      }
      if isClosed {
        return None;
      }
      if key == "" {
        return None;
      }
      value := cache.Get(key);
      if value.Some? {
        return;
      }
      value := Load(key);
    }

    method Set(key: string, value: string) returns (ok: bool)
      requires Valid()
      modifies cache
      ensures Valid()
      ensures ok == (!isClosed && key != "")
      ensures State() == if isClosed then old(State())
                         else LruInclusion.Apply(old(State()), cache.maxBytes, getter, LruInclusion.Set(key, value))
      ensures ok ==> if cache.maxBytes == 0 || |key| + |value| <= cache.maxBytes
                     then Entry(key, value) in cache.Contents()
                     else cache.Contents() == []
      ensures !ok ==> State() == old(State())
    {
      PutHoldsIff(cache.Contents(), cache.maxBytes, key, value);
      if isClosed {
        return false;
      }
      if key == "" {
        return false;
      }
      cache.Set(key, value);
      return true;
    }

    method Delete(key: string) returns (ok: bool)
      requires Valid()
      modifies cache
      ensures Valid()
      ensures ok == (!isClosed && key != "")
      ensures State() == if isClosed then old(State())
                         else LruInclusion.Apply(old(State()), cache.maxBytes, getter, LruInclusion.Delete(key))
      ensures if ok then IsRest(old(cache.Contents()), key, cache.Contents()) else State() == old(State())
    {
      WhatDeleteLeaves(key);
      if isClosed {
        return false;
      }
      if key == "" {
        return false;
      }
      cache.Delete(key);
      return true;
    }

    method InvalidateFromPeer(key: string) returns (ok: bool)
      requires Valid()
      modifies cache
      ensures Valid()
      ensures ok == (!isClosed && key != "")
      ensures State() == if isClosed then old(State())
                         else LruInclusion.Apply(old(State()), cache.maxBytes, getter, LruInclusion.Delete(key))
      ensures if ok then IsRest(old(cache.Contents()), key, cache.Contents()) else State() == old(State())
    {
      WhatDeleteLeaves(key);
      if isClosed {
        return false;
      }
      if key == "" {
        return false;
      }
      cache.Delete(key);
      return true;
    }

    method Load(key: string) returns (value: Option<string>)
      requires Valid()
      modifies this, cache, loader
      ensures Valid() && isClosed == old(isClosed)
      ensures value == getter(key) && loads == old(loads) + 1
      ensures cache.Contents() == if value.None? then old(cache.Contents())
                                  else Put(old(cache.Contents()), cache.maxBytes, key, value.value)
    {
      hide Linked;
      value := loader.Do(calls, key, getter, 2 * calls);
      loads, calls := loads + 1, calls + 1;
      if value.None? {
        return None;
      }
      cache.Set(key, value.value);
    }
  }
}
