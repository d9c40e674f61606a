/**
  cache.py (and its copy at lru.py:92-110): `_CacheFunctionWrapper`, an
  unbounded memoiser. Its dict only ever gains entries, and membership,
  not the stored value, decides whether a call is a hit.
 */
module Memo {

  /** `m2` keeps every key of `m1` with the same value. */
  ghost predicate Extends<K, V>(m1: map<K, V>, m2: map<K, V>) {
    forall k :: k in m1 ==> k in m2 && m2[k] == m1[k]
  }

  class CacheFunctionWrapper<K(==), V> {
    /** The wrapped callable, as a function of the derived call key. */
    const wrapped: K -> V
    var cache: map<K, V>

    /** Every stored value is what the wrapped function returns for its key. */
    ghost predicate Valid()
      reads this
    {
      forall k :: k in cache ==> cache[k] == wrapped(k)
    }

    constructor (func: K -> V)
      ensures Valid()
      ensures wrapped == func && cache == map[]
    {
      wrapped := func;
      cache := map[];
    }

    /**
      `__call__` (cache.py:16-25): on an absent key compute and store
      `wrapped(key)`; on a present key return the stored value and leave the
      map alone. Afterwards the key is present with the returned value.
     */
    method Call(key: K) returns (ret: V)
      requires Valid()
      modifies this
      ensures Valid()
      ensures key in cache && cache[key] == ret
      ensures ret == wrapped(key)
      ensures key !in old(cache) ==> cache == old(cache)[key := wrapped(key)]
      ensures key in old(cache) ==> cache == old(cache) && ret == old(cache)[key]
      ensures Extends(old(cache), cache)
      ensures cache.Keys == old(cache).Keys + {key}
    {
      if key !in cache {
        ret := wrapped(key);
        cache := cache[key := ret];
      } else {
        ret := cache[key];
      }
    }
  }
}
