/**
  lru.py: the bounded store `LruCache` and the memoising call wrapper
  `_LruCacheFunctionWrapper` built on it. Python's `None` is `None` of
  Wrappers.Option, so a store holding Python values of some type has value
  type `Option<V>`.
 */
module Lru {
  import opened Wrappers
  import opened Recency
  import T = LruTable

  /** An `OrderedDict` of at most `capacity` entries, least recently used first (lru.py:17-38). */
  class LruCache<K(==), V> {
    const capacity: int
    var order: seq<K>
    var vals: map<K, Option<V>>

    function Contents(): T.Table<K, Option<V>>
      reads this
    {
      T.Table(order, vals)
    }

    ghost predicate Valid()
      reads this
    {
      capacity >= 1 && T.Valid(Contents(), capacity)
    }

    constructor (capacity: int)
      requires capacity >= 1
      ensures Valid()
      ensures this.capacity == capacity && Contents() == T.Empty()
    {
      this.capacity := capacity;
      order, vals := [], map[];
      T.EmptyValid<K, Option<V>>(capacity);
    }

    /**
      An absent key yields `None` and changes nothing; a resident key yields
      its stored value (which may itself be `None`) and moves to the back.
     */
    method Get(key: K) returns (r: Option<V>)
      requires Valid()
      modifies this
      ensures Valid()
      ensures r == if key in old(vals) then old(vals)[key] else None
      ensures Contents() == T.Touch(old(Contents()), key)
      ensures key !in old(vals) ==> order == old(order) && vals == old(vals)
    {
      T.TouchKeepsValid(Contents(), capacity, key);
      if key !in vals {
        return None;
      }
      order := MoveToEnd(order, key);
      r := vals[key];
    }

    /** Evict the front entry if the table is full, then write `key` at the back. */
    method Insert(key: K, value: Option<V>)
      requires Valid()
      modifies this
      ensures Valid()
      ensures Contents() == T.Insert(old(Contents()), capacity, key, value)
    {
      ghost var before := Contents();
      DistinctSize(order, vals.Keys);
      T.InsertKeepsValid(before, capacity, key, value);
      if |vals| == capacity {
        var front := order[0];
        order, vals := order[1..], vals - {front};
      }
      if key !in vals {
        assert key !in order;
        order := order + [key];
        MoveToEndOfAppended(order[..|order| - 1], key);
        assert order[..|order| - 1] + [key] == order;
      }
      vals := vals[key := value];
      order := MoveToEnd(order, key);
    }

    /** `__len__`: the number of resident keys, never more than the capacity. */
    method Len() returns (n: nat)
      requires Valid()
      ensures n == |order| && n <= capacity
    {
      DistinctSize(order, vals.Keys);
      n := |vals|;
    }

    method Clear()
      requires Valid()
      modifies this
      ensures Valid()
      ensures Contents() == T.Empty()
    {
      order, vals := [], map[];
    }
  }

  /** The statistics snapshot of `cache_info` (lru.py:10-14). */
  datatype CacheInfo = CacheInfo(hits: nat, misses: nat, maxsize: int, currsize: nat)

  /**
    `_LruCacheFunctionWrapper` (lru.py:41-79): memoises the pure total
    function `wrapped` in an `LruCache`, counting hits and misses.
   */
  class LruCacheFunctionWrapper<K(==), V> {
    /** The wrapped callable, as a function of the derived call key. */
    const wrapped: K -> Option<V>
    const cache: LruCache<K, V>
    const maxsize: int
    var hits: nat
    var misses: nat
    /** The keys of the calls since construction or the last `cache_clear`. */
    ghost var calls: seq<K>

    ghost predicate Valid()
      reads this, cache
    {
      && cache.Valid()
      && cache.capacity == maxsize
      && T.Agrees(cache.Contents(), wrapped)
      && hits + misses == |calls|
    }

    constructor (func: K -> Option<V>, maxsize: int)
      requires maxsize >= 1
      ensures Valid() && fresh(cache)
      ensures wrapped == func && this.maxsize == maxsize
      ensures hits == 0 && misses == 0 && calls == []
      ensures cache.Contents() == T.Empty()
    {
      wrapped := func;
      cache := new LruCache(maxsize);
      hits, misses := 0, 0;
      this.maxsize := maxsize;
      calls := [];
    }

    /**
      `__call__`: a stored non-`None` value is a hit and is returned; anything
      else, a stored `None` included, is a miss: `wrapped(key)` is computed
      and inserted. Either way exactly one counter goes up, and the result is
      `wrapped(key)`.
     */
    method Call(key: K) returns (ret: Option<V>)
      requires Valid()
      modifies this, cache
      ensures Valid()
      ensures calls == old(calls) + [key]
      ensures ret == wrapped(key)
      ensures key in cache.vals && cache.vals[key] == ret
      ensures var hit := key in old(cache.vals) && old(cache.vals)[key].Some?;
        && hits == old(hits) + (if hit then 1 else 0)
        && misses == old(misses) + (if hit then 0 else 1)
        && cache.Contents() == if hit then T.Touch(old(cache.Contents()), key)
                               else T.Insert(T.Touch(old(cache.Contents()), key), maxsize, key, wrapped(key))
      ensures wrapped(key) == None ==> misses == old(misses) + 1 && hits == old(hits)
    {
      ret := cache.Get(key);
      if ret.None? {
        misses := misses + 1;
        ret := wrapped(key);
        T.InsertStores(cache.Contents(), maxsize, key, ret);
        T.InsertAgrees(cache.Contents(), maxsize, key, wrapped);
        cache.Insert(key, ret);
      } else {
        hits := hits + 1;
      }
      calls := calls + [key];
    }

    /** `cache_info`: the counters, the constructor's capacity and the current size. */
    method Info() returns (info: CacheInfo)
      requires Valid()
      ensures info.hits == hits && info.misses == misses
      ensures info.hits + info.misses == |calls|
      ensures info.maxsize == maxsize
      ensures info.currsize == |cache.order| && info.currsize <= info.maxsize
    {
      var n := cache.Len();
      info := CacheInfo(hits, misses, maxsize, n);
    }

    /** `cache_clear`: empties the store and resets both counters. */
    method Clear()
      requires Valid()
      modifies this, cache
      ensures Valid()
      ensures hits == 0 && misses == 0 && calls == []
      ensures cache.Contents() == T.Empty()
    {
      cache.Clear();
      hits, misses := 0, 0;
      calls := [];
    }
  }
}
