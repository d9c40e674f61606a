# typed-lru-cache in Dafny

A model of the in-memory memoisers of `typed-lru-cache`:

- `LruCache`, a bounded key-to-value table kept in recency order (least
  recently used at the front, most recently used at the back). `get` moves a
  hit to the back; `insert` drops the front entry when the table is full and
  then writes its key at the back.
- `_LruCacheFunctionWrapper`, which memoises a function in an `LruCache`,
  counts hits and misses, reports them through `cache_info` and resets
  everything with `cache_clear`.
- `_CacheFunctionWrapper`, an unbounded get-or-compute-and-store memoiser
  over a plain dict that only grows (`cache.py`, repeated at `lru.py:92-110`).

Files:

- `wrappers.dfy`: `Option`, whose `None` stands for Python's `None`.
- `recency.dfy`: the key order of an `OrderedDict` as a `seq`:
  duplicate-freedom, removing a key, `move_to_end`.
- `lru_table.dfy`: the store's state as a value (`Table`: order plus map) and
  what `get`, `insert` and `clear` do to it, with the lemmas about them.
- `lru.dfy`: the classes `LruCache` and `LruCacheFunctionWrapper`. Their
  fields are updated in place, and each method is proved to follow
  `lru_table.dfy`.
- `cache.dfy`: the class `CacheFunctionWrapper`.

Modelling choices:

- A call key is an opaque type `K`. The wrapped callable is a pure total
  function parameter (`K -> Option<V>` for the LRU wrapper, `K -> V` for the
  unbounded one).
- `LruCache` stores Python values, which may be `None`, so its value type is
  `Option<V>`. Its `get`, like the Python one, returns `None` both for an
  absent key and for a key whose stored value is `None`. So the LRU wrapper
  treats a stored `None` as a miss (`lru.py:55`): it recomputes the value,
  counts a miss and inserts again.
- Both wrappers carry an invariant: every stored value equals the wrapped
  function applied to its key. Because of it, every call is proved to return
  `wrapped(key)`. This assumes the result depends only on the key. It says
  nothing about argument lists whose keys collide (see "## Left out").
- The LRU wrapper keeps a ghost list of the keys called since construction or
  the last `cache_clear`. Its invariant `hits + misses == |calls|` says the
  counters are exact.

Where the code and the usual LRU contract disagree, the model follows the
code:

- `insert` on a full table evicts the front entry even when the key is
  already resident (`lru.py:29-30`). An overwrite of a resident key that is
  not at the front therefore shrinks the table to `capacity - 1`. Where the
  key is at the front, it is evicted and written back. `LruTable.InsertSize`
  states this in general, and `LruTable.OverwriteAtCapacityExample` shows one
  instance. The usual LRU contract says an overwrite never evicts.
- There is no capacity check (`lru.py:18-19`): a capacity of 0 makes the
  first `insert` pop from an empty dict. The model requires `capacity >= 1`
  instead of raising an invalid-capacity error.
- With capacity 2, inserting 1, 2, 3, then calling `get(1)`, then inserting
  4 leaves `{3, 4}`, not `{1, 4}`. Inserting 3 already evicts 1, so `get(1)`
  misses, and inserting 4 evicts 2 (`LruTable.RecencyExample`). The model
  proves eviction order in general (`LruTable.InsertOrder`,
  `LruTable.EvictionOrderExample`).

## Model

| member | source | states |
|---|---|---|
| `Recency.Without` | lru.py:25 | the key removal inside `move_to_end`: the result holds exactly the other keys, stays duplicate-free, and is one shorter when the key was present in a duplicate-free order |
| `Recency.MoveToEnd` | lru.py:25 | for a resident key this is `move_to_end`: the key ends up last, and the key set, duplicate-freedom and length are kept. For an absent key (used only by `LruTable.Insert`) it stands for item assignment of a new key followed by `move_to_end` (lru.py:31-32), which grows the order by one |
| `Recency.WithoutAt` | lru.py:25 | in a duplicate-free order, removing the key at index i gives exactly the other keys in their old relative order |
| `Recency.DistinctSize` | lru.py:34-35 | a duplicate-free order listing exactly the dict's keys is as long as the dict, so `len` of the dict is the length of the order |
| `LruTable.Touch` | lru.py:22-26 | `get` never changes any stored value, and it changes nothing at all for an absent key |
| `LruTable.EmptyValid` | lru.py:18-20 | a freshly constructed store satisfies the invariant |
| `LruTable.TouchKeepsValid` | lru.py:22-26 | `get` keeps the invariant and the size, and keeps the table in agreement with the wrapped function |
| `LruTable.TouchMovesToBack` | lru.py:25-26 | a hit on the key at index i gives the order with that key taken out and appended at the back; values are unchanged |
| `LruTable.Evict` | lru.py:29-30 | `popitem(last=False)` on a full table: one entry fewer, and the front key is gone; a table that is not full is unchanged; no key is added |
| `LruTable.Insert` | lru.py:28-32 | `insert(k, v)` as a function of the state: afterwards k holds v and is the last key in the order |
| `LruTable.EvictKeepsValid` | lru.py:29-30 | on a full table, `popitem(last=False)` removes exactly the front key, leaving `capacity - 1` entries and the invariant intact |
| `LruTable.InsertKeepsValid` | lru.py:28-32 | `insert` keeps the invariant: no duplicate keys, the order lists exactly the resident keys, and size is at most capacity |
| `LruTable.InsertStores` | lru.py:31-32 | after `insert(k, v)`, k holds v and sits at the most recently used end; every other surviving key keeps its old value |
| `LruTable.InsertKeys` | lru.py:29-32 | on a full table the resident keys become the old ones minus the front plus k, even when k was already resident; when not full they become the old ones plus k |
| `LruTable.InsertSize` | lru.py:29-32 | when not full, size grows by 1 for a new key and stays for a resident one; when full, size stays at capacity, except for a resident non-front key, where it drops to `capacity - 1` |
| `LruTable.InsertOrder` | lru.py:29-32 | the keys that survive keep their relative order, and k is appended at the back |
| `LruTable.InsertAgrees` | lru.py:56-58 | inserting `f(k)` under k keeps every stored value equal to `f` of its key |
| `LruTable.RunKeepsValid` | lru.py:17-38 | after any sequence of `get`/`insert`/`clear` calls the invariant holds, so `len <= capacity` |
| `LruTable.EvictionOrderExample` | lru.py:28-32 | capacity 3: inserting 1..4 evicts 1, and then inserting 5 evicts 2 |
| `LruTable.OverwriteAtCapacityExample` | lru.py:29-31 | capacity 2: inserting 1 and 2, then overwriting 2, leaves only key 2 with its new value |
| `LruTable.RecencyExample` | lru.py:22-32 | capacity 2: inserting 1, 2, 3, then `get(1)` (a miss), then inserting 4 leaves the order `[3, 4]` |
| `Lru.LruCache.constructor` | lru.py:18-20 | the new store is empty, valid and has the given capacity |
| `Lru.LruCache.Get` | lru.py:22-26 | an absent key returns `None` and leaves order and map unchanged; a present key returns its stored value and the state becomes `Touch` of the old state |
| `Lru.LruCache.Insert` | lru.py:28-32 | the new state is `LruTable.Insert` of the old state, and the invariant is kept |
| `Lru.LruCache.Len` | lru.py:34-35 | the dict's length equals the length of the recency order, and is at most the capacity |
| `Lru.LruCache.Clear` | lru.py:37-38 | order and map become empty; the invariant is kept |
| `Lru.LruCacheFunctionWrapper.constructor` | lru.py:42-47 | empty store of capacity `maxsize`, both counters 0 |
| `Lru.LruCacheFunctionWrapper.Call` | lru.py:49-62 | exactly one of hits or misses goes up, and hits only for a stored non-`None` value; a hit only touches the key; a miss inserts `wrapped(key)` after the touch; a `None` result always counts as a miss; the result is `wrapped(key)` and is afterwards stored under the key; `hits + misses` equals the number of calls |
| `Lru.LruCacheFunctionWrapper.Info` | lru.py:64-70 | reports the two counters, `maxsize` equal to the constructor's capacity, and `currsize` equal to the store's length; currsize is at most maxsize and hits + misses equals the calls since the last clear |
| `Lru.LruCacheFunctionWrapper.Clear` | lru.py:72-75 | the store becomes empty, both counters 0 and the call history empty |
| `Memo.CacheFunctionWrapper.constructor` | cache.py:12-14 | the dict starts empty |
| `Memo.CacheFunctionWrapper.Call` | cache.py:16-25 | an absent key gets exactly `wrapped(key)` stored; a present key returns its stored value and leaves the map unchanged; the key is present afterwards with the returned value; no key is lost, no stored value changes, and the result is `wrapped(key)` |

## Left out

- The decorator factories `lru_cache` and `cache` (`lru.py:82-88`, `113-119`) are out: they are Python metaprogramming and copy `__doc__`.
- The file- and database-backed wrappers (`lru.py:122-184`, `shelvecache.py`, `sqlitedictcache.py`) are out: they are persistence through foreign libraries, with `json.dumps` key encoding, commits and logging.
- Key derivation `args + tuple(kwargs.items())` (`lru.py:51`, `cache.py:18`) is out: the key is an opaque type. The code does not canonicalise keyword-argument order, and the model claims nothing about it.
- Key collisions are out: the wrapped function is modelled as a function of the key, so the model assumes the result depends only on the key. In the code different argument lists can derive the same key: `f(('b', 2))` and `f(b=2)` both give `(('b', 2),)`. Such calls share one entry, and the second returns the first one's cached result (`lru.py:53-60`, `cache.py:20-24`), even where the callable would have returned something else or raised `TypeError` for its own arguments.
- Exceptions raised by the wrapped function are out: the function is total. In the code, the miss counter is already incremented when such an exception escapes, and nothing is stored.
- Re-entrant calls (a wrapped function that calls its own wrapper, like the `fib` demos) are out: the function is pure.
- The O(1) cost of `OrderedDict` operations is out: the order is a `seq`.
- A capacity of 0 or less is out: it is excluded by `requires capacity >= 1`. At 0 the code raises `KeyError`; below 0 it never evicts.
- The `cache` properties (`lru.py:77-79`, `cache.py:27-29`) are not separate members: they are the public `cache` fields.
- Writes through the exposed store are out. A caller of the `cache` property can `insert(k, x)` with `x` other than `wrapped(k)`. That breaks the agreement invariant in `Lru.LruCacheFunctionWrapper.Valid`, after which the model's `Call` can no longer be called. Python's `__call__` would then return `x` as a hit.
