/**
  The state of an `LruCache` (lru.py:17-38) as a value: the key order of its
  `OrderedDict` (front = least recently used, back = most recently used) and
  the key-to-value table. The functions here are what `get`, `insert` and
  `clear` do to that state; the class in module Lru is proved to follow them.
 */
module LruTable {
  import opened Recency

  datatype Table<K, W> = Table(order: seq<K>, vals: map<K, W>)

  function Empty<K, W>(): Table<K, W> {
    Table([], map[])
  }

  /** The store's invariant: the order lists each resident key exactly once, and there are at most `cap` of them. */
  ghost predicate Valid<K, W>(t: Table<K, W>, cap: int) {
    && Distinct(t.order)
    && (forall k :: k in t.order ==> k in t.vals)
    && (forall k :: k in t.vals ==> k in t.order)
    && |t.order| <= cap
  }

  /** Every stored value is what `f` returns for its key. */
  ghost predicate Agrees<K, W>(t: Table<K, W>, f: K -> W) {
    forall k :: k in t.vals ==> t.vals[k] == f(k)
  }

  /** The reordering done by `get` (lru.py:22-26): a resident key moves to the back; an absent key changes nothing. */
  function Touch<K(==), W>(t: Table<K, W>, k: K): (r: Table<K, W>)
    ensures r.vals == t.vals
    ensures k !in t.vals ==> r == t
  {
    if k in t.vals then Table(MoveToEnd(t.order, k), t.vals) else t
  }

  /** Whether `insert` finds the table full (lru.py:29). */
  predicate Full<K, W>(t: Table<K, W>, cap: int) {
    |t.order| == cap
  }

  /** `popitem(last=False)` when the table is full (lru.py:29-30): the front entry is dropped. */
  function Evict<K(==), W>(t: Table<K, W>, cap: int): (r: Table<K, W>)
    requires cap >= 1
    ensures !Full(t, cap) ==> r == t
    ensures Full(t, cap) ==> |r.order| == cap - 1 && t.order[0] !in r.vals
    ensures r.vals.Keys <= t.vals.Keys
  {
    if Full(t, cap) then Table(t.order[1..], t.vals - {t.order[0]}) else t
  }

  /** `insert(k, v)` (lru.py:28-32): evict the front if full, then write `k` and move it to the back. */
  function Insert<K(==), W>(t: Table<K, W>, cap: int, k: K, v: W): (r: Table<K, W>)
    requires cap >= 1
    ensures k in r.vals && r.vals[k] == v
    ensures |r.order| > 0 && r.order[|r.order| - 1] == k
  {
    var e := Evict(t, cap);
    Table(MoveToEnd(e.order, k), e.vals[k := v])
  }

  lemma EmptyValid<K, W>(cap: int)
    requires cap >= 0
    ensures Valid(Empty<K, W>(), cap)
  {
  }

  lemma EvictKeepsValid<K, W>(t: Table<K, W>, cap: int)
    requires cap >= 1 && Valid(t, cap)
    ensures Valid(Evict(t, cap), cap)
    ensures Full(t, cap) ==> |Evict(t, cap).order| == cap - 1
    ensures Full(t, cap) ==> Evict(t, cap).vals.Keys == t.vals.Keys - {t.order[0]}
  {
  }

  /** `get` keeps the invariant and the agreement with the wrapped function. */
  lemma TouchKeepsValid<K, W>(t: Table<K, W>, cap: int, k: K)
    requires Valid(t, cap)
    ensures Valid(Touch(t, k), cap)
    ensures |Touch(t, k).order| == |t.order|
    ensures forall f: K -> W :: Agrees(t, f) ==> Agrees(Touch(t, k), f)
  {
  }

  /**
    A hit moves exactly the touched key to the most recently used end;
    every other key keeps its relative order and its value.
   */
  lemma TouchMovesToBack<K, W>(t: Table<K, W>, cap: int, i: nat)
    requires Valid(t, cap) && i < |t.order|
    ensures Touch(t, t.order[i]).order == t.order[..i] + t.order[i + 1..] + [t.order[i]]
    ensures Touch(t, t.order[i]).vals == t.vals
  {
    WithoutAt(t.order, i);
  }

  /** `insert` keeps the invariant; in particular the table never holds more than `cap` entries. */
  lemma InsertKeepsValid<K, W>(t: Table<K, W>, cap: int, k: K, v: W)
    requires cap >= 1 && Valid(t, cap)
    ensures Valid(Insert(t, cap, k, v), cap)
  {
  }

  /** After `insert(k, v)`, `k` holds `v` at the back, and every other surviving key keeps its value. */
  lemma InsertStores<K, W>(t: Table<K, W>, cap: int, k: K, v: W)
    requires cap >= 1 && Valid(t, cap)
    ensures var r := Insert(t, cap, k, v);
      && k in r.vals && r.vals[k] == v
      && r.order[|r.order| - 1] == k
      && forall x :: x in r.vals && x != k ==> x in t.vals && r.vals[x] == t.vals[x]
  {
  }

  /**
    Which keys survive `insert(k, v)`: on a full table exactly the front
    entry is dropped first, even when `k` is itself resident; otherwise
    nothing is dropped.
   */
  lemma InsertKeys<K, W>(t: Table<K, W>, cap: int, k: K, v: W)
    requires cap >= 1 && Valid(t, cap)
    ensures Full(t, cap) ==> Insert(t, cap, k, v).vals.Keys == (t.vals.Keys - {t.order[0]}) + {k}
    ensures !Full(t, cap) ==> Insert(t, cap, k, v).vals.Keys == t.vals.Keys + {k}
  {
  }

  /**
    The size after `insert(k, v)`. On a table that is not full it grows
    by one for a new key and stays the same for a resident key. On a full
    table it stays at `cap`, except when `k` is resident and not at the
    front: then the front is evicted AND `k` is only overwritten, so the
    table shrinks to `cap - 1`.
   */
  lemma InsertSize<K, W>(t: Table<K, W>, cap: int, k: K, v: W)
    requires cap >= 1 && Valid(t, cap)
    ensures !Full(t, cap) ==> |Insert(t, cap, k, v).order| == |t.order| + (if k in t.vals then 0 else 1)
    ensures Full(t, cap) ==> |Insert(t, cap, k, v).order| == (if k in t.vals && k != t.order[0] then cap - 1 else cap)
  {
  }

  /**
    The order after `insert(k, v)`: the keys that were not evicted keep
    their relative order, and `k` is appended at the back.
   */
  lemma InsertOrder<K, W>(t: Table<K, W>, cap: int, k: K, v: W)
    requires cap >= 1 && Valid(t, cap)
    ensures var kept := if Full(t, cap) then t.order[1..] else t.order;
      && (k !in kept ==> Insert(t, cap, k, v).order == kept + [k])
      && (forall i :: 0 <= i < |kept| && kept[i] == k ==> Insert(t, cap, k, v).order == kept[..i] + kept[i + 1..] + [k])
  {
    EvictKeepsValid(t, cap);
    var kept := Evict(t, cap).order;
    forall i | 0 <= i < |kept| && kept[i] == k
      ensures Insert(t, cap, k, v).order == kept[..i] + kept[i + 1..] + [k]
    {
      WithoutAt(kept, i);
    }
  }

  /** `insert` of a value computed by `f` keeps the table in agreement with `f`. */
  lemma InsertAgrees<K, W>(t: Table<K, W>, cap: int, k: K, f: K -> W)
    requires cap >= 1 && Agrees(t, f)
    ensures Agrees(Insert(t, cap, k, f(k)), f)
  {
  }

  /** The operations a caller can perform on the store. */
  datatype Op<K, W> = Get(key: K) | Put(key: K, value: W) | Clear

  function Apply<K(==), W>(t: Table<K, W>, cap: int, op: Op<K, W>): Table<K, W>
    requires cap >= 1
  {
    match op
    case Get(k) => Touch(t, k)
    case Put(k, v) => Insert(t, cap, k, v)
    case Clear => Empty()
  }

  /** The state after running `ops` in order. */
  function Run<K(==), W>(t: Table<K, W>, cap: int, ops: seq<Op<K, W>>): Table<K, W>
    requires cap >= 1
    decreases |ops|
  {
    if ops == [] then t else Run(Apply(t, cap, ops[0]), cap, ops[1..])
  }

  /**
    Whatever sequence of `get`, `insert` and `clear` calls is made, the
    invariant holds afterwards, so in particular the size never exceeds
    `cap`; applied to each prefix, it holds after every operation.
   */
  lemma {:induction false} RunKeepsValid<K, W>(t: Table<K, W>, cap: int, ops: seq<Op<K, W>>)
    requires cap >= 1 && Valid(t, cap)
    ensures Valid(Run(t, cap, ops), cap)
    decreases |ops|
  {
    if ops != [] {
      match ops[0] {
        case Get(k) => TouchKeepsValid(t, cap, k);
        case Put(k, v) => InsertKeepsValid(t, cap, k, v);
        case Clear => EmptyValid<K, W>(cap);
      }
      RunKeepsValid(Apply(t, cap, ops[0]), cap, ops[1..]);
    }
  }

  /**
    With capacity 3, inserting 1, 2, 3, 4 evicts 1, and inserting 5 next
    evicts 2: eviction follows insertion order.
   */
  lemma EvictionOrderExample()
    ensures Run(Empty(), 3, [Put(1, 'a'), Put(2, 'b'), Put(3, 'c'), Put(4, 'd')]).order == [2, 3, 4]
    ensures Run(Empty(), 3, [Put(1, 'a'), Put(2, 'b'), Put(3, 'c'), Put(4, 'd'), Put(5, 'e')]).order == [3, 4, 5]
  {
  }

  /**
    With capacity 2, inserting 1 then 2 and then overwriting 2 evicts 1
    before the write, leaving a single entry.
   */
  lemma OverwriteAtCapacityExample()
    ensures Run(Empty(), 2, [Put(1, 'a'), Put(2, 'b'), Put(2, 'c')]) == Table([2], map[2 := 'c'])
  {
  }

  /**
    With capacity 2: inserting 1, 2, 3 evicts 1, so `get(1)` then misses,
    and inserting 4 evicts 2, leaving 3 and 4.
   */
  lemma RecencyExample()
    ensures Run(Empty(), 2, [Put(1, 'a'), Put(2, 'b'), Put(3, 'c'), Get(1), Put(4, 'd')]).order == [3, 4]
  {
  }
}
