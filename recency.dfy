/**
  The recency order of an `OrderedDict`, as a sequence of keys from the
  least recently used (front) to the most recently used (back), and the two
  reorderings the LRU store performs on it.
 */
module Recency {

  /** No key occurs twice. */
  ghost predicate Distinct<K>(s: seq<K>) {
    forall i, j :: 0 <= i < j < |s| ==> s[i] != s[j]
  }

  /** `s` with `k` taken out; every other key keeps its place relative to the rest. */
  function Without<K(==)>(s: seq<K>, k: K): (r: seq<K>)
    ensures forall x :: x in r ==> x in s && x != k
    ensures forall x :: x in s && x != k ==> x in r
    ensures k !in s ==> r == s
    ensures Distinct(s) ==> Distinct(r)
    ensures Distinct(s) && k in s ==> |r| == |s| - 1
  {
    if s == [] then []
    else if s[0] == k then Without(s[1..], k)
    else
      var rest := Without(s[1..], k);
      assert Distinct(s) ==> s[0] !in s[1..] && s[0] !in rest;
      [s[0]] + rest
  }

  /**
    `k` becomes the most recently used key. For a resident `k` this is
    `OrderedDict.move_to_end(k)`, which leaves the length unchanged. For an
    absent `k` it is item assignment of a new key (which appends it)
    followed by `move_to_end`; Python's `move_to_end` alone would raise
    `KeyError` there.
   */
  function MoveToEnd<K(==)>(s: seq<K>, k: K): (r: seq<K>)
    ensures |r| > 0 && r[|r| - 1] == k
    ensures forall x :: x in r ==> x in s || x == k
    ensures forall x :: x in s ==> x in r
    ensures Distinct(s) ==> Distinct(r)
    ensures Distinct(s) ==> |r| == if k in s then |s| else |s| + 1
  {
    Without(s, k) + [k]
  }

  /** In a sequence without duplicates, removing the key at index `i` closes the gap and keeps the rest in order. */
  lemma {:induction false} WithoutAt<K>(s: seq<K>, i: nat)
    requires Distinct(s) && i < |s|
    ensures Without(s, s[i]) == s[..i] + s[i + 1..]
  {
    if i == 0 {
      assert s[0] !in s[1..];
      assert s[..0] + s[1..] == s[1..];
    } else {
      var t := s[1..];
      assert Distinct(t);
      assert t[i - 1] == s[i];
      WithoutAt(t, i - 1);
      assert s[0] != s[i];
      assert s[..i] + s[i + 1..] == [s[0]] + (t[..i - 1] + t[i..]);
    }
  }

  /** Writing a fresh key into an `OrderedDict` appends it; moving it to the end afterwards changes nothing. */
  lemma {:induction false} MoveToEndOfAppended<K>(s: seq<K>, k: K)
    requires k !in s
    ensures MoveToEnd(s + [k], k) == s + [k]
  {
    WithoutAppended(s, k);
  }

  lemma {:induction false} WithoutAppended<K>(s: seq<K>, k: K)
    requires k !in s
    ensures Without(s + [k], k) == s
  {
    if s == [] {
      assert [] + [k] == [k];
      assert [k][1..] == [];
    } else {
      assert (s + [k])[1..] == s[1..] + [k];
      WithoutAppended(s[1..], k);
      assert [s[0]] + s[1..] == s;
    }
  }

  /** A duplicate-free sequence has as many elements as the set of its elements. */
  lemma {:induction false} DistinctSize<K>(s: seq<K>, ks: set<K>)
    requires Distinct(s)
    requires forall x :: x in s <==> x in ks
    ensures |ks| == |s|
  {
    if s == [] {
      assert ks == {};
    } else {
      var rest := ks - {s[0]};
      assert s[0] !in s[1..];
      forall x ensures x in s[1..] <==> x in rest {
        if x in s[1..] {
          var j :| 1 <= j < |s| && s[j] == x;
        }
        if x in s && x != s[0] {
          var j :| 0 <= j < |s| && s[j] == x;
          assert s[1..][j - 1] == x;
        }
      }
      DistinctSize(s[1..], rest);
    }
  }
}
