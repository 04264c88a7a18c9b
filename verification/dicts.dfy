/**
 * Python's `dict` as the scripts use it: an insertion-ordered association list. A lookup finds
 * the entry with the key; `d[k] = v` replaces that entry in place, or appends one when the key
 * is new, so the order of iteration is the order of first insertion.
 */
module Dicts {
  import opened Wrappers

  type Dict<K, V> = seq<(K, V)>

  predicate KeysDistinct<K(==), V>(d: Dict<K, V>) {
    forall i, j :: 0 <= i < j < |d| ==> d[i].0 != d[j].0
  }

  predicate ValuesDistinct<K, V(==)>(d: Dict<K, V>) {
    forall i, j :: 0 <= i < j < |d| ==> d[i].1 != d[j].1
  }

  function Keys<K, V>(d: Dict<K, V>): set<K> {
    set i | 0 <= i < |d| :: d[i].0
  }

  function Values<K, V>(d: Dict<K, V>): set<V> {
    set i | 0 <= i < |d| :: d[i].1
  }

  /** `d.get(k)`: the value of the first entry whose key is `k`. */
  function Get<K(==), V>(d: Dict<K, V>, k: K): (r: Option<V>)
    ensures r.None? <==> forall i :: 0 <= i < |d| ==> d[i].0 != k
    ensures r.Some? ==> exists i :: 0 <= i < |d| && d[i] == (k, r.value)
  {
    if d == [] then None
    else if d[0].0 == k then Some(d[0].1)
    else
      var r := Get(d[1..], k);
      assert forall i :: 0 < i < |d| ==> d[i] == d[1..][i - 1];
      r
  }

  /** `d[k] = v`: overwrite the entry with key `k` where it stands, or append a new one. */
  function Put<K(==), V>(d: Dict<K, V>, k: K, v: V): Dict<K, V> {
    if d == [] then [(k, v)]
    else if d[0].0 == k then [(k, v)] + d[1..]
    else [d[0]] + Put(d[1..], k, v)
  }

  /**
   * After `d[k] = v`, `k` looks up `v` and every other key looks up what it did before; the
   * dict keeps its size when `k` was already there.
   */
  lemma {:induction false} PutSpec<K(!new), V>(d: Dict<K, V>, k: K, v: V)
    ensures Get(Put(d, k, v), k) == Some(v)
    ensures forall k' :: k' != k ==> Get(Put(d, k, v), k') == Get(d, k')
    ensures Get(d, k).Some? ==> |Put(d, k, v)| == |d|
  {
    if d != [] && d[0].0 != k {
      PutSpec(d[1..], k, v);
      var r := Put(d, k, v);
      assert r[1..] == Put(d[1..], k, v);
    }
  }

  /** Assigning a new key appends one entry at the end, as Python dicts keep insertion order. */
  lemma {:induction false} PutAppends<K, V>(d: Dict<K, V>, k: K, v: V)
    requires Get(d, k).None?
    ensures Put(d, k, v) == d + [(k, v)]
  {
    if d != [] {
      PutAppends(d[1..], k, v);
      assert d == [d[0]] + d[1..];
    }
  }

  /** Appending an entry whose key and value are both new keeps keys and values distinct. */
  lemma AppendDistinct<K(!new), V>(d: Dict<K, V>, k: K, v: V)
    requires KeysDistinct(d) && ValuesDistinct(d)
    requires Get(d, k).None? && v !in Values(d)
    ensures KeysDistinct(d + [(k, v)]) && ValuesDistinct(d + [(k, v)])
  {
    var r := d + [(k, v)];
    forall i, j | 0 <= i < j < |r| ensures r[i].0 != r[j].0 && r[i].1 != r[j].1 {
      if j == |d| {
        assert d[i].1 in Values(d);
      }
    }
  }

  /** Assignment adds exactly the assigned key to the key set. */
  lemma PutKeys<K(!new), V>(d: Dict<K, V>, k: K, v: V)
    ensures Keys(Put(d, k, v)) == Keys(d) + {k}
  {
    var r := Put(d, k, v);
    PutSpec(d, k, v);
    forall x ensures x in Keys(r) <==> x in Keys(d) + {k} {
      GetKeys(r, x);
      GetKeys(d, x);
    }
  }

  /** Assignment keeps the keys of a dict distinct. */
  lemma {:induction false} PutKeysDistinct<K(!new), V>(d: Dict<K, V>, k: K, v: V)
    requires KeysDistinct(d)
    ensures KeysDistinct(Put(d, k, v))
  {
    var r := Put(d, k, v);
    if d == [] {
    } else if d[0].0 == k {
      assert forall i :: 0 <= i < |d| ==> r[i].0 == d[i].0;
    } else {
      var tail := Put(d[1..], k, v);
      PutKeysDistinct(d[1..], k, v);
      PutKeys(d[1..], k, v);
      assert r == [d[0]] + tail;
      assert d[0].0 !in Keys(tail) by {
        assert forall i :: 0 <= i < |d| - 1 ==> d[1..][i].0 == d[i + 1].0 != d[0].0;
      }
      forall i, j | 0 <= i < j < |r| ensures r[i].0 != r[j].0 {
        assert r[j] == tail[j - 1];
        if i == 0 {
          assert tail[j - 1].0 in Keys(tail);
        } else {
          assert r[i] == tail[i - 1];
        }
      }
    }
  }

  /** With distinct keys, the lookup of any entry's key yields that entry's value. */
  lemma GetAt<K, V>(d: Dict<K, V>, i: int)
    requires KeysDistinct(d) && 0 <= i < |d|
    ensures Get(d, d[i].0) == Some(d[i].1)
  {
    var k := d[i].0;
    var j :| 0 <= j < |d| && d[j] == (k, Get(d, k).value);
    assert j == i;
  }

  /** Writing back the value a key already has leaves the dict as it was. */
  lemma {:induction false} PutExisting<K(!new), V>(d: Dict<K, V>, k: K, v: V)
    requires Get(d, k) == Some(v)
    ensures Put(d, k, v) == d
  {
    if d[0].0 != k {
      PutExisting(d[1..], k, v);
    }
  }

  /** `k in d` for a dict is membership of its key set. */
  lemma GetKeys<K, V>(d: Dict<K, V>, k: K)
    ensures Get(d, k).Some? <==> k in Keys(d)
  {
    if k in Keys(d) {
      var i :| 0 <= i < |d| && d[i].0 == k;
    }
  }
}
