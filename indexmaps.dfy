/**
 * Insertion-ordered maps (the `IndexMap` that OpenAPI documents are parsed
 * into) as association lists. A lookup finds the first entry with the key;
 * a well-formed map has distinct keys, so the first entry is the only one.
 */
module IndexMaps {
  import opened Wrappers

  type IndexMap<K, V> = seq<(K, V)>

  predicate DistinctKeys<K(==), V>(m: IndexMap<K, V>) {
    forall i, j :: 0 <= i < j < |m| ==> m[i].0 != m[j].0
  }

  /** The keys, in insertion order. */
  function Keys<K, V>(m: IndexMap<K, V>): (ks: seq<K>)
    ensures |ks| == |m|
    ensures forall i :: 0 <= i < |m| ==> ks[i] == m[i].0
  {
    if m == [] then [] else [m[0].0] + Keys(m[1..])
  }

  /** `IndexMap::get`: the value of the first entry whose key is `k`. */
  function Get<K(==), V>(m: IndexMap<K, V>, k: K): (r: Option<V>)
    ensures r.None? <==> k !in Keys(m)
    ensures r.Some? ==> (k, r.value) in m
  {
    if m == [] then None
    else if m[0].0 == k then Some(m[0].1)
    else Get(m[1..], k)
  }

  /** In a map with distinct keys, looking up the key of an entry finds that entry. */
  lemma {:induction false} GetEntry<K, V>(m: IndexMap<K, V>, i: nat)
    requires DistinctKeys(m) && i < |m|
    ensures Get(m, m[i].0) == Some(m[i].1)
  {
    if i > 0 {
      assert m[0].0 != m[i].0;
      GetEntry(m[1..], i - 1);
    }
  }

  /**
   * Insertion as `HashMap::insert` or `IndexMap::insert` does it: an existing
   * key keeps its place and takes the new value, a new key goes at the end.
   */
  function Put<K(==), V>(m: IndexMap<K, V>, k: K, v: V): (r: IndexMap<K, V>)
    ensures Keys(r) == if k in Keys(m) then Keys(m) else Keys(m) + [k]
  {
    if m == [] then [(k, v)]
    else if m[0].0 == k then [(k, v)] + m[1..]
    else
      var rest := Put(m[1..], k, v);
      assert Keys(m) == [m[0].0] + Keys(m[1..]);
      assert Keys([m[0]] + rest) == [m[0].0] + Keys(rest);
      [m[0]] + rest
  }

  /** After `Put(m, k, v)` the key `k` finds `v` and every other key finds what it found before. */
  lemma {:induction false} PutGet<K, V>(m: IndexMap<K, V>, k: K, v: V, k': K)
    ensures Get(Put(m, k, v), k') == if k' == k then Some(v) else Get(m, k')
  {
    if m != [] && m[0].0 != k {
      PutGet(m[1..], k, v, k');
    }
  }

  /** `Put` keeps the keys distinct. */
  lemma PutDistinct<K, V>(m: IndexMap<K, V>, k: K, v: V)
    requires DistinctKeys(m)
    ensures DistinctKeys(Put(m, k, v))
  {
    var r := Put(m, k, v);
    forall i, j | 0 <= i < j < |r| ensures r[i].0 != r[j].0 {
      assert Keys(r)[i] == r[i].0 && Keys(r)[j] == r[j].0;
    }
  }

  /** Every entry after `Put(m, k, v)` is the new one or an entry of `m`. */
  lemma {:induction false} PutEntries<K, V>(m: IndexMap<K, V>, k: K, v: V)
    ensures forall e :: e in Put(m, k, v) ==> e == (k, v) || e in m
  {
    if m != [] && m[0].0 != k {
      PutEntries(m[1..], k, v);
    }
  }
}
