/**
 A Ruby `Hash` as far as the display helpers use it: a sequence of key/value
 entries kept in insertion order. Storing under a key that is already present
 replaces its value but leaves the entry where it was first inserted.
 */
module OrderedHash {

  type Hash<K, V> = seq<(K, V)>

  /** The keys in insertion order (`Hash#keys`). */
  function Keys<K, V>(h: Hash<K, V>): (ks: seq<K>)
    ensures |ks| == |h|
    ensures forall p :: 0 <= p < |h| ==> ks[p] == h[p].0
  {
    seq(|h|, p requires 0 <= p < |h| => h[p].0)
  }

  /** The keys as a set (`Hash#keys.to_set`). */
  function KeySet<K, V>(h: Hash<K, V>): set<K>
  {
    set p | 0 <= p < |h| :: h[p].0
  }

  /** No key occurs in two entries. */
  predicate DistinctKeys<K(==), V>(h: Hash<K, V>)
  {
    forall a, b :: 0 <= a < b < |h| ==> h[a].0 != h[b].0
  }

  /** `h[k] = v`. */
  function Put<K(==), V>(h: Hash<K, V>, k: K, v: V): (r: Hash<K, V>)
    ensures k in Keys(h) ==> Keys(r) == Keys(h)
    ensures k !in Keys(h) ==> Keys(r) == Keys(h) + [k]
    ensures forall p :: 0 <= p < |r| && r[p].0 == k ==> r[p].1 == v
    ensures forall p :: 0 <= p < |h| && h[p].0 != k ==> r[p] == h[p]
    ensures DistinctKeys(h) ==> DistinctKeys(r)
  {
    if k in Keys(h) then seq(|h|, p requires 0 <= p < |h| => if h[p].0 == k then (k, v) else h[p])
    else h + [(k, v)]
  }
}
