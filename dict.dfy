/** The optional value returned by a dictionary lookup. */
module Wrappers {

  datatype Option<T> = None | Some(value: T) {

    /** The value held, or `default` when there is none (Python's `dict.get(k, default)`). */
    function GetOr(default: T): T {
      match this
      case Some(v) => v
      case None => default
    }
  }
}

/**
 * A Python dictionary: its entries in insertion order. The grading code relies on
 * that order (Counter breaks ties by it, and the verdicts come out in it), so a
 * dictionary is a sequence of key/value pairs rather than a Dafny map.
 */
module Dict {
  import opened Wrappers

  type Dict<K, V> = seq<(K, V)>

  /** The keys, in iteration order. */
  function Keys<K, V>(d: Dict<K, V>): (ks: seq<K>)
    ensures |ks| == |d|
  {
    seq(|d|, i requires 0 <= i < |d| => d[i].0)
  }

  /** The values, in iteration order (`d.values()`). */
  function Values<K, V>(d: Dict<K, V>): (vs: seq<V>)
    ensures |vs| == |d|
  {
    seq(|d|, i requires 0 <= i < |d| => d[i].1)
  }

  /** A well-formed dictionary holds every key at most once. */
  predicate DistinctKeys<K(==), V>(d: Dict<K, V>) {
    forall i, j :: 0 <= i < j < |d| ==> d[i].0 != d[j].0
  }

  /** Where `k` sits in `d`: its first position, or `|d|` when it is absent. */
  function Find<K(==), V>(d: Dict<K, V>, k: K): (i: nat)
    ensures i <= |d|
    ensures i < |d| ==> d[i].0 == k
    ensures forall j :: 0 <= j < i ==> d[j].0 != k
  {
    if d == [] then 0
    else if d[0].0 == k then 0
    else 1 + Find(d[1..], k)
  }

  /** `d.get(k)`: the value stored under `k`, if any. */
  function Get<K(==), V>(d: Dict<K, V>, k: K): (r: Option<V>)
    ensures r.None? <==> k !in Keys(d)
    ensures r.Some? ==> (k, r.value) in d
  {
    var i := Find(d, k);
    if i < |d| then
      assert Keys(d)[i] == k;
      Some(d[i].1)
    else
      assert forall j :: 0 <= j < |d| ==> Keys(d)[j] != k;
      None
  }

  /**
   * `d[k] = v`: a key already present keeps its place and gets the new value,
   * a new key is appended at the end.
   */
  function Put<K(==), V>(d: Dict<K, V>, k: K, v: V): (r: Dict<K, V>)
    ensures Keys(r) == if k in Keys(d) then Keys(d) else Keys(d) + [k]
    ensures k !in Keys(d) ==> r == d + [(k, v)]
    ensures DistinctKeys(d) ==> DistinctKeys(r)
    ensures DistinctKeys(d) ==>
              forall j :: 0 <= j < |d| ==> r[j] == if d[j].0 == k then (k, v) else d[j]
  {
    var i := Find(d, k);
    if i < |d| then
      assert Keys(d)[i] == k;
      var r := d[i := (k, v)];
      assert Keys(r) == Keys(d);
      r
    else
      assert forall j :: 0 <= j < |d| ==> Keys(d)[j] != k;
      var r := d + [(k, v)];
      assert Keys(r) == Keys(d) + [k];
      r
  }

  /** After `d[k] = v`, looking up `k` gives `v` and every other key is unaffected. */
  lemma GetPut<K, V>(d: Dict<K, V>, k: K, v: V, k': K)
    requires DistinctKeys(d)
    ensures Get(Put(d, k, v), k') == if k' == k then Some(v) else Get(d, k')
  {
  }
}
