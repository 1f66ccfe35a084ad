/** Python's `dict` as the scripts use it: an association list whose keys
    keep the order in which they were first inserted. */
module Assoc {
  import opened Wrappers

  function Keys<K, V>(d: seq<(K, V)>): (ks: seq<K>)
    ensures |ks| == |d|
    ensures forall i :: 0 <= i < |d| ==> ks[i] == d[i].0
  {
    seq(|d|, i requires 0 <= i < |d| => d[i].0)
  }

  predicate DistinctKeys<K(==), V>(d: seq<(K, V)>) {
    forall i, j :: 0 <= i < j < |d| ==> d[i].0 != d[j].0
  }

  /** The position of the first entry for `k`. */
  function IndexOf<K(==), V>(d: seq<(K, V)>, k: K): (r: Option<nat>)
    ensures r.None? <==> k !in Keys(d)
    ensures r.Some? ==> r.value < |d| && d[r.value].0 == k
    ensures r.Some? ==> forall j :: 0 <= j < r.value ==> d[j].0 != k
  {
    if |d| == 0 then None
    else if d[0].0 == k then Some(0)
    else
      assert Keys(d) == [d[0].0] + Keys(d[1..]);
      match IndexOf(d[1..], k)
      case None => None
      case Some(i) => Some(i + 1)
  }

  /** The first entry for `k` is the one whose predecessors all differ. */
  lemma IndexOfFirst<K, V>(d: seq<(K, V)>, k: K, i: nat)
    requires i < |d| && d[i].0 == k
    requires forall j :: 0 <= j < i ==> d[j].0 != k
    ensures IndexOf(d, k) == Some(i)
  {
    assert k in Keys(d) by { assert Keys(d)[i] == k; }
  }

  /** `d.get(k)`. */
  function Get<K(==), V>(d: seq<(K, V)>, k: K): (r: Option<V>)
    ensures r.None? <==> k !in Keys(d)
    ensures r.Some? ==> (k, r.value) in d
  {
    match IndexOf(d, k)
    case None => None
    case Some(i) => Some(d[i].1)
  }

  /** `d[k] = v`: an existing key keeps its place and takes the new value,
      a new key goes last; no other entry changes. */
  function Put<K(==), V>(d: seq<(K, V)>, k: K, v: V): (r: seq<(K, V)>)
    ensures Get(r, k) == Some(v)
    ensures k in Keys(d) ==> Keys(r) == Keys(d)
    ensures k !in Keys(d) ==> Keys(r) == Keys(d) + [k]
    ensures forall i :: 0 <= i < |r| ==> r[i] == (k, v) || r[i] in d
    ensures DistinctKeys(d) ==> DistinctKeys(r)
  {
    match IndexOf(d, k)
    case None =>
      var r := d + [(k, v)];
      IndexOfFirst(r, k, |d|);
      r
    case Some(i) =>
      var r := d[i := (k, v)];
      IndexOfFirst(r, k, i);
      assert Keys(r) == Keys(d);
      r
  }

  /** Storing under one key leaves every other key's value alone. */
  lemma PutOther<K, V>(d: seq<(K, V)>, k: K, v: V, k': K)
    requires k' != k
    ensures Get(Put(d, k, v), k') == Get(d, k')
  {
    var r := Put(d, k, v);
    match IndexOf(d, k')
    case None =>
    case Some(j) =>
      IndexOfFirst(r, k', j);
  }
}
