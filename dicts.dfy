/** Python dictionaries, which remember insertion order: a sequence of
    key/value pairs whose keys are pairwise distinct. Assigning to a present
    key replaces its value where it stands; a new key goes to the end. */
module Dicts {
  import opened Wrappers

  predicate DistinctKeys<K(==,!new), V(!new)>(d: seq<(K, V)>) {
    forall i, j :: 0 <= i < j < |d| ==> d[i].0 != d[j].0
  }

  type Dict<K(==,!new), V(!new)> = d: seq<(K, V)> | DistinctKeys(d) witness []

  predicate HasKey<K(==,!new), V(!new)>(d: seq<(K, V)>, k: K) {
    exists i :: 0 <= i < |d| && d[i].0 == k
  }

  /** The position of key `k`, or -1. */
  function IndexOf<K(==,!new), V(!new)>(d: seq<(K, V)>, k: K): (r: int)
    ensures -1 <= r < |d|
    ensures r >= 0 ==> d[r].0 == k && forall j :: 0 <= j < r ==> d[j].0 != k
    ensures r == -1 <==> !HasKey(d, k)
  {
    if d == [] then -1
    else if d[0].0 == k then 0
    else
      var r := IndexOf(d[1..], k);
      assert forall j :: 1 <= j < |d| ==> d[1..][j - 1] == d[j];
      if r == -1 then -1 else r + 1
  }

  /** `d.get(k)`: the value stored under `k`, if any; it is the value of the
      one pair whose key is `k`. */
  function Get<K(==,!new), V(!new)>(d: Dict<K, V>, k: K): (r: Option<V>)
    ensures r.None? <==> !HasKey(d, k)
    ensures forall v :: r == Some(v) <==> (k, v) in d
  {
    var i := IndexOf(d, k);
    if i == -1 then None
    else
      assert forall v :: (k, v) in d ==> d[i] == (k, v);
      Some(d[i].1)
  }

  /** `d[k] = v`. */
  function Put<K(==,!new), V(!new)>(d: Dict<K, V>, k: K, v: V): (r: Dict<K, V>)
    ensures Get(r, k) == Some(v)
    ensures forall k' :: k' != k ==> Get(r, k') == Get(d, k')
    ensures HasKey(d, k) ==> |r| == |d| && forall j :: 0 <= j < |d| ==> r[j].0 == d[j].0
    ensures !HasKey(d, k) ==> r == d + [(k, v)]
  {
    var i := IndexOf(d, k);
    if i == -1 then
      var r := d + [(k, v)];
      assert r[|d|] == (k, v);
      r
    else
      var r := d[i := (k, v)];
      assert r[i] == (k, v);
      assert forall j :: 0 <= j < |d| && j != i ==> r[j] == d[j];
      assert forall k', w :: k' != k ==> ((k', w) in r <==> (k', w) in d) by {
        forall k', w | k' != k ensures (k', w) in r <==> (k', w) in d {
          if (k', w) in d {
            var j :| 0 <= j < |d| && d[j] == (k', w);
            assert r[j] == (k', w);
          }
        }
      }
      r
  }

  /** The keys in insertion order. */
  function Keys<K(==,!new), V(!new)>(d: seq<(K, V)>): (ks: seq<K>)
    ensures |ks| == |d| && forall i :: 0 <= i < |d| ==> ks[i] == d[i].0
  {
    if d == [] then [] else [d[0].0] + Keys(d[1..])
  }
}
