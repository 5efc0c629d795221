/**
 * Python dictionaries with string keys, kept in insertion order.
 *
 * The script relies on that order: the environment mapping is merged into the
 * container in the order its keys were loaded, and the connection config is
 * serialised back in the order it was parsed.  A dictionary is therefore a
 * sequence of (key, value) pairs; lookups take the first pair with the key,
 * and every dictionary the script builds has distinct keys.
 */
module Dicts {
  import opened Wrappers

  type Dict<V> = seq<(string, V)>

  /** The keys, in insertion order (Python's `d.keys()`). */
  function Keys<V>(d: Dict<V>): seq<string> {
    seq(|d|, i requires 0 <= i < |d| => d[i].0)
  }

  predicate DistinctKeys<V>(d: Dict<V>) {
    forall i, j :: 0 <= i < j < |d| ==> d[i].0 != d[j].0
  }

  /** `d.get(k)`: the value stored under `k`, if any. */
  function Get<V>(d: Dict<V>, k: string): (r: Option<V>)
    ensures r.Some? <==> k in Keys(d)
    ensures r.Some? ==> (k, r.value) in d
  {
    if d == [] then None
    else if d[0].0 == k then
      assert Keys(d)[0] == k;
      Some(d[0].1)
    else
      assert Keys(d) == [d[0].0] + Keys(d[1..]);
      Get(d[1..], k)
  }

  /** In a dictionary every pair is what a lookup of its key returns. */
  lemma GetAt<V>(d: Dict<V>, i: nat)
    requires DistinctKeys(d) && i < |d|
    ensures Get(d, d[i].0) == Some(d[i].1)
  {
    var r := Get(d, d[i].0);
    assert Keys(d)[i] == d[i].0;
    var j :| 0 <= j < |d| && d[j] == (d[i].0, r.value);
  }

  /** A lookup in a dictionary extended by one new key. */
  lemma {:induction false} GetAppend<V>(d: Dict<V>, k: string, v: V, q: string)
    requires k !in Keys(d)
    ensures Get(d + [(k, v)], q) == if q == k then Some(v) else Get(d, q)
  {
    if d != [] {
      assert (d + [(k, v)])[1..] == d[1..] + [(k, v)];
      assert Keys(d) == [d[0].0] + Keys(d[1..]);
      GetAppend(d[1..], k, v, q);
    }
  }

  /** Dropping the last pair of a dictionary with distinct keys. */
  lemma KeysOfPrefix<V>(d: Dict<V>, n: nat)
    requires DistinctKeys(d) && n < |d|
    ensures d[n].0 !in Keys(d[..n])
    ensures DistinctKeys(d[..n])
  {
  }

  /** Lookups and keys of a dictionary with one pair in front. */
  lemma Cons<V>(x: (string, V), rest: Dict<V>)
    ensures Keys([x] + rest) == [x.0] + Keys(rest)
    ensures forall q :: Get([x] + rest, q) == if x.0 == q then Some(x.1) else Get(rest, q)
  {
    assert ([x] + rest)[1..] == rest;
  }

  /** `d[k] = v`: overwrite the value of an existing key where it stands, or append a new key. */
  function Put<V>(d: Dict<V>, k: string, v: V): (r: Dict<V>)
    ensures Get(r, k) == Some(v)
    ensures forall q :: q != k ==> Get(r, q) == Get(d, q)
    ensures Keys(r) == if k in Keys(d) then Keys(d) else Keys(d) + [k]
  {
    if d == [] then [(k, v)]
    else
      Cons(d[0], d[1..]);
      assert [d[0]] + d[1..] == d;
      if d[0].0 == k then
        Cons((k, v), d[1..]);
        [(k, v)] + d[1..]
      else
        var rest := Put(d[1..], k, v);
        Cons(d[0], rest);
        [d[0]] + rest
  }

  /** The key sequence with every occurrence of `k` left out, the rest in order. */
  function Without(ks: seq<string>, k: string): seq<string> {
    if ks == [] then []
    else (if ks[0] == k then [] else [ks[0]]) + Without(ks[1..], k)
  }

  /** `d.pop(k)` with its value discarded: the dictionary without the key, order kept. */
  function Remove<V>(d: Dict<V>, k: string): (r: Dict<V>)
    ensures Keys(r) == Without(Keys(d), k)
    ensures k !in Keys(r)
    ensures forall q :: q != k ==> Get(r, q) == Get(d, q)
    ensures forall i :: 0 <= i < |r| ==> r[i] in d && r[i].0 != k
    ensures forall i :: 0 <= i < |d| && d[i].0 != k ==> d[i] in r
  {
    if d == [] then []
    else
      var rest := Remove(d[1..], k);
      assert Keys(d) == [d[0].0] + Keys(d[1..]);
      if d[0].0 == k then rest
      else
        assert Keys([d[0]] + rest) == [d[0].0] + Keys(rest);
        [d[0]] + rest
  }

  /** The dictionary as a map, e.g. the data of a Kubernetes object. */
  function ToMap<V>(d: Dict<V>): (m: map<string, V>)
    ensures forall q :: q in m <==> q in Keys(d)
    ensures forall q :: q in m ==> Get(d, q) == Some(m[q])
  {
    map q | q in Keys(d) :: Get(d, q).value
  }
}
