/**
 * Ordered dictionaries with string keys, the shape of a PHP array used as a map:
 * keys stay in the order in which they were first stored, and storing under an
 * existing key replaces its value in place.
 */
module Assoc {
  import opened Wrappers

  type Dict<V> = seq<(string, V)>

  /** No key is stored twice. */
  predicate DistinctKeys<V>(d: Dict<V>) {
    forall a, b :: 0 <= a < b < |d| ==> d[a].0 != d[b].0
  }

  /** The position of key `k`, if it is stored. */
  function Find<V>(d: Dict<V>, k: string): (r: Option<nat>)
    ensures r.Some? ==> r.value < |d| && d[r.value].0 == k
  {
    if |d| == 0 then None
    else if d[0].0 == k then Some(0)
    else match Find(d[1..], k)
      case None => None
      case Some(j) => Some(j + 1)
  }

  /** A key is found at its first position, and only a missing key is not found. */
  lemma {:induction false} FindFirst<V>(d: Dict<V>, k: string)
    ensures Find(d, k).Some? ==> forall j :: 0 <= j < Find(d, k).value ==> d[j].0 != k
    ensures Find(d, k).None? <==> forall j :: 0 <= j < |d| ==> d[j].0 != k
  {
    if |d| > 0 && d[0].0 != k {
      FindFirst(d[1..], k);
      assert forall j :: 1 <= j < |d| ==> d[j] == d[1..][j - 1];
    }
  }

  /** `isset($d[$k]) ? $d[$k] : null`. */
  function Get<V>(d: Dict<V>, k: string): (r: Option<V>)
    ensures r.Some? <==> Find(d, k).Some?
    ensures r.Some? ==> d[Find(d, k).value].1 == r.value
  {
    match Find(d, k)
    case None => None
    case Some(j) => Some(d[j].1)
  }

  /** `$d[$k] = $v`: replace in place when present, append otherwise. */
  function Put<V>(d: Dict<V>, k: string, v: V): (r: Dict<V>)
    ensures Find(d, k).Some? ==> r == d[Find(d, k).value := (k, v)]
    ensures Find(d, k).None? ==> r == d + [(k, v)]
  {
    match Find(d, k)
    case None => d + [(k, v)]
    case Some(j) => d[j := (k, v)]
  }

  /** After `$d[$k] = $v`, key `k` reads back `v`, every other key reads as before, and no key is doubled. */
  lemma PutGet<V>(d: Dict<V>, k: string, v: V, other: string)
    requires DistinctKeys(d)
    ensures DistinctKeys(Put(d, k, v))
    ensures Get(Put(d, k, v), k) == Some(v)
    ensures other != k ==> Get(Put(d, k, v), other) == Get(d, other)
  {
    var r := Put(d, k, v);
    FindFirst(d, k);
    FindFirst(r, k);
    FindFirst(d, other);
    FindFirst(r, other);
    if Find(d, k).None? {
      assert r[|d|] == (k, v);
    } else {
      assert r[Find(d, k).value] == (k, v);
    }
    if other != k {
      if Find(d, other).None? {
        assert forall m :: 0 <= m < |r| ==> r[m].0 != other;
      } else {
        assert r[Find(d, other).value] == d[Find(d, other).value];
      }
    }
  }

  /** `$d[$k] = $v` forgets no key and records `k`, whether or not keys are distinct. */
  lemma PutKeeps<V>(d: Dict<V>, k: string, v: V, other: string)
    ensures Get(Put(d, k, v), k).Some?
    ensures Get(d, other).Some? ==> Get(Put(d, k, v), other).Some?
  {
    var r := Put(d, k, v);
    FindFirst(d, k);
    FindFirst(r, k);
    FindFirst(r, other);
    if Find(d, k).None? {
      assert r[|d|].0 == k;
    } else {
      assert r[Find(d, k).value].0 == k;
    }
    if Find(d, other).Some? {
      assert r[Find(d, other).value].0 == other;
    }
  }

  /** The keys, in order. */
  function Keys<V>(d: Dict<V>): (r: seq<string>)
    ensures |r| == |d| && forall j :: 0 <= j < |d| ==> r[j] == d[j].0
  {
    seq(|d|, j requires 0 <= j < |d| => d[j].0)
  }
}
