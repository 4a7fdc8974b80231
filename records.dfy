/** A JavaScript object used as a dictionary (`Record<string, V>`): its
    entries in insertion order, which is the order `Object.keys` and
    `Object.values` enumerate for the non-numeric keys used here. Assigning to
    an existing key replaces the value in place; a new key is appended. */
module Records {
  import opened Util

  type Record<V> = seq<(string, V)>

  ghost predicate DistinctKeys<V>(r: Record<V>) {
    forall i, j | 0 <= i < |r| && 0 <= j < |r| && i != j :: r[i].0 != r[j].0
  }

  /** `Object.keys(r)` */
  function Keys<V>(r: Record<V>): (ks: seq<string>)
    ensures |ks| == |r|
    ensures forall i | 0 <= i < |r| :: ks[i] == r[i].0
  {
    seq(|r|, i requires 0 <= i < |r| => r[i].0)
  }

  /** `Object.values(r)` */
  function Values<V>(r: Record<V>): (vs: seq<V>)
    ensures |vs| == |r|
    ensures forall i | 0 <= i < |r| :: vs[i] == r[i].1
  {
    seq(|r|, i requires 0 <= i < |r| => r[i].1)
  }

  /** `r[k]`, with `undefined` as None: the value of the first entry with key k. */
  function Get<V>(r: Record<V>, k: string): (o: Option<V>)
    ensures o.None? <==> forall i | 0 <= i < |r| :: r[i].0 != k
    ensures o.Some? ==> exists i | 0 <= i < |r| :: r[i] == (k, o.value)
  {
    if |r| == 0 then None
    else if r[0].0 == k then Some(r[0].1)
    else Get(r[1..], k)
  }

  /** `r[k] = v` */
  function Put<V>(r: Record<V>, k: string, v: V): (r': Record<V>)
    ensures Get(r', k) == Some(v)
    ensures forall k' | k' != k :: Get(r', k') == Get(r, k')
  {
    if |r| == 0 then [(k, v)]
    else if r[0].0 == k then [(k, v)] + r[1..]
    else [r[0]] + Put(r[1..], k, v)
  }

  /** Assigning a known key keeps the keys and their order; a new key goes
      last. */
  lemma {:induction false} PutKeepsOrder<V>(r: Record<V>, k: string, v: V)
    ensures Get(r, k).Some? ==>
      && |Put(r, k, v)| == |r|
      && forall i | 0 <= i < |r| :: Put(r, k, v)[i].0 == r[i].0
    ensures Get(r, k).None? ==> Put(r, k, v) == r + [(k, v)]
  {
    if |r| > 0 && r[0].0 != k {
      PutKeepsOrder(r[1..], k, v);
      var t := Put(r[1..], k, v);
      assert Put(r, k, v) == [r[0]] + t;
      if Get(r, k).Some? {
        forall i | 1 <= i < |r| ensures Put(r, k, v)[i].0 == r[i].0 {
          assert Put(r, k, v)[i] == t[i - 1] && r[1..][i - 1] == r[i];
        }
      } else {
        assert r == [r[0]] + r[1..];
      }
    } else if |r| > 0 {
      forall i | 1 <= i < |r| ensures Put(r, k, v)[i].0 == r[i].0 {
        assert Put(r, k, v)[i] == r[1..][i - 1];
      }
    }
  }

  lemma PutDistinct<V>(r: Record<V>, k: string, v: V)
    requires DistinctKeys(r)
    ensures DistinctKeys(Put(r, k, v))
  {
    PutKeepsOrder(r, k, v);
    var r' := Put(r, k, v);
    if Get(r, k).Some? {
      forall i, j | 0 <= i < |r'| && 0 <= j < |r'| && i != j ensures r'[i].0 != r'[j].0 {
        assert r'[i].0 == r[i].0 && r'[j].0 == r[j].0;
      }
    }
  }

  lemma GetOfDistinct<V>(r: Record<V>, i: nat)
    requires DistinctKeys(r) && i < |r|
    ensures Get(r, r[i].0) == Some(r[i].1)
  {
    if i > 0 {
      GetOfDistinct(r[1..], i - 1);
    }
  }

  /** A second assignment to the same key overwrites the first. */
  lemma {:induction false} PutPut<V>(r: Record<V>, k: string, a: V, b: V)
    ensures Put(Put(r, k, a), k, b) == Put(r, k, b)
  {
    if |r| > 0 && r[0].0 != k {
      PutPut(r[1..], k, a, b);
    }
  }
}
