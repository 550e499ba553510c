/**
 * Python's insertion-ordered `dict`, as a sequence of key/value entries.
 * Assigning `d[k] = v` replaces the value in place when `k` is already a key
 * (its position is kept) and appends a new entry otherwise.
 */
module OrderedMaps {
  import opened Wrappers

  /** The keys in iteration order. */
  function Keys<K, V>(m: seq<(K, V)>): (ks: seq<K>)
    ensures |ks| == |m|
    ensures forall i :: 0 <= i < |m| ==> ks[i] == m[i].0
  {
    if |m| == 0 then [] else [m[0].0] + Keys(m[1..])
  }

  /** No key appears twice, as in every dict. */
  predicate DistinctKeys<K(==), V>(m: seq<(K, V)>) {
    forall i, j :: 0 <= i < j < |m| ==> m[i].0 != m[j].0
  }

  /** The position of `k`, if it is a key. */
  function IndexOf<K(==), V>(m: seq<(K, V)>, k: K): (r: Option<nat>)
    ensures r.Some? ==> r.value < |m| && m[r.value].0 == k
    ensures r.Some? ==> forall j :: 0 <= j < r.value ==> m[j].0 != k
    ensures r.None? ==> forall j :: 0 <= j < |m| ==> m[j].0 != k
  {
    if |m| == 0 then None
    else if m[0].0 == k then Some(0)
    else match IndexOf(m[1..], k)
      case None => None
      case Some(i) => Some(i + 1)
  }

  /** `d.get(k)`: the value stored under `k`, None when `k` is not a key. */
  function Get<K(==), V>(m: seq<(K, V)>, k: K): (r: Option<V>)
    ensures r.None? <==> k !in Keys(m)
    ensures r.Some? ==> (k, r.value) in m
  {
    match IndexOf(m, k)
    case None => None
    case Some(i) => Some(m[i].1)
  }

  /** `d[k] = v`: the entry `(k, v)` is stored, and the dict grows only for
      a new key (`PutPlaces` says where each entry ends up). */
  function Put<K(==), V>(m: seq<(K, V)>, k: K, v: V): (r: seq<(K, V)>)
    ensures (k, v) in r
    ensures |r| == if k in Keys(m) then |m| else |m| + 1
  {
    match IndexOf(m, k)
    case None => m + [(k, v)]
    case Some(i) =>
      var r := m[i := (k, v)];
      assert r[i] == (k, v);
      assert forall j :: 0 <= j < |m| && m[j].0 != k ==> r[j] == m[j];
      r
  }

  /** Where assignment puts things: a known key's entry is replaced at its
      position, a new key's entry goes last, and every entry for another key
      stays where it was. */
  lemma PutPlaces<K, V>(m: seq<(K, V)>, k: K, v: V)
    ensures IndexOf(m, k).Some? ==> Put(m, k, v)[IndexOf(m, k).value] == (k, v)
    ensures IndexOf(m, k).None? ==> Put(m, k, v)[|m|] == (k, v)
    ensures forall j :: 0 <= j < |m| && m[j].0 != k ==> Put(m, k, v)[j] == m[j]
  {
    if IndexOf(m, k).None? {
      assert Put(m, k, v) == m + [(k, v)];
    }
  }

  /** Assigning a new key appends its entry. */
  lemma PutNew<K, V>(m: seq<(K, V)>, k: K, v: V)
    requires k !in Keys(m)
    ensures Put(m, k, v) == m + [(k, v)]
  {
  }

  /** Assignment keeps the keys' order: a known key stays where it is, a new key goes last. */
  lemma PutKeys<K, V>(m: seq<(K, V)>, k: K, v: V)
    ensures Keys(Put(m, k, v)) == if k in Keys(m) then Keys(m) else Keys(m) + [k]
  {
    if k in Keys(m) {
      var j :| 0 <= j < |m| && Keys(m)[j] == k;
      assert IndexOf(m, k).Some?;
    }
  }

  /** The first position holding `k` is the one `IndexOf` reports. */
  lemma IndexOfFirst<K, V>(m: seq<(K, V)>, k: K, i: nat)
    requires i < |m| && m[i].0 == k
    requires forall j :: 0 <= j < i ==> m[j].0 != k
    ensures IndexOf(m, k) == Some(i)
  {
  }

  /** Reading after assignment: the assigned key gives the new value, every other key its old one. */
  lemma PutGet<K, V>(m: seq<(K, V)>, k: K, v: V, k': K)
    ensures Get(Put(m, k, v), k') == if k' == k then Some(v) else Get(m, k')
  {
    var m' := Put(m, k, v);
    match IndexOf(m, k)
    case None =>
      if k' == k {
        IndexOfFirst(m', k', |m|);
      } else if IndexOf(m, k').Some? {
        IndexOfFirst(m', k', IndexOf(m, k').value);
      } else {
        assert forall j :: 0 <= j < |m'| ==> m'[j].0 != k' by {
          forall j | 0 <= j < |m'| ensures m'[j].0 != k' {
            if j < |m| { assert m'[j] == m[j]; }
          }
        }
      }
    case Some(i) =>
      if k' == k {
        IndexOfFirst(m', k', i);
      } else if IndexOf(m, k').Some? {
        IndexOfFirst(m', k', IndexOf(m, k').value);
      }
  }

  /** Assignment keeps the keys distinct. */
  lemma PutDistinct<K, V>(m: seq<(K, V)>, k: K, v: V)
    requires DistinctKeys(m)
    ensures DistinctKeys(Put(m, k, v))
  {
  }

  /** The dict `dict(pairs)` builds: `d[k] = v` for every pair in order. */
  function FromPairs<K(==), V>(pairs: seq<(K, V)>): (d: seq<(K, V)>)
    ensures DistinctKeys(d)
    decreases |pairs|
  {
    if |pairs| == 0 then []
    else
      var d0 := FromPairs(pairs[..|pairs| - 1]);
      PutDistinct(d0, pairs[|pairs| - 1].0, pairs[|pairs| - 1].1);
      Put(d0, pairs[|pairs| - 1].0, pairs[|pairs| - 1].1)
  }

  /** One more pair keeps the first occurrence of every earlier key and makes
      a new key's first occurrence the last position. */
  lemma IndexOfExtend<K, V>(m: seq<(K, V)>, e: (K, V), k: K)
    ensures IndexOf(m + [e], k) == if IndexOf(m, k).Some? then IndexOf(m, k)
                                   else if e.0 == k then Some(|m|) else None
  {
    var m' := m + [e];
    if IndexOf(m, k).Some? {
      IndexOfFirst(m', k, IndexOf(m, k).value);
    } else if e.0 == k {
      IndexOfFirst(m', k, |m|);
    } else {
      assert forall j :: 0 <= j < |m'| ==> m'[j].0 != k by {
        forall j | 0 <= j < |m'| ensures m'[j].0 != k {
          if j < |m| { assert m'[j] == m[j]; }
        }
      }
    }
  }

  /** The key at each position after `d[k] = v`: the old one, or `k` in the new last place. */
  lemma PutKeyAt<K, V>(m: seq<(K, V)>, k: K, v: V, i: nat)
    requires i < |Put(m, k, v)|
    ensures Put(m, k, v)[i].0 == if i < |m| then m[i].0 else k
    ensures i >= |m| ==> k !in Keys(m)
  {
    PutKeys(m, k, v);
    assert Keys(Put(m, k, v))[i] == Put(m, k, v)[i].0;
    if i < |m| {
      assert Keys(m)[i] == m[i].0;
    }
  }

  /** A key `d` holds is first met in `pairs`; its position in `d` follows that order. */
  predicate FirstOccurrenceOrder<K(==), V>(pairs: seq<(K, V)>, d: seq<(K, V)>) {
    && (forall i :: 0 <= i < |pairs| ==> pairs[i].0 in Keys(d))
    && (forall i :: 0 <= i < |d| ==> IndexOf(pairs, d[i].0).Some?)
    && (forall i, j :: 0 <= i < j < |d| ==>
          IndexOf(pairs, d[i].0).value < IndexOf(pairs, d[j].0).value)
  }

  /** The step of `FromPairsKeys`: storing one more pair keeps the order. */
  lemma FromPairsStep<K, V>(init: seq<(K, V)>, e: (K, V), d0: seq<(K, V)>)
    requires FirstOccurrenceOrder(init, d0)
    ensures FirstOccurrenceOrder(init + [e], Put(d0, e.0, e.1))
  {
    var d := Put(d0, e.0, e.1);
    var pairs := init + [e];
    PutKeys(d0, e.0, e.1);
    forall i | 0 <= i < |pairs| ensures pairs[i].0 in Keys(d) {
      if i < |init| {
        assert pairs[i] == init[i];
      }
    }
    forall i | 0 <= i < |d| ensures IndexOf(pairs, d[i].0).Some? {
      PutKeyAt(d0, e.0, e.1, i);
      IndexOfExtend(init, e, d[i].0);
    }
    forall i, j | 0 <= i < j < |d|
      ensures IndexOf(pairs, d[i].0).value < IndexOf(pairs, d[j].0).value
    {
      StepOrdered(init, e, d0, i, j);
    }
  }

  /** Two positions of the dict after one more pair keep their first-occurrence order. */
  lemma StepOrdered<K, V>(init: seq<(K, V)>, e: (K, V), d0: seq<(K, V)>, i: nat, j: nat)
    requires FirstOccurrenceOrder(init, d0)
    requires i < j < |Put(d0, e.0, e.1)|
    ensures IndexOf(init + [e], Put(d0, e.0, e.1)[i].0).Some?
    ensures IndexOf(init + [e], Put(d0, e.0, e.1)[j].0).Some?
    ensures IndexOf(init + [e], Put(d0, e.0, e.1)[i].0).value
            < IndexOf(init + [e], Put(d0, e.0, e.1)[j].0).value
  {
    var d := Put(d0, e.0, e.1);
    PutKeyAt(d0, e.0, e.1, i);
    PutKeyAt(d0, e.0, e.1, j);
    IndexOfExtend(init, e, d[i].0);
    IndexOfExtend(init, e, d[j].0);
    if j >= |d0| {
      assert Keys(d0)[i] == d0[i].0;
    }
  }

  /** The keys of `dict(pairs)` are the keys the pairs carry, each once, in
      the order of their first occurrence. */
  lemma {:induction false} FromPairsKeys<K, V>(pairs: seq<(K, V)>)
    ensures FirstOccurrenceOrder(pairs, FromPairs(pairs))
    decreases |pairs|
  {
    if |pairs| > 0 {
      var init := pairs[..|pairs| - 1];
      var e := pairs[|pairs| - 1];
      assert pairs == init + [e];
      FromPairsKeys(init);
      FromPairsStep(init, e, FromPairs(init));
    }
  }

  /** `v` is the value of the last pair carrying `k`. */
  predicate LastValue<K(==), V(==)>(pairs: seq<(K, V)>, k: K, v: V) {
    exists i :: 0 <= i < |pairs| && pairs[i] == (k, v) && forall j :: i < j < |pairs| ==> pairs[j].0 != k
  }

  /** A pair for another key leaves the last value of `k` as it was. */
  lemma LastValueExtend<K, V>(init: seq<(K, V)>, e: (K, V), k: K, v: V)
    requires e.0 != k && LastValue(init, k, v)
    ensures LastValue(init + [e], k, v)
  {
    var pairs := init + [e];
    var i :| 0 <= i < |init| && init[i] == (k, v) && forall j :: i < j < |init| ==> init[j].0 != k;
    assert pairs[i] == init[i];
    assert forall j :: i < j < |pairs| ==> pairs[j].0 != k by {
      forall j | i < j < |pairs| ensures pairs[j].0 != k {
        if j < |init| { assert pairs[j] == init[j]; }
      }
    }
  }

  /** Reading the built dict: a key no pair carries is missing, and any other
      key holds the value of its last pair. */
  lemma {:induction false} FromPairsGet<K, V>(pairs: seq<(K, V)>, k: K)
    ensures Get(FromPairs(pairs), k).None? <==> forall i :: 0 <= i < |pairs| ==> pairs[i].0 != k
    ensures Get(FromPairs(pairs), k).Some? ==> LastValue(pairs, k, Get(FromPairs(pairs), k).value)
    decreases |pairs|
  {
    if |pairs| > 0 {
      var init := pairs[..|pairs| - 1];
      var e := pairs[|pairs| - 1];
      assert pairs == init + [e];
      FromPairsGet(init, k);
      PutGet(FromPairs(init), e.0, e.1, k);
      if e.0 == k {
        assert pairs[|pairs| - 1] == (k, e.1);
        assert LastValue(pairs, k, e.1);
      } else {
        assert forall i :: 0 <= i < |init| ==> pairs[i] == init[i];
        if Get(FromPairs(init), k).Some? {
          LastValueExtend(init, e, k, Get(FromPairs(init), k).value);
        }
      }
    }
  }
}
