/** Python's insertion-ordered `dict`: a sequence of key/value pairs whose
    keys are distinct. Assigning to a present key keeps its position;
    assigning to a new key appends it. */
module Dicts {

  import opened Wrappers
  import opened Seqs

  function Keys<K, V>(d: seq<(K, V)>): seq<K>
  {
    seq(|d|, i requires 0 <= i < |d| => d[i].0)
  }

  type Dict<K(==), V> = d: seq<(K, V)> | Distinct(Keys(d)) witness []

  /** The value stored under `k`, if any (`d[k]` or `KeyError`). */
  function Get<K(==), V>(d: Dict<K, V>, k: K): (r: Option<V>)
    ensures r.Some? <==> k in Keys(d)
    ensures r.Some? ==> (k, r.value) in d
  {
    if k in Keys(d) then Some(d[IndexOf(Keys(d), k)].1) else None
  }

  /** Because keys are distinct, the pair at any position is what `Get`
      finds for its key. */
  lemma GetAt<K, V>(d: Dict<K, V>, i: nat)
    requires i < |d|
    ensures Get(d, d[i].0) == Some(d[i].1)
  {
    IndexOfIs(Keys(d), d[i].0, i);
  }

  /** `d.get(k, default)`. */
  function GetOr<K(==), V>(d: Dict<K, V>, k: K, default: V): V
  {
    match Get(d, k)
    case Some(v) => v
    case None => default
  }

  /** `d[k] = v`. */
  function Put<K(==,!new), V>(d: Dict<K, V>, k: K, v: V): (r: Dict<K, V>)
    ensures Keys(r) == if k in Keys(d) then Keys(d) else Keys(d) + [k]
    ensures |d| <= |r|
    ensures forall i :: 0 <= i < |d| ==> r[i] == if d[i].0 == k then (k, v) else d[i]
    ensures k !in Keys(d) ==> r[|d|] == (k, v)
    ensures Get(r, k) == Some(v)
    ensures forall k' :: k' != k ==> Get(r, k') == Get(d, k')
  {
    if k in Keys(d) then
      var i := IndexOf(Keys(d), k);
      var r := d[i := (k, v)];
      assert forall j :: 0 <= j < |d| && j != i ==> d[j].0 == Keys(d)[j] != Keys(d)[i] == k;
      assert Keys(r) == Keys(d);
      GetAt(r, i);
      assert forall k' :: k' != k ==> Get(r, k') == Get(d, k') by {
        forall k' | k' != k
          ensures Get(r, k') == Get(d, k')
        {
          if k' in Keys(d) {
            var j := IndexOf(Keys(d), k');
            GetAt(r, j);
          }
        }
      }
      r
    else
      var r := d + [(k, v)];
      assert forall j :: 0 <= j < |d| ==> d[j].0 == Keys(d)[j] != k;
      assert Keys(r) == Keys(d) + [k];
      GetAt(r, |d|);
      assert forall k' :: k' != k ==> Get(r, k') == Get(d, k') by {
        forall k' | k' != k
          ensures Get(r, k') == Get(d, k')
        {
          if k' in Keys(d) {
            var j := IndexOf(Keys(d), k');
            GetAt(r, j);
          }
        }
      }
      r
  }

  /** After `d[k] = v` the dict holds `(k, v)` and otherwise only old pairs. */
  lemma PutMembers<K(!new), V>(d: Dict<K, V>, k: K, v: V)
    ensures forall h :: h in Put(d, k, v) ==> h in d || h == (k, v)
  {
    var r := Put(d, k, v);
    forall h | h in r
      ensures h in d || h == (k, v)
    {
      var i :| 0 <= i < |r| && r[i] == h;
    }
  }

  /** The key of every pair is among the keys. */
  lemma KeyOfMember<K, V>(d: seq<(K, V)>)
    ensures forall p :: p in d ==> p.0 in Keys(d)
  {
    forall p | p in d
      ensures p.0 in Keys(d)
    {
      var i :| 0 <= i < |d| && d[i] == p;
      assert Keys(d)[i] == p.0;
    }
  }

  /** Distinct keys: a pair with the key of the `j`-th entry is that entry. */
  lemma SameKeySameEntry<K, V>(d: seq<(K, V)>, p: (K, V), j: nat)
    requires Distinct(Keys(d)) && p in d && j < |d| && p.0 == d[j].0
    ensures p == d[j]
  {
    var i :| 0 <= i < |d| && d[i] == p;
    assert Keys(d)[i] == Keys(d)[j];
  }

  /** Assigning twice to one key keeps only the second value. */
  lemma PutOverwrite<K(!new), V>(d: Dict<K, V>, k: K, v: V, w: V)
    ensures Put(Put(d, k, v), k, w) == Put(d, k, w)
  {
    var d1 := Put(d, k, v);
    var r := Put(d1, k, w);
    var e := Put(d, k, w);
    assert k in Keys(d1);
    assert |r| == |Keys(r)| == |Keys(e)| == |e|;
    forall i | 0 <= i < |r|
      ensures r[i] == e[i]
    {
      if i < |d| {
        assert r[i] == if d1[i].0 == k then (k, w) else d1[i];
      } else {
        assert d1[i] == (k, v);
      }
    }
  }

  /** Assigning the value a key already holds changes nothing. */
  lemma PutPresent<K(!new), V>(d: Dict<K, V>, k: K, v: V)
    requires Get(d, k) == Some(v)
    ensures Put(d, k, v) == d
  {
    var r := Put(d, k, v);
    assert |r| == |Keys(r)| == |Keys(d)| == |d|;
    forall i | 0 <= i < |d|
      ensures r[i] == d[i]
    {
      if d[i].0 == k {
        GetAt(d, i);
      }
    }
  }

  /** Assigning a pair of keys again, the first with the value it already
      has, only replaces the second value. */
  lemma PutPairAgain<K(!new), V>(d: Dict<K, V>, k1: K, v1: V, k2: K, w1: V, w2: V)
    requires k1 != k2
    ensures Put(Put(Put(Put(d, k1, v1), k2, w1), k1, v1), k2, w2) == Put(Put(d, k1, v1), k2, w2)
  {
    var a := Put(d, k1, v1);
    var once := Put(a, k2, w1);
    assert Get(once, k1) == Some(v1);
    PutPresent(once, k1, v1);
    PutOverwrite(a, k2, w1, w2);
  }

  /** Two assignments to different keys: both values are stored, every
      other key keeps its value, and at most two keys are added at the end. */
  lemma PutTwo<K(!new), V>(d: Dict<K, V>, k1: K, v1: V, k2: K, v2: V)
    requires k1 != k2
    ensures var r := Put(Put(d, k1, v1), k2, v2);
      && Get(r, k1) == Some(v1) && Get(r, k2) == Some(v2)
      && (forall k :: k != k1 && k != k2 ==> Get(r, k) == Get(d, k))
      && Keys(d) <= Keys(r) && |r| <= |d| + 2
  {
    var a := Put(d, k1, v1);
    assert Keys(d) <= Keys(a);
    assert Keys(a) <= Keys(Put(a, k2, v2));
  }

  /** Two new keys are appended in order. */
  lemma PutTwoNew<K(!new), V>(d: Dict<K, V>, k1: K, v1: V, k2: K, v2: V)
    requires k1 != k2 && k1 !in Keys(d) && k2 !in Keys(d)
    ensures Keys(Put(Put(d, k1, v1), k2, v2)) == Keys(d) + [k1, k2]
  {
    var a := Put(d, k1, v1);
    var ka := Keys(d) + [k1];
    assert Keys(a) == ka;
    assert k2 !in ka;
    assert ka + [k2] == Keys(d) + [k1, k2];
  }

  /** The comprehension `{k: f(k) for k in ks}`: one assignment per key,
      in order. */
  function FromKeys<K(==,!new), V>(ks: seq<K>, f: K -> V): Dict<K, V>
  {
    if |ks| == 0 then []
    else Put(FromKeys(ks[..|ks| - 1], f), ks[|ks| - 1], f(ks[|ks| - 1]))
  }

  /** One entry per distinct key, in order of first occurrence. */
  lemma {:induction false} FromKeysKeys<K(!new), V>(ks: seq<K>, f: K -> V)
    ensures Keys(FromKeys(ks, f)) == Dedup(ks)
  {
    if |ks| > 0 {
      var prefix := ks[..|ks| - 1];
      var k := ks[|ks| - 1];
      FromKeysKeys(prefix, f);
      assert ks == prefix + [k];
      DedupSnoc(prefix, k);
    }
  }

  /** Every entry holds the value of its key. */
  lemma {:induction false} FromKeysValues<K(!new), V>(ks: seq<K>, f: K -> V)
    ensures forall p :: p in FromKeys(ks, f) ==> p.1 == f(p.0)
  {
    if |ks| > 0 {
      var prefix := ks[..|ks| - 1];
      var k := ks[|ks| - 1];
      FromKeysValues(prefix, f);
      PutMembers(FromKeys(prefix, f), k, f(k));
    }
  }
}
