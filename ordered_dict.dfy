/** A Python dict as an association list in insertion order. Assigning to a
    key that is present replaces its value in place; a new key goes last.
    These are the only dict operations the modelled scripts use. */
module OrderedDict {
  import opened Common

  type Dict<K, V> = seq<(K, V)>

  /** The keys in iteration order (`list(d)`). */
  function Keys<K, V>(d: Dict<K, V>): seq<K> {
    seq(|d|, i requires 0 <= i < |d| => d[i].0)
  }

  /** A real dict never repeats a key. */
  predicate IsDict<K(==), V>(d: Dict<K, V>) {
    Distinct(Keys(d))
  }

  /** The set of the keys, built one key at a time. */
  function KeySet<K(!new), V>(d: Dict<K, V>): (r: set<K>)
    ensures forall k :: k in r <==> k in Keys(d)
  {
    if d == [] then {}
    else
      var d' := d[..|d| - 1];
      assert forall k :: k in Keys(d) <==> k in Keys(d') || k == d[|d| - 1].0 by {
        assert Keys(d) == Keys(d') + [d[|d| - 1].0];
      }
      KeySet(d') + {d[|d| - 1].0}
  }

  /** The position of key `k`: its first occurrence. */
  function IndexOf<K(==), V>(d: Dict<K, V>, k: K): (i: nat)
    requires k in Keys(d)
    ensures i < |d| && d[i].0 == k
    ensures forall j :: 0 <= j < i ==> d[j].0 != k
  {
    if d[0].0 == k then 0
    else
      assert k in Keys(d[1..]) by {
        var m :| 0 <= m < |d| && Keys(d)[m] == k;
        assert Keys(d[1..])[m - 1] == k;
      }
      1 + IndexOf(d[1..], k)
  }

  /** `d.get(k)`: the value stored under `k`, if any. */
  function Get<K(==), V>(d: Dict<K, V>, k: K): Option<V> {
    if k in Keys(d) then Some(d[IndexOf(d, k)].1) else None
  }

  /** `d[k] = v`. */
  function Put<K(==,!new), V>(d: Dict<K, V>, k: K, v: V): (r: Dict<K, V>)
    ensures Keys(r) == if k in Keys(d) then Keys(d) else Keys(d) + [k]
    ensures Get(r, k) == Some(v)
    ensures forall k' :: k' != k ==> Get(r, k') == Get(d, k')
    ensures IsDict(d) ==> IsDict(r)
  {
    if k in Keys(d) then
      var i := IndexOf(d, k);
      var r := d[i := (k, v)];
      assert Keys(r) == Keys(d);
      assert IndexOf(r, k) == i by {
        assert r[i].0 == k;
      }
      forall k' | k' != k
        ensures Get(r, k') == Get(d, k')
      {
        if k' in Keys(d) {
          var j, j' := IndexOf(d, k'), IndexOf(r, k');
          assert j != i && j' != i;
          assert r[j].0 == k' && d[j'].0 == k';
          assert j' == j;
        }
      }
      r
    else
      var r := d + [(k, v)];
      assert Keys(r) == Keys(d) + [k];
      assert forall j :: 0 <= j < |d| ==> r[j].0 == Keys(d)[j];
      assert IndexOf(r, k) == |d|;
      forall k' | k' != k
        ensures Get(r, k') == Get(d, k')
      {
        if k' in Keys(d) {
          var j, j' := IndexOf(d, k'), IndexOf(r, k');
          assert r[j].0 == k';
          assert j' < |d| && d[j'].0 == k';
          assert j' == j;
        }
      }
      r
  }

  /** `for k in ks: d[k] = v`. */
  function PutEach<K(==,!new), V>(d: Dict<K, V>, ks: seq<K>, v: V): (r: Dict<K, V>)
    ensures forall k :: Get(r, k) == if k in ks then Some(v) else Get(d, k)
    ensures IsDict(d) ==> IsDict(r)
  {
    if ks == [] then d
    else
      var ks' := ks[..|ks| - 1];
      assert forall k :: k in ks <==> k in ks' || k == ks[|ks| - 1];
      Put(PutEach(d, ks', v), ks[|ks| - 1], v)
  }

  /** `for k, v in kvs: d[k] = v`. */
  function PutAll<K(==,!new), V>(d: Dict<K, V>, kvs: seq<(K, V)>): (r: Dict<K, V>)
    ensures IsDict(d) ==> IsDict(r)
  {
    if kvs == [] then d
    else Put(PutAll(d, kvs[..|kvs| - 1]), kvs[|kvs| - 1].0, kvs[|kvs| - 1].1)
  }

  /** `if k not in d: d[k] = []` then `d[k].append(v)`. */
  function Append<K(==,!new), V>(d: Dict<K, seq<V>>, k: K, v: V): Dict<K, seq<V>> {
    Put(d, k, Get(d, k).GetOr([]) + [v])
  }

  /** `Append` for every key of `ks` in turn, always with the same value. */
  function AppendEach<K(==,!new), V>(d: Dict<K, seq<V>>, ks: seq<K>, v: V): (r: Dict<K, seq<V>>)
    ensures IsDict(d) ==> IsDict(r)
  {
    if ks == [] then d
    else Append(AppendEach(d, ks[..|ks| - 1], v), ks[|ks| - 1], v)
  }

  /** `n` copies of `v`. */
  function Repeat<V>(v: V, n: nat): (r: seq<V>)
    ensures |r| == n && forall i :: 0 <= i < n ==> r[i] == v
  {
    seq(n, _ => v)
  }

  /** Keys assigned after those of a dict appear in the order of their first
      assignment, after the keys already present. */
  lemma {:induction false} PutEachKeys<K(!new), V>(d: Dict<K, V>, ks: seq<K>, v: V)
    requires IsDict(d)
    ensures Keys(PutEach(d, ks, v)) == FirstOccurrences(Keys(d) + ks)
  {
    if ks == [] {
      assert Keys(d) + ks == Keys(d);
      FirstOccurrencesOfDistinct(Keys(d));
    } else {
      var ks' := ks[..|ks| - 1];
      PutEachKeys(d, ks', v);
      assert (Keys(d) + ks)[..|Keys(d) + ks| - 1] == Keys(d) + ks';
    }
  }

  /** `AppendEach` gives every key the values it had, followed by one copy of
      `v` per occurrence of the key in `ks`; a key is present iff it was
      present before or occurs in `ks`. */
  lemma {:induction false} AppendEachGet<K(!new), V>(d: Dict<K, seq<V>>, ks: seq<K>, v: V, x: K)
    ensures Get(AppendEach(d, ks, v), x).Some? <==> Get(d, x).Some? || x in ks
    ensures Get(AppendEach(d, ks, v), x).GetOr([]) == Get(d, x).GetOr([]) + Repeat(v, multiset(ks)[x])
  {
    if ks == [] {
      assert Get(d, x).GetOr([]) + Repeat(v, 0) == Get(d, x).GetOr([]);
    } else {
      var ks' := ks[..|ks| - 1];
      var k := ks[|ks| - 1];
      assert ks == ks' + [k];
      AppendEachGet(d, ks', v, x);
      var before := Get(d, x).GetOr([]);
      if k == x {
        assert multiset(ks)[x] == multiset(ks')[x] + 1;
        assert before + Repeat(v, multiset(ks')[x]) + [v] == before + Repeat(v, multiset(ks)[x]);
      } else {
        assert multiset(ks)[x] == multiset(ks')[x];
      }
    }
  }

  /** Keys appended after those of a dict appear in the order of their first
      occurrence in `ks`. */
  lemma {:induction false} AppendEachKeys<K(!new), V>(d: Dict<K, seq<V>>, ks: seq<K>, v: V)
    requires IsDict(d)
    ensures Keys(AppendEach(d, ks, v)) == FirstOccurrences(Keys(d) + ks)
  {
    if ks == [] {
      assert Keys(d) + ks == Keys(d);
      FirstOccurrencesOfDistinct(Keys(d));
    } else {
      var ks' := ks[..|ks| - 1];
      AppendEachKeys(d, ks', v);
      assert (Keys(d) + ks)[..|Keys(d) + ks| - 1] == Keys(d) + ks';
    }
  }

  /** Assigning pairwise different keys into an empty dict yields exactly
      those pairs, in that order. */
  lemma {:induction false} PutAllDistinct<K(!new), V>(kvs: seq<(K, V)>)
    requires Distinct(Keys(kvs))
    ensures PutAll([], kvs) == kvs
  {
    if kvs != [] {
      var kvs' := kvs[..|kvs| - 1];
      assert Keys(kvs') == Keys(kvs)[..|kvs| - 1];
      PutAllDistinct(kvs');
      assert kvs[|kvs| - 1].0 == Keys(kvs)[|kvs| - 1];
      assert kvs[|kvs| - 1].0 !in Keys(kvs');
      assert kvs == kvs' + [kvs[|kvs| - 1]];
    }
  }

  /** In a dict, a key is found in the last entry or else among the entries
      before it. */
  lemma GetLast<K(!new), V>(d: Dict<K, V>, k: K)
    requires IsDict(d) && d != []
    ensures IsDict(d[..|d| - 1])
    ensures Get(d, k) == if k == d[|d| - 1].0 then Some(d[|d| - 1].1) else Get(d[..|d| - 1], k)
  {
    var d' := d[..|d| - 1];
    assert Keys(d') == Keys(d)[..|d| - 1];
    assert Keys(d)[|d| - 1] == d[|d| - 1].0;
    assert d[|d| - 1].0 !in Keys(d');
    assert d == d' + [d[|d| - 1]];
    assert Put(d', d[|d| - 1].0, d[|d| - 1].1) == d;
  }

  /** In a dict, the value found for the key at position `i` is the one stored there. */
  lemma GetAt<K(!new), V>(d: Dict<K, V>, i: int)
    requires IsDict(d) && 0 <= i < |d|
    ensures Get(d, d[i].0) == Some(d[i].1)
  {
    assert Keys(d)[i] == d[i].0;
    var j := IndexOf(d, d[i].0);
    assert Keys(d)[j] == Keys(d)[i];
  }
}
