/**
 A PHP array with string keys, as the command registry uses it: an association
 list in insertion order, where writing an existing key replaces its value in
 place and writing a new key appends it.
 */
module OrderedMaps {
  import opened Nullable

  datatype Entry<+V> = Entry(key: string, value: V)

  function Keys<V>(m: seq<Entry<V>>): (ks: seq<string>)
    ensures |ks| == |m|
    ensures forall i :: 0 <= i < |m| ==> ks[i] == m[i].key
  {
    seq(|m|, i requires 0 <= i < |m| => m[i].key)
  }

  /** No key occurs twice, as in every PHP array. */
  predicate UniqueKeys<V>(m: seq<Entry<V>>) {
    forall i, j :: 0 <= i < j < |m| ==> m[i].key != m[j].key
  }

  /** Position of the first entry under `k`. */
  function FindIndex<V>(m: seq<Entry<V>>, k: string): (r: Option<nat>)
    ensures r.Some? ==> r.value < |m| && m[r.value].key == k
    ensures r.Some? ==> forall j :: 0 <= j < r.value ==> m[j].key != k
    ensures r.None? <==> forall i :: 0 <= i < |m| ==> m[i].key != k
  {
    if |m| == 0 then None
    else if m[0].key == k then Some(0)
    else
      match FindIndex(m[1..], k)
      case None => None
      case Some(i) => Some(i + 1)
  }

  /** `isset($m[$k])`. */
  predicate Has<V>(m: seq<Entry<V>>, k: string) {
    FindIndex(m, k).Some?
  }

  /** `$m[$k]`, null when the key is absent. */
  function Get<V>(m: seq<Entry<V>>, k: string): (r: Option<V>)
    ensures r.Some? <==> k in Keys(m)
    ensures r.Some? ==> exists i :: 0 <= i < |m| && m[i] == Entry(k, r.value)
  {
    match FindIndex(m, k)
    case None => None
    case Some(i) => Some(m[i].value)
  }

  /** Two lists with the same keys in the same order locate every key alike. */
  lemma {:induction false} SameKeysSameIndex<V>(m: seq<Entry<V>>, m': seq<Entry<V>>, k: string)
    requires |m| == |m'|
    requires forall i :: 0 <= i < |m| ==> m[i].key == m'[i].key
    ensures FindIndex(m, k) == FindIndex(m', k)
  {
    var a, b := FindIndex(m, k), FindIndex(m', k);
    if a.Some? {
      assert m'[a.value].key == k;
      if b.Some? {
        assert m[b.value].key == k;
        assert a.value == b.value;
      }
    }
  }

  /** Replacing the entry under a present key keeps every key where it was. */
  lemma ReplaceKeepsIndices<V>(m: seq<Entry<V>>, k: string, v: V, i: nat)
    requires FindIndex(m, k) == Some(i)
    ensures Keys(m[i := Entry(k, v)]) == Keys(m)
    ensures forall k' :: FindIndex(m[i := Entry(k, v)], k') == FindIndex(m, k')
  {
    var r := m[i := Entry(k, v)];
    assert Keys(r) == Keys(m);
    forall k' ensures FindIndex(r, k') == FindIndex(m, k') {
      SameKeysSameIndex(r, m, k');
    }
  }

  lemma AppendKeepsIndex<V>(m: seq<Entry<V>>, e: Entry<V>, k': string)
    requires k' != e.key
    ensures FindIndex(m + [e], k') == FindIndex(m, k')
  {
    var r := m + [e];
    var a, b := FindIndex(r, k'), FindIndex(m, k');
    if a.Some? {
      assert a.value < |m|;
      assert m[a.value].key == k';
    }
    if b.Some? {
      assert r[b.value].key == k';
    }
  }

  lemma AppendFindsNewKey<V>(m: seq<Entry<V>>, k: string, v: V)
    requires FindIndex(m, k).None?
    ensures FindIndex(m + [Entry(k, v)], k) == Some(|m|)
  {
    var r := m + [Entry(k, v)];
    assert r[|m|].key == k;
    assert forall j :: 0 <= j < |m| ==> r[j].key != k;
  }

  /** Appending an entry under a new key moves no other key. */
  lemma AppendKeepsIndices<V>(m: seq<Entry<V>>, k: string, v: V)
    requires FindIndex(m, k).None?
    ensures Keys(m + [Entry(k, v)]) == Keys(m) + [k]
    ensures FindIndex(m + [Entry(k, v)], k) == Some(|m|)
    ensures forall k' :: k' != k ==> FindIndex(m + [Entry(k, v)], k') == FindIndex(m, k')
  {
    assert Keys(m + [Entry(k, v)]) == Keys(m) + [k];
    AppendFindsNewKey(m, k, v);
    forall k' | k' != k ensures FindIndex(m + [Entry(k, v)], k') == FindIndex(m, k') {
      AppendKeepsIndex(m, Entry(k, v), k');
    }
  }

  /** `$m[$k] = $v`. */
  function Put<V>(m: seq<Entry<V>>, k: string, v: V): (r: seq<Entry<V>>)
    ensures Get(r, k) == Some(v)
    ensures forall k' :: k' != k ==> Get(r, k') == Get(m, k')
    ensures k in Keys(m) ==> Keys(r) == Keys(m)
    ensures k !in Keys(m) ==> Keys(r) == Keys(m) + [k]
    ensures UniqueKeys(m) ==> UniqueKeys(r)
    ensures forall i :: 0 <= i < |r| ==> r[i] == Entry(k, v) || (i < |m| && r[i] == m[i])
    ensures k !in Keys(m) ==> r == m + [Entry(k, v)]
    ensures k in Keys(m) ==> r == m[FindIndex(m, k).value := Entry(k, v)]
  {
    match FindIndex(m, k)
    case Some(i) =>
      ReplaceKeepsIndices(m, k, v, i);
      m[i := Entry(k, v)]
    case None =>
      AppendKeepsIndices(m, k, v);
      m + [Entry(k, v)]
  }
}
