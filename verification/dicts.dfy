/** Python dicts as association lists. CPython dicts remember insertion
    order and the program depends on it (first registration wins, items are
    iterated in order), so a `map` would lose information. Assigning to a key
    that is present keeps its position; a new key goes to the end. */
module Dicts {
  import opened Wrappers

  type Dict<K, V> = seq<(K, V)>

  predicate NoDupKeys<K(==), V>(d: Dict<K, V>)
  {
    forall i, j :: 0 <= i < j < |d| ==> d[i].0 != d[j].0
  }

  function KeySet<K(!new), V>(d: Dict<K, V>): (ks: set<K>)
    ensures forall k :: k in ks <==> exists i :: 0 <= i < |d| && d[i].0 == k
  {
    set i | 0 <= i < |d| :: d[i].0
  }

  /** Position of the first entry for `k`. */
  function IndexOfKey<K(==,!new), V>(d: Dict<K, V>, k: K): (r: Option<nat>)
    ensures r.Some? ==> r.value < |d| && d[r.value].0 == k
    ensures r.Some? ==> forall j :: 0 <= j < r.value ==> d[j].0 != k
    ensures r.None? <==> k !in KeySet(d)
    decreases |d|
  {
    if |d| == 0 then None
    else if d[0].0 == k then Some(0)
    else
      match IndexOfKey(d[1..], k)
      case None =>
        assert forall j :: 0 < j < |d| ==> d[j].0 == d[1..][j - 1].0;
        None
      case Some(i) =>
        assert forall j :: 0 < j < |d| ==> d[j].0 == d[1..][j - 1].0;
        Some(i + 1)
  }

  /** `d.get(k)`. */
  function Get<K(==,!new), V>(d: Dict<K, V>, k: K): (r: Option<V>)
    ensures r.None? <==> k !in KeySet(d)
    ensures r.Some? ==> exists i :: 0 <= i < |d| && d[i] == (k, r.value)
  {
    match IndexOfKey(d, k)
    case None => None
    case Some(i) => assert d[i] == (k, d[i].1); Some(d[i].1)
  }

  lemma {:induction false} GetAt<K(!new), V>(d: Dict<K, V>, i: nat)
    requires NoDupKeys(d)
    requires i < |d|
    ensures Get(d, d[i].0) == Some(d[i].1)
  {
    var r := IndexOfKey(d, d[i].0);
    assert r.Some?;
    assert r.value == i;
  }

  /** `d[k] = v`. */
  function Put<K(==,!new), V>(d: Dict<K, V>, k: K, v: V): (r: Dict<K, V>)
    ensures KeySet(r) == KeySet(d) + {k}
    ensures NoDupKeys(d) ==> NoDupKeys(r)
    ensures NoDupKeys(d) ==> Get(r, k) == Some(v)
    ensures forall k' :: k' != k ==> Get(r, k') == Get(d, k')
    ensures k in KeySet(d) ==> |r| == |d| && (forall i :: 0 <= i < |d| ==> r[i].0 == d[i].0)
    ensures k !in KeySet(d) ==> r == d + [(k, v)]
  {
    match IndexOfKey(d, k)
    case None =>
      var r := d + [(k, v)];
      assert r[|d|].0 == k;
      PutOthers(d, r, k);
      assert NoDupKeys(d) ==> NoDupKeys(r) && Get(r, k) == Some(v) by {
        if NoDupKeys(d) {
          assert forall j :: 0 <= j < |d| ==> r[j].0 != k;
          GetAt(r, |d|);
        }
      }
      r
    case Some(i) =>
      var r := d[i := (k, v)];
      assert forall j :: 0 <= j < |d| ==> r[j].0 == d[j].0;
      PutOthers(d, r, k);
      assert NoDupKeys(d) ==> NoDupKeys(r) && Get(r, k) == Some(v) by {
        if NoDupKeys(d) { GetAt(r, i); }
      }
      r
  }

  lemma {:induction false} PutOthers<K(!new), V>(d: Dict<K, V>, r: Dict<K, V>, k: K)
    requires |d| <= |r| <= |d| + 1
    requires forall j :: 0 <= j < |d| ==> r[j].0 == d[j].0
    requires forall j :: 0 <= j < |d| && d[j].0 != k ==> r[j] == d[j]
    requires |r| == |d| + 1 ==> r[|d|].0 == k
    requires k in KeySet(r)
    ensures forall k' :: k' != k ==> Get(r, k') == Get(d, k')
  {
    forall k' | k' != k ensures Get(r, k') == Get(d, k') {
      var a := IndexOfKey(r, k');
      var b := IndexOfKey(d, k');
      if a.Some? { assert a.value < |d|; }
      if b.Some? { assert r[b.value].0 == k'; }
    }
  }

  /** The values in key order. */
  function Values<K, V>(d: Dict<K, V>): (vs: seq<V>)
    ensures |vs| == |d|
    ensures forall i :: 0 <= i < |d| ==> vs[i] == d[i].1
  {
    if |d| == 0 then [] else [d[0].1] + Values(d[1..])
  }

  /** Item `i` is the last one for its key. */
  predicate LastFor<K(==), V>(items: seq<(K, V)>, i: int)
  {
    0 <= i < |items| && forall j :: i < j < |items| ==> items[j].0 != items[i].0
  }

  /** `dict(items)`: one entry per key, in order of first appearance, with
      the value of the key's last item. */
  function DictOf<K(==,!new), V>(items: seq<(K, V)>): (r: Dict<K, V>)
    ensures NoDupKeys(r)
    ensures forall k :: k in KeySet(r) <==> exists i :: 0 <= i < |items| && items[i].0 == k
    ensures forall k :: Get(r, k).Some? ==> exists i :: LastFor(items, i) && items[i] == (k, Get(r, k).value)
    decreases |items|
  {
    if |items| == 0 then []
    else
      var pre := items[..|items| - 1];
      var last := items[|items| - 1];
      assert items == pre + [last];
      var prev := DictOf(pre);
      var r := Put(prev, last.0, last.1);
      DictOfStep(pre, last, prev, r);
      r
  }

  lemma {:induction false} DictOfStep<K(!new), V>(pre: seq<(K, V)>, last: (K, V), prev: Dict<K, V>, r: Dict<K, V>)
    requires forall k :: k in KeySet(prev) <==> exists i :: 0 <= i < |pre| && pre[i].0 == k
    requires forall k :: Get(prev, k).Some? ==> exists i :: LastFor(pre, i) && pre[i] == (k, Get(prev, k).value)
    requires KeySet(r) == KeySet(prev) + {last.0}
    requires Get(r, last.0) == Some(last.1)
    requires forall k :: k != last.0 ==> Get(r, k) == Get(prev, k)
    ensures forall k :: k in KeySet(r) <==> exists i :: 0 <= i < |pre + [last]| && (pre + [last])[i].0 == k
    ensures forall k :: Get(r, k).Some? ==> exists i :: LastFor(pre + [last], i) && (pre + [last])[i] == (k, Get(r, k).value)
  {
    var items := pre + [last];
    var n := |pre|;
    assert items[n] == last;
    assert forall i :: 0 <= i < n ==> items[i] == pre[i];
    forall k | Get(r, k).Some? ensures exists i :: LastFor(items, i) && items[i] == (k, Get(r, k).value) {
      if k == last.0 {
        assert LastFor(items, n);
      } else {
        var i :| LastFor(pre, i) && pre[i] == (k, Get(prev, k).value);
        assert LastFor(items, i);
      }
    }
  }

  /** The last item for a key is the one `dict(items)` keeps. */
  lemma {:induction false} DictOfLast<K(!new), V>(items: seq<(K, V)>, i: nat)
    requires LastFor(items, i)
    ensures Get(DictOf(items), items[i].0) == Some(items[i].1)
  {
    var r := DictOf(items);
    var k := items[i].0;
    assert k in KeySet(r);
    var j :| LastFor(items, j) && items[j] == (k, Get(r, k).value);
    assert j == i;
  }
}
