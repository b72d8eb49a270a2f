/** Build-graph evaluation: a target evaluated in an environment yields the
    rank map of its transitive dependencies and their products. Results are
    memoised per (target, environment) pair; a pair met again while it is
    being evaluated is a cycle; failures are remembered and carry the chain
    of pairs they passed through. */
module Evaluation {
  import opened Wrappers
  import opened Strs
  import opened Dicts
  import opened Sorting
  import opened Env
  import opened Targets
  import opened Namespace
  import opened Products
  import opened Seqs

  /** A target and the environment it is evaluated in; `None` only for a
      concrete target evaluated at the top. */
  type Key = (Target, Option<Env>)

  /** The length of the longest path to a pair, and the pair's using-delta. */
  datatype Entry = Entry(rank: nat, using: Delta)

  type RankMap = Dict<Key, Entry>
  type ProductMap = Dict<Key, seq<Product>>

  /** The pair `(rank_map, products)` that `evaluate` returns. */
  datatype Evaluated = Evaluated(ranks: RankMap, products: ProductMap)

  /** What went wrong first. */
  datatype Cause =
    | Cycle(ident: string)
    | Unresolved(error: NsError)
    | Raised(message: string)
    | RecursionLimit

  /** `EvaluationError`: the cause and the pairs it passed through, the
      failing pair first. */
  datatype EvalError = EvalError(cause: Cause, chain: seq<Key>)

  /** A memo slot: being evaluated (the `RecursionDetector` sentinel), a
      result, or a remembered error. */
  datatype Memo = Visiting | Done(result: Evaluated) | Failed(error: EvalError)

  type Memos = map<Key, Memo>

  /** What `using_and_products` is handed. */
  datatype UsingContext = UsingContext(
    env: Env,
    productMap: ProductMap,
    rankMap: Dict<Target, (nat, Option<Env>)>)

  /** The code evaluation calls but that is not part of this model: the
      environment operations, the `down` function of a concrete target, the
      project that owns a target's package, and the plugin's
      `using_and_products`. `rootAsDot` chooses how a dependency written
      `alias//:name` is looked up: `false` as `Package.find_target` does
      (in the package "", which never exists), `true` in the root package
      "." (see `Namespace.IdentRoundTripCorrected`). */
  datatype Hooks = Hooks(
    rootAsDot: bool,
    ops: EnvOps,
    concreteDown: (Target, Option<Env>) -> Result<Env, string>,
    projectOf: Target -> Project,
    usingAndProducts: (Target, UsingContext) -> Result<(Delta, seq<Product>), string>)

  function Max(a: nat, b: nat): nat
  {
    if a < b then b else a
  }

  // ---------------------------------------------------------------------
  // Merging the dependencies' maps

  /** What `_topo_merge` computes from `items`: one entry per pair, whose
      rank is one more than the highest rank an item gives the pair and
      whose using-delta is that of the pair's last item. */
  ghost predicate MergedFrom<K(!new)>(items: seq<(K, Entry)>, r: Dict<K, Entry>)
  {
    && NoDupKeys(r)
    && (forall k :: k in KeySet(r) <==> exists i :: 0 <= i < |items| && items[i].0 == k)
    && (forall i :: 0 <= i < |items| ==>
          Get(r, items[i].0).Some? && Get(r, items[i].0).value.rank > items[i].1.rank)
    && (forall k :: Get(r, k).Some? ==>
          exists i :: 0 <= i < |items| && items[i].0 == k && Get(r, k).value.rank == items[i].1.rank + 1)
    && (forall k :: Get(r, k).Some? ==>
          exists i :: LastFor(items, i) && items[i].0 == k && Get(r, k).value.using == items[i].1.using)
  }

  /** The rank of each pair goes up by one; a pair met more than once keeps
      the highest rank and the using-delta of its last item. */
  function MergeItems<K(==,!new)>(items: seq<(K, Entry)>): (r: Dict<K, Entry>)
    ensures MergedFrom(items, r)
    decreases |items|
  {
    if |items| == 0 then []
    else
      var pre := items[..|items| - 1];
      var last := items[|items| - 1];
      assert items == pre + [last];
      var prev := MergeItems(pre);
      MergeStep(pre, last, prev);
      MergeOne(prev, last)
  }

  /** One item of `_topo_merge`'s loop. */
  function MergeOne<K(==,!new)>(prev: Dict<K, Entry>, item: (K, Entry)): (r: Dict<K, Entry>)
  {
    var rank := item.1.rank + 1;
    var rank' := match Get(prev, item.0) case Some(e) => Max(rank, e.rank) case None => rank;
    Put(prev, item.0, Entry(rank', item.1.using))
  }

  lemma {:induction false} MergeStep<K(!new)>(pre: seq<(K, Entry)>, last: (K, Entry), prev: Dict<K, Entry>)
    requires MergedFrom(pre, prev)
    ensures MergedFrom(pre + [last], MergeOne(prev, last))
  {
    var r := MergeOne(prev, last);
    MergeRanksStep(pre, last, prev, r);
    MergeUsingStep(pre, last, prev, r);
  }

  lemma {:induction false} MergeRanksStep<K(!new)>(pre: seq<(K, Entry)>, last: (K, Entry), prev: Dict<K, Entry>, r: Dict<K, Entry>)
    requires forall k :: k in KeySet(prev) <==> exists i :: 0 <= i < |pre| && pre[i].0 == k
    requires forall i :: 0 <= i < |pre| ==> Get(prev, pre[i].0).Some? && Get(prev, pre[i].0).value.rank > pre[i].1.rank
    requires forall k :: Get(prev, k).Some? ==>
      exists i :: 0 <= i < |pre| && pre[i].0 == k && Get(prev, k).value.rank == pre[i].1.rank + 1
    requires KeySet(r) == KeySet(prev) + {last.0}
    requires Get(r, last.0).Some?
    requires Get(r, last.0).value.rank ==
      match Get(prev, last.0) case Some(e) => Max(last.1.rank + 1, e.rank) case None => last.1.rank + 1
    requires forall k :: k != last.0 ==> Get(r, k) == Get(prev, k)
    ensures forall k :: k in KeySet(r) <==> exists i :: 0 <= i < |pre + [last]| && (pre + [last])[i].0 == k
    ensures forall i :: 0 <= i < |pre + [last]| ==>
      Get(r, (pre + [last])[i].0).Some? && Get(r, (pre + [last])[i].0).value.rank > (pre + [last])[i].1.rank
    ensures forall k :: Get(r, k).Some? ==>
      exists i :: 0 <= i < |pre + [last]| && (pre + [last])[i].0 == k && Get(r, k).value.rank == (pre + [last])[i].1.rank + 1
  {
    var items := pre + [last];
    var n := |pre|;
    assert items[n] == last;
    assert forall i :: 0 <= i < n ==> items[i] == pre[i];
    forall i | 0 <= i < |items|
      ensures Get(r, items[i].0).Some? && Get(r, items[i].0).value.rank > items[i].1.rank
    {
      if i < n && items[i].0 == last.0 {
        assert Get(prev, pre[i].0).value.rank > pre[i].1.rank;
      }
    }
    forall k | Get(r, k).Some?
      ensures exists i :: 0 <= i < |items| && items[i].0 == k && Get(r, k).value.rank == items[i].1.rank + 1
    {
      if k == last.0 && (Get(prev, k).None? || Get(r, k).value.rank == last.1.rank + 1) {
        assert items[n].0 == k;
      } else {
        var i :| 0 <= i < |pre| && pre[i].0 == k && Get(prev, k).value.rank == pre[i].1.rank + 1;
        assert items[i].0 == k;
      }
    }
  }

  lemma {:induction false} MergeUsingStep<K(!new)>(pre: seq<(K, Entry)>, last: (K, Entry), prev: Dict<K, Entry>, r: Dict<K, Entry>)
    requires forall k :: Get(prev, k).Some? ==>
      exists i :: LastFor(pre, i) && pre[i].0 == k && Get(prev, k).value.using == pre[i].1.using
    requires Get(r, last.0).Some? && Get(r, last.0).value.using == last.1.using
    requires forall k :: k != last.0 ==> Get(r, k) == Get(prev, k)
    ensures forall k :: Get(r, k).Some? ==>
      exists i :: LastFor(pre + [last], i) && (pre + [last])[i].0 == k && Get(r, k).value.using == (pre + [last])[i].1.using
  {
    var items := pre + [last];
    var n := |pre|;
    assert items[n] == last;
    assert forall i :: 0 <= i < n ==> items[i] == pre[i];
    forall k | Get(r, k).Some?
      ensures exists i :: LastFor(items, i) && items[i].0 == k && Get(r, k).value.using == items[i].1.using
    {
      if k == last.0 {
        assert LastFor(items, n);
      } else {
        var i :| LastFor(pre, i) && pre[i].0 == k && Get(prev, k).value.using == pre[i].1.using;
        assert LastFor(items, i);
      }
    }
  }

  /** `_topo_merge` over the dependencies' rank maps. */
  function TopoMerge(results: seq<Evaluated>): (r: RankMap)
    ensures NoDupKeys(r)
  {
    MergeItems(Flatten(RankMaps(results)))
  }

  function RankMaps(results: seq<Evaluated>): (r: seq<RankMap>)
    ensures |r| == |results|
    ensures forall i :: 0 <= i < |results| ==> r[i] == results[i].ranks
  {
    if |results| == 0 then [] else [results[0].ranks] + RankMaps(results[1..])
  }

  function ProductMaps(results: seq<Evaluated>): (r: seq<ProductMap>)
    ensures |r| == |results|
    ensures forall i :: 0 <= i < |results| ==> r[i] == results[i].products
  {
    if |results| == 0 then [] else [results[0].products] + ProductMaps(results[1..])
  }

  /** The keys of the chained items are the keys of the maps. */
  lemma {:induction false} ChainKeys<K(!new), V(!new)>(ds: seq<Dict<K, V>>)
    ensures forall k :: k in KeySet(Flatten(ds)) <==> exists d :: 0 <= d < |ds| && k in KeySet(ds[d])
  {
    var items := Flatten(ds);
    FlattenMembers(ds);
    forall k ensures k in KeySet(items) <==> exists d :: 0 <= d < |ds| && k in KeySet(ds[d]) {
      if k in KeySet(items) {
        var i :| 0 <= i < |items| && items[i].0 == k;
        assert items[i] in items;
        var d :| 0 <= d < |ds| && items[i] in ds[d];
        var j :| 0 <= j < |ds[d]| && ds[d][j] == items[i];
      }
      if exists d :: 0 <= d < |ds| && k in KeySet(ds[d]) {
        var d :| 0 <= d < |ds| && k in KeySet(ds[d]);
        var j :| 0 <= j < |ds[d]| && ds[d][j].0 == k;
        assert ds[d][j] in ds[d];
        assert ds[d][j] in items;
      }
    }
  }

  /** A pair that some dependency ranks is ranked higher in the merge, and
      every merged rank is one more than a rank some dependency gave the
      pair: the merge keeps the longest path. */
  lemma {:induction false} TopoMergeLongest(results: seq<Evaluated>, d: nat, k: Key)
    requires forall e :: 0 <= e < |results| ==> NoDupKeys(results[e].ranks)
    requires d < |results| && k in KeySet(results[d].ranks)
    ensures Get(TopoMerge(results), k).Some?
    ensures Get(TopoMerge(results), k).value.rank > Get(results[d].ranks, k).value.rank
    ensures exists e :: (0 <= e < |results| && Get(results[e].ranks, k).Some? &&
      Get(TopoMerge(results), k).value.rank == Get(results[e].ranks, k).value.rank + 1)
  {
    TopoMergeAbove(results, d, k);
    TopoMergeFrom(results, k);
  }

  lemma {:induction false} TopoMergeAbove(results: seq<Evaluated>, d: nat, k: Key)
    requires d < |results| && NoDupKeys(results[d].ranks) && k in KeySet(results[d].ranks)
    ensures Get(TopoMerge(results), k).Some?
    ensures Get(TopoMerge(results), k).value.rank > Get(results[d].ranks, k).value.rank
  {
    var ds := RankMaps(results);
    var x :| 0 <= x < |results[d].ranks| && results[d].ranks[x].0 == k;
    GetAt(results[d].ranks, x);
    FlattenAt(ds, d, x);
    var items := Flatten(ds);
    assert items[Width(ds[..d]) + x] == results[d].ranks[x];
  }

  lemma {:induction false} TopoMergeFrom(results: seq<Evaluated>, k: Key)
    requires forall e :: 0 <= e < |results| ==> NoDupKeys(results[e].ranks)
    requires Get(TopoMerge(results), k).Some?
    ensures exists e :: (0 <= e < |results| && Get(results[e].ranks, k).Some? &&
      Get(TopoMerge(results), k).value.rank == Get(results[e].ranks, k).value.rank + 1)
  {
    var ds := RankMaps(results);
    var items := Flatten(ds);
    FlattenMembers(ds);
    var m := Get(TopoMerge(results), k).value;
    var j :| 0 <= j < |items| && items[j].0 == k && m.rank == items[j].1.rank + 1;
    assert items[j] in items;
    var e :| 0 <= e < |ds| && items[j] in ds[e];
    var x :| 0 <= x < |results[e].ranks| && results[e].ranks[x] == items[j];
    GetAt(results[e].ranks, x);
  }

  /** `dict(chain(*(m[1].items() for m in evaluated_deps)))`: every pair
      with products in some dependency's map, with those of the last map
      that has it. */
  function MergeProducts(results: seq<Evaluated>): (r: ProductMap)
    ensures NoDupKeys(r)
    ensures forall k :: k in KeySet(r) <==> exists d :: 0 <= d < |results| && k in KeySet(results[d].products)
    ensures forall d, k ::
      (0 <= d < |results| && NoDupKeys(results[d].products) && Get(results[d].products, k).Some? &&
       (forall e :: d < e < |results| ==> k !in KeySet(results[e].products))) ==>
        Get(r, k) == Get(results[d].products, k)
  {
    var ds := ProductMaps(results);
    ChainKeys(ds);
    var r := DictOf(Flatten(ds));
    assert KeySet(r) == KeySet(Flatten(ds));
    forall d, k | 0 <= d < |results| && NoDupKeys(results[d].products) && Get(results[d].products, k).Some? &&
      (forall e :: d < e < |results| ==> k !in KeySet(results[e].products))
      ensures Get(r, k) == Get(results[d].products, k)
    {
      DictOfFlattenLast(ds, d, k);
    }
    r
  }

  /** `dict(chain(...))` keeps, for each key, the value of the last map
      that has the key. */
  lemma {:induction false} DictOfFlattenLast<K(!new), V(!new)>(ds: seq<Dict<K, V>>, d: nat, k: K)
    requires d < |ds| && NoDupKeys(ds[d]) && Get(ds[d], k).Some?
    requires forall e :: d < e < |ds| ==> k !in KeySet(ds[e])
    ensures Get(DictOf(Flatten(ds)), k) == Get(ds[d], k)
  {
    FlattenSplit(ds, d);
    KeyNotLater(ds, d, k);
    var j := IndexOfKey(ds[d], k).value;
    GetAt(ds[d], j);
    LastInMiddle(Flatten(ds[..d]), ds[d], Flatten(ds[d + 1..]), j);
    DictOfLast(Flatten(ds), |Flatten(ds[..d])| + j);
  }

  lemma {:induction false} KeyNotLater<K(!new), V(!new)>(ds: seq<Dict<K, V>>, d: nat, k: K)
    requires d < |ds|
    requires forall e :: d < e < |ds| ==> k !in KeySet(ds[e])
    ensures k !in KeySet(Flatten(ds[d + 1..]))
  {
    var later := ds[d + 1..];
    ChainKeys(later);
    forall e | 0 <= e < |later| ensures k !in KeySet(later[e]) {
      assert later[e] == ds[d + 1 + e];
    }
  }

  lemma {:induction false} LastInMiddle<K(!new), V>(a: Dict<K, V>, m: Dict<K, V>, b: Dict<K, V>, j: nat)
    requires NoDupKeys(m) && j < |m| && m[j].0 !in KeySet(b)
    ensures LastFor(a + m + b, |a| + j) && (a + m + b)[|a| + j] == m[j]
  {
    var items := a + m + b;
    forall q | |a| + j < q < |items| ensures items[q].0 != m[j].0 {
      if q < |a| + |m| {
        assert items[q] == m[q - |a|];
      } else {
        assert items[q] == b[q - |a| - |m|];
      }
    }
  }

  // ---------------------------------------------------------------------
  // Ordering the merged entries

  /** The sort key of an entry: its rank, its target's identifier and its
      environment's digest. */
  datatype SortKey = SortKey(rank: nat, ident: string, digest: Option<string>)

  function KeyOf(ops: EnvOps, item: (Key, Entry)): SortKey
  {
    SortKey(item.1.rank, Ident(item.0.0),
            match item.0.1 case None => None case Some(e) => Some(ops.digest(e)))
  }

  predicate DigestLe(a: Option<string>, b: Option<string>)
  {
    a.None? || (b.Some? && StrLe(a.value, b.value))
  }

  /** `(-rank, ident, digest)` compared as a Python tuple. */
  predicate KeyLe(a: SortKey, b: SortKey)
  {
    || a.rank > b.rank
    || (a.rank == b.rank && StrLe(a.ident, b.ident) && a.ident != b.ident)
    || (a.rank == b.rank && a.ident == b.ident && DigestLe(a.digest, b.digest))
  }

  lemma {:induction false} KeyLeTotal(a: SortKey, b: SortKey)
    ensures KeyLe(a, b) || KeyLe(b, a)
  {
    StrLeTotal(a.ident, b.ident);
    if a.digest.Some? && b.digest.Some? { StrLeTotal(a.digest.value, b.digest.value); }
  }

  lemma {:induction false} KeyLeTrans(a: SortKey, b: SortKey, c: SortKey)
    requires KeyLe(a, b) && KeyLe(b, c)
    ensures KeyLe(a, c)
  {
    if a.rank == b.rank && b.rank == c.rank {
      if a.ident != b.ident && b.ident != c.ident {
        StrLeTrans(a.ident, b.ident, c.ident);
        if a.ident == c.ident { StrLeAntisym(a.ident, b.ident); }
      }
      if a.ident == b.ident && b.ident == c.ident && a.digest.Some? {
        StrLeTrans(a.digest.value, b.digest.value, c.digest.value);
      }
    }
  }

  /** The order `_topo_sort` sorts by. */
  function TopoOrder(ops: EnvOps): (le: ((Key, Entry), (Key, Entry)) -> bool)
    ensures TotalPreorder(le)
    ensures forall a, b :: le(a, b) == KeyLe(KeyOf(ops, a), KeyOf(ops, b))
  {
    var le := (a: (Key, Entry), b: (Key, Entry)) => KeyLe(KeyOf(ops, a), KeyOf(ops, b));
    forall a, b ensures le(a, b) || le(b, a) { KeyLeTotal(KeyOf(ops, a), KeyOf(ops, b)); }
    forall a, b, c | le(a, b) && le(b, c) ensures le(a, c) {
      KeyLeTrans(KeyOf(ops, a), KeyOf(ops, b), KeyOf(ops, c));
    }
    le
  }

  /** `_topo_sort`: the merged entries, highest rank first, then by target
      identifier, then by environment digest. */
  function TopoSort(ops: EnvOps, merged: RankMap): (r: seq<(Key, Entry)>)
    ensures multiset(r) == multiset(merged)
    ensures forall i, j :: 0 <= i < j < |r| ==> KeyLe(KeyOf(ops, r[i]), KeyOf(ops, r[j]))
    ensures forall i, j :: 0 <= i < j < |r| ==> r[i].1.rank >= r[j].1.rank
    ensures forall i, j :: 0 <= i < j < |r| && r[i].1.rank == r[j].1.rank ==>
      StrLe(Ident(r[i].0.0), Ident(r[j].0.0))
    ensures forall i, j :: 0 <= i < j < |r| && r[i].1.rank == r[j].1.rank && Ident(r[i].0.0) == Ident(r[j].0.0) ==>
      DigestLe(KeyOf(ops, r[i]).digest, KeyOf(ops, r[j]).digest)
  {
    var le := TopoOrder(ops);
    var r := Sort(merged, le);
    assert forall i, j :: 0 <= i < j < |r| ==> KeyLe(KeyOf(ops, r[i]), KeyOf(ops, r[j])) by {
      forall i, j | 0 <= i < j < |r| ensures KeyLe(KeyOf(ops, r[i]), KeyOf(ops, r[j])) {
        assert le(r[i], r[j]);
      }
    }
    assert forall i, j :: 0 <= i < j < |r| && r[i].1.rank == r[j].1.rank ==>
      StrLe(Ident(r[i].0.0), Ident(r[j].0.0)) by {
      forall i, j | 0 <= i < j < |r| && r[i].1.rank == r[j].1.rank
        ensures StrLe(Ident(r[i].0.0), Ident(r[j].0.0))
      {
        assert KeyLe(KeyOf(ops, r[i]), KeyOf(ops, r[j]));
        StrLeRefl(Ident(r[i].0.0));
      }
    }
    r
  }

  /** `reduce(lambda e, dlt: e.derive(dlt), usings, env)`: the last delta
      is derived over the fold of the others. */
  function FoldUsings(ops: EnvOps, env: Env, items: seq<(Key, Entry)>): Result<Env, string>
    decreases |items|
  {
    if |items| == 0 then Success(env)
    else
      match FoldUsings(ops, env, items[..|items| - 1])
      case Failure(m) => Failure(m)
      case Success(e) => ops.derive(e, items[|items| - 1].1.using)
  }

  /** Read from the front, `reduce` derives the first delta over `env` and
      goes on from there; a failing derive is the result. */
  lemma {:induction false} FoldUsingsFront(ops: EnvOps, env: Env, items: seq<(Key, Entry)>)
    ensures |items| == 0 ==> FoldUsings(ops, env, items) == Success(env)
    ensures |items| > 0 ==>
      FoldUsings(ops, env, items) == match ops.derive(env, items[0].1.using)
           case Failure(m) => Failure(m)
           case Success(e) => FoldUsings(ops, e, items[1..])
  {
    if |items| > 0 {
      var head := items[..1];
      assert head[..0] == [];
      assert items == head + items[1..];
      FoldUsingsAppend(ops, env, head, items[1..]);
    }
  }

  /** Folding the deltas of `xs + ys` is folding those of `ys` over the
      result of folding those of `xs`. */
  lemma {:induction false} FoldUsingsAppend(ops: EnvOps, env: Env, xs: seq<(Key, Entry)>, ys: seq<(Key, Entry)>)
    ensures FoldUsings(ops, env, xs + ys) ==
      match FoldUsings(ops, env, xs)
      case Failure(m) => Failure(m)
      case Success(e) => FoldUsings(ops, e, ys)
    decreases |ys|
  {
    if |ys| == 0 {
      assert xs + ys == xs;
    } else {
      var n := |ys| - 1;
      assert (xs + ys)[..|xs + ys| - 1] == xs + ys[..n];
      assert (xs + ys)[|xs + ys| - 1] == ys[n];
      FoldUsingsAppend(ops, env, xs, ys[..n]);
    }
  }

  /** The first delta whose derivation fails ends the fold with its error. */
  lemma {:induction false} FoldUsingsStops(ops: EnvOps, env: Env, items: seq<(Key, Entry)>, i: nat, e: Env)
    requires i < |items|
    requires FoldUsings(ops, env, items[..i]) == Success(e)
    requires ops.derive(e, items[i].1.using).Failure?
    ensures FoldUsings(ops, env, items) == Failure(ops.derive(e, items[i].1.using).error)
  {
    var p := items[..i + 1];
    assert items == p + items[i + 1..];
    assert p[..i] == items[..i] && p[i] == items[i];
    assert FoldUsings(ops, env, p) == Failure(ops.derive(e, items[i].1.using).error);
    FoldUsingsAppend(ops, env, p, items[i + 1..]);
  }

  /** `dict((target, (rank, env)) for ((target, env), (rank, _)) in topo)`. */
  function RankMapOf(topo: seq<(Key, Entry)>): (r: Dict<Target, (nat, Option<Env>)>)
    ensures NoDupKeys(r)
    ensures KeySet(r) == set i | 0 <= i < |topo| :: topo[i].0.0
  {
    var items := TargetItems(topo);
    var r := DictOf(items);
    assert KeySet(r) == KeySet(items);
    r
  }

  function TargetItems(topo: seq<(Key, Entry)>): (r: seq<(Target, (nat, Option<Env>))>)
    ensures |r| == |topo|
    ensures forall i :: 0 <= i < |topo| ==> r[i] == (topo[i].0.0, (topo[i].1.rank, topo[i].0.1))
  {
    if |topo| == 0 then [] else [(topo[0].0.0, (topo[0].1.rank, topo[0].0.1))] + TargetItems(topo[1..])
  }

  /** A target evaluated in more than one environment keeps in the rank
      map the entry that comes last in the sorted order. */
  lemma {:induction false} RankMapLastWins(topo: seq<(Key, Entry)>, i: nat)
    requires i < |topo|
    requires forall j :: i < j < |topo| ==> topo[j].0.0 != topo[i].0.0
    ensures Get(RankMapOf(topo), topo[i].0.0) == Some((topo[i].1.rank, topo[i].0.1))
  {
    var items := TargetItems(topo);
    assert LastFor(items, i);
    DictOfLast(items, i);
  }

  // ---------------------------------------------------------------------
  // Evaluation

  /** A result is well formed for `key`: its maps have no duplicate keys and
      hold `key` itself at rank 0 with its products. */
  predicate ResultOk(key: Key, r: Evaluated)
  {
    && NoDupKeys(r.ranks) && NoDupKeys(r.products)
    && Get(r.ranks, key).Some? && Get(r.ranks, key).value.rank == 0
    && Get(r.products, key).Some?
  }

  ghost predicate MemoOk(m: Memos)
  {
    forall k :: k in m && m[k].Done? ==> ResultOk(k, m[k].result)
  }

  /** How the memo may change: no slot disappears, a result is never
      replaced, and a remembered error stays an error with the same cause. */
  ghost predicate MemoGrows(m: Memos, m': Memos)
  {
    && (forall k :: k in m ==> k in m')
    && (forall k :: k in m && m[k].Done? ==> m'[k] == m[k])
    && (forall k :: k in m && m[k].Failed? ==> m'[k].Failed? && m'[k].error.cause == m[k].error.cause)
  }

  lemma {:induction false} MemoGrowsTrans(a: Memos, b: Memos, c: Memos)
    requires MemoGrows(a, b) && MemoGrows(b, c)
    ensures MemoGrows(a, c)
  {
  }

  /** `derive_down`: a concrete target's own function of the environment;
      otherwise the down-delta applied to the environment, which must exist. */
  function DeriveDown(h: Hooks, t: Target, env: Option<Env>): (r: Result<Env, string>)
    ensures t.concrete ==> r == h.concreteDown(t, env)
    ensures !t.concrete && env.None? ==> r.Failure?
    ensures !t.concrete && env.Some? ==> r == h.ops.derive(env.value, t.down)
  {
    if t.concrete then h.concreteDown(t, env)
    else match env
      case None => Failure("'NoneType' object has no attribute 'derive'")
      case Some(e) => h.ops.derive(e, t.down)
  }

  /** `env.rewrite` applied to each dependency identifier. */
  function RewriteAll(ops: EnvOps, env: Env, ids: seq<string>): (r: Result<seq<string>, string>)
    ensures r.Success? ==> |r.value| == |ids| && forall i :: 0 <= i < |ids| ==> ops.rewrite(env, ids[i]) == Success(r.value[i])
    ensures r.Failure? ==> exists i :: 0 <= i < |ids| && ops.rewrite(env, ids[i]).Failure?
  {
    if |ids| == 0 then Success([])
    else
      match ops.rewrite(env, ids[0])
      case Failure(m) => Failure(m)
      case Success(s) =>
        match RewriteAll(ops, env, ids[1..])
        case Failure(m) =>
          var i :| 0 <= i < |ids[1..]| && ops.rewrite(env, ids[1..][i]).Failure?;
          assert ids[i + 1] == ids[1..][i];
          Failure(m)
        case Success(rest) =>
          assert forall i :: 1 <= i < |ids| ==> ids[i] == ids[1..][i - 1];
          Success([s] + rest)
  }

  /** How the body of an evaluation ended: a result, an error raised by a
      dependency's evaluation, or an exception raised here. */
  datatype Outcome = Ok(result: Evaluated) | Nested(error: EvalError) | Raw(cause: Cause)

  /** `evaluate(env_up)` on `t`, with `memo` the memo slots of every target
      and `fuel` the remaining recursion depth. */
  function Evaluate(h: Hooks, t: Target, env: Option<Env>, memo: Memos, fuel: nat): (out: (Result<Evaluated, EvalError>, Memos))
    ensures (t, env) in memo ==> out == Revisit(t, env, memo)
    ensures (t, env) in out.1
    ensures out.0.Success? ==> out.1[(t, env)] == Done(out.0.value)
    ensures out.0.Failure? ==> out.1[(t, env)] == Failed(out.0.error)
    ensures out.0.Failure? ==> |out.0.error.chain| > 0 && out.0.error.chain[|out.0.error.chain| - 1] == (t, env)
    ensures MemoGrows(memo, out.1)
    ensures MemoOk(memo) ==> MemoOk(out.1)
    ensures MemoOk(memo) && out.0.Success? ==> ResultOk((t, env), out.0.value)
    decreases fuel, 0
  {
    var key := (t, env);
    if key in memo then Revisit(t, env, memo)
    else if fuel == 0 then Settle(key, Raw(RecursionLimit), memo)
    else
      var m0 := memo[key := Visiting];
      assert MemoOk(memo) ==> MemoOk(m0);
      var res := EvalBody(h, t, env, m0, fuel - 1);
      var out := Settle(key, res.0, res.1);
      SetOutside(memo, res.1, key, out.1[key]);
      out
  }

  /** A pair that already has a slot: its result, its remembered error
      raised again with the pair appended, or a cycle. */
  function Revisit(t: Target, env: Option<Env>, memo: Memos): (out: (Result<Evaluated, EvalError>, Memos))
    requires (t, env) in memo
    ensures memo[(t, env)].Done? ==> out == (Success(memo[(t, env)].result), memo)
    ensures memo[(t, env)].Visiting? ==>
      var e := EvalError(Cycle(Ident(t)), [(t, env)]);
      out == (Failure(e), memo[(t, env) := Failed(e)])
    ensures memo[(t, env)].Failed? ==>
      var e := EvalError(memo[(t, env)].error.cause, memo[(t, env)].error.chain + [(t, env)]);
      out == (Failure(e), memo[(t, env) := Failed(e)])
    ensures (t, env) in out.1
    ensures out.0.Success? ==> out.1[(t, env)] == Done(out.0.value)
    ensures out.0.Failure? ==> out.1[(t, env)] == Failed(out.0.error)
    ensures out.0.Failure? ==> |out.0.error.chain| > 0 && out.0.error.chain[|out.0.error.chain| - 1] == (t, env)
    ensures MemoGrows(memo, out.1)
    ensures MemoOk(memo) ==> MemoOk(out.1)
    ensures MemoOk(memo) && out.0.Success? ==> ResultOk((t, env), out.0.value)
  {
    var key := (t, env);
    match memo[key]
    case Done(r) => (Success(r), memo)
    case Failed(e) =>
      var e' := EvalError(e.cause, e.chain + [key]);
      (Failure(e'), memo[key := Failed(e')])
    case Visiting =>
      var e := EvalError(Cycle(Ident(t)), [key]);
      (Failure(e), memo[key := Failed(e)])
  }

  /** The end of `evaluate` after `_evaluate` ran: the slot of `key` takes
      the result, or the error with `key` appended. */
  function Settle(key: Key, body: Outcome, memo: Memos): (out: (Result<Evaluated, EvalError>, Memos))
    ensures out.1 == memo[key := if out.0.Success? then Done(out.0.value) else Failed(out.0.error)]
    ensures body.Ok? <==> out.0.Success?
    ensures body.Ok? ==> out.0.value == body.result
    ensures body.Nested? ==> out.0.error == EvalError(body.error.cause, body.error.chain + [key])
    ensures body.Raw? ==> out.0.error == EvalError(body.cause, [key])
    ensures key in out.1
    ensures out.0.Success? ==> out.1[key] == Done(out.0.value)
    ensures out.0.Failure? ==> out.1[key] == Failed(out.0.error)
    ensures out.0.Failure? ==> |out.0.error.chain| > 0 && out.0.error.chain[|out.0.error.chain| - 1] == key
    ensures MemoOk(memo) && (body.Ok? ==> ResultOk(key, body.result)) ==> MemoOk(out.1)
  {
    match body
    case Ok(r) => (Success(r), memo[key := Done(r)])
    case Nested(e) =>
      var e' := EvalError(e.cause, e.chain + [key]);
      (Failure(e'), memo[key := Failed(e')])
    case Raw(c) =>
      var e := EvalError(c, [key]);
      (Failure(e), memo[key := Failed(e)])
  }

  /** Writing the slot of a pair the memo did not have keeps every other slot. */
  lemma {:induction false} SetOutside(memo: Memos, later: Memos, key: Key, v: Memo)
    requires key !in memo
    requires MemoGrows(memo[key := Visiting], later)
    ensures MemoGrows(memo, later[key := v])
  {
    forall k | k in memo ensures k != key && (memo[key := Visiting])[k] == memo[k] { }
  }

  /** `_evaluate(env_up)`: derive the down- and local environments,
      resolve and evaluate the dependencies in the down-environment, and
      combine their results with this target's own. */
  function EvalBody(h: Hooks, t: Target, env: Option<Env>, memo: Memos, fuel: nat): (out: (Outcome, Memos))
    ensures MemoGrows(memo, out.1)
    ensures MemoOk(memo) ==> MemoOk(out.1)
    ensures out.0.Ok? ==> ResultOk((t, env), out.0.result)
    decreases fuel, 2
  {
    match DeriveDown(h, t, env)
    case Failure(m) => (Raw(Raised(m)), memo)
    case Success(down) =>
      match h.ops.derive(down, t.local)
      case Failure(m) => (Raw(Raised(m)), memo)
      case Success(local0) =>
        match RewriteAll(h.ops, local0, t.deps)
        case Failure(m) => (Raw(Raised(m)), memo)
        case Success(ids) =>
          var (deps, memo1) := EvalDeps(h, t, down, ids, memo, fuel);
          match deps
          case Failure(o) => (o, memo1)
          case Success(results) => (Combine(h, t, env, local0, results), memo1)
  }

  /** An error raised by a dependency's evaluation ends with the pair of a
      dependency resolved from one of `ids`, evaluated in `down`. */
  predicate BlamesDep(h: Hooks, t: Target, down: Env, ids: seq<string>, o: Outcome)
  {
    o.Nested? ==>
      var chain := o.error.chain;
      |chain| > 0 && chain[|chain| - 1].1 == Some(down) &&
      exists i :: 0 <= i < |ids| && Resolve(h, t, ids[i]) == Success(chain[|chain| - 1].0)
  }

  lemma {:induction false} BlamesDepTail(h: Hooks, t: Target, down: Env, ids: seq<string>, o: Outcome)
    requires |ids| > 0 && BlamesDep(h, t, down, ids[1..], o)
    ensures BlamesDep(h, t, down, ids, o)
  {
    if o.Nested? {
      var chain := o.error.chain;
      var i :| 0 <= i < |ids[1..]| && Resolve(h, t, ids[1..][i]) == Success(chain[|chain| - 1].0);
      assert ids[i + 1] == ids[1..][i];
    }
  }

  /** Evaluating each of `ids`, resolved from `t`'s package, in `down`;
      the first error stops the evaluation. */
  function EvalDeps(h: Hooks, t: Target, down: Env, ids: seq<string>, memo: Memos, fuel: nat): (out: (Result<seq<Evaluated>, Outcome>, Memos))
    ensures MemoGrows(memo, out.1)
    ensures MemoOk(memo) ==> MemoOk(out.1)
    ensures out.0.Success? ==> |out.0.value| == |ids|
    ensures out.0.Failure? ==> (out.0.error.Nested? || out.0.error.Raw?) && BlamesDep(h, t, down, ids, out.0.error)
    decreases fuel, 1, |ids|
  {
    if |ids| == 0 then (Success([]), memo)
    else
      match Resolve(h, t, ids[0])
      case Failure(err) => (Failure(Raw(Unresolved(err))), memo)
      case Success(d) =>
        var (r, memo1) := Evaluate(h, d, Some(down), memo, fuel);
        if r.Failure? then (Failure(Nested(r.error)), memo1)
        else
          var (rest, memo2) := EvalDeps(h, t, down, ids[1..], memo1, fuel);
          MemoGrowsTrans(memo, memo1, memo2);
          if rest.Failure? then
            BlamesDepTail(h, t, down, ids, rest.error);
            (rest, memo2)
          else (Success([r.value] + rest.value), memo2)
  }

  /** `self.package.find_target(id)`, with `alias//:name` read as
      `h.rootAsDot` says. */
  function Resolve(h: Hooks, t: Target, id: string): Result<Target, NsError>
  {
    PackageFindTargetIn(h.projectOf(t), Package(t.alias, t.relpath, []), id, h.rootAsDot)
  }

  /** The part of `_evaluate` after the dependencies are evaluated. */
  function Combine(h: Hooks, t: Target, env: Option<Env>, local0: Env, results: seq<Evaluated>): (o: Outcome)
    ensures o.Ok? || o.Raw?
    ensures o.Ok? ==> ResultOk((t, env), o.result)
    ensures o.Ok? ==> forall k :: k != (t, env) ==>
      Get(o.result.ranks, k) == Get(TopoMerge(results), k) &&
      Get(o.result.products, k) == Get(MergeProducts(results), k)
    ensures o.Ok? <==>
      var merged := TopoMerge(results);
      var topo := TopoSort(h.ops, merged);
      && FoldUsings(h.ops, local0, topo).Success?
      && h.usingAndProducts(t, UsingContext(FoldUsings(h.ops, local0, topo).value, MergeProducts(results), RankMapOf(topo))).Success?
    ensures o.Ok? ==>
      var merged := TopoMerge(results);
      var topo := TopoSort(h.ops, merged);
      var own := h.usingAndProducts(t, UsingContext(FoldUsings(h.ops, local0, topo).value, MergeProducts(results), RankMapOf(topo))).value;
      Get(o.result.ranks, (t, env)) == Some(Entry(0, own.0)) && Get(o.result.products, (t, env)) == Some(own.1)
  {
    var merged := TopoMerge(results);
    var products := MergeProducts(results);
    var topo := TopoSort(h.ops, merged);
    match FoldUsings(h.ops, local0, topo)
    case Failure(m) => Raw(Raised(m))
    case Success(local1) =>
      match h.usingAndProducts(t, UsingContext(local1, products, RankMapOf(topo)))
      case Failure(m) => Raw(Raised(m))
      case Success(own) =>
        Ok(Evaluated(Put(merged, (t, env), Entry(0, own.0)), Put(products, (t, env), own.1)))
  }

  // ---------------------------------------------------------------------
  // Properties of evaluation

  /** Once a pair has been evaluated, evaluating it again, with any fuel
      and after any further evaluations, returns the memoised result and
      leaves the memo as it is: each pair is evaluated at most once. */
  lemma {:induction false} EvaluateOnce(h: Hooks, t: Target, env: Option<Env>, memo: Memos, fuel: nat, later: Memos, fuel': nat)
    requires Evaluate(h, t, env, memo, fuel).0.Success?
    requires MemoGrows(Evaluate(h, t, env, memo, fuel).1, later)
    ensures Evaluate(h, t, env, later, fuel') == (Evaluate(h, t, env, memo, fuel).0, later)
  {
  }

  /** Once a pair's evaluation has failed, evaluating it again fails with
      the same cause, whatever else was evaluated in between. */
  lemma {:induction false} EvaluateFailsAgain(h: Hooks, t: Target, env: Option<Env>, memo: Memos, fuel: nat, later: Memos, fuel': nat)
    requires Evaluate(h, t, env, memo, fuel).0.Failure?
    requires MemoGrows(Evaluate(h, t, env, memo, fuel).1, later)
    ensures Evaluate(h, t, env, later, fuel').0.Failure?
    ensures Evaluate(h, t, env, later, fuel').0.error.cause == Evaluate(h, t, env, memo, fuel).0.error.cause
  {
  }

  /** A pair met again while it is being evaluated is a cycle, and the
      error is remembered in its slot. */
  lemma {:induction false} CycleRemembered(h: Hooks, t: Target, env: Option<Env>, memo: Memos, fuel: nat)
    requires (t, env) in memo && memo[(t, env)] == Visiting
    ensures var out := Evaluate(h, t, env, memo, fuel);
      out.0 == Failure(EvalError(Cycle(Ident(t)), [(t, env)])) && out.1 == memo[(t, env) := Failed(out.0.error)]
  {
  }

  /** An evaluation whose down-environment cannot be derived fails with
      that error, and the chain is the pair alone. */
  lemma {:induction false} EvaluateDownFails(h: Hooks, t: Target, env: Option<Env>, memo: Memos, fuel: nat)
    requires (t, env) !in memo && fuel > 0
    requires DeriveDown(h, t, env).Failure?
    ensures Evaluate(h, t, env, memo, fuel).0 == Failure(EvalError(Raised(DeriveDown(h, t, env).error), [(t, env)]))
  {
    var m0 := memo[(t, env) := Visiting];
    assert EvalBody(h, t, env, m0, fuel - 1).0 == Raw(Raised(DeriveDown(h, t, env).error));
  }

  /** Only a concrete target can be evaluated at the top, with no
      environment: any other fails there. */
  lemma {:induction false} EvaluateNeedsEnvironment(h: Hooks, t: Target, memo: Memos, fuel: nat)
    requires !t.concrete && (t, None) !in memo && fuel > 0
    ensures Evaluate(h, t, None, memo, fuel).0.Failure?
    ensures Evaluate(h, t, None, memo, fuel).0.error.chain == [(t, None)]
  {
    EvaluateDownFails(h, t, None, memo, fuel);
  }

  /** A dependency on a target of a root package, written as that target's
      identifier, resolves to it when `alias//:name` is read as the root
      package, and is an unknown package as the source reads it. */
  lemma {:induction false} ResolveRootIdent(h: Hooks, t: Target, q: Project, pkg: Package, u: Target)
    requires Registered(h.projectOf(t), q, pkg, u) && pkg.relpath == "."
    ensures h.rootAsDot ==> Resolve(h, t, Ident(u)) == Success(u)
    ensures !h.rootAsDot ==> Resolve(h, t, Ident(u)).Failure? && Resolve(h, t, Ident(u)).error.UnknownPackage?
  {
    var id := Ident(u);
    assert id == u.alias + "//:" + u.name;
    if |u.alias| > 0 {
      assert id[0] == u.alias[0];
      assert u.alias[0] in u.alias;
    } else {
      assert id[0] == '/';
    }
    assert !StartsWith(id, ":");
    if h.rootAsDot {
      IdentRoundTripCorrected(h.projectOf(t), q, pkg, u);
    } else {
      RootIdentUnresolved(h.projectOf(t), q, pkg, u);
    }
  }
}
