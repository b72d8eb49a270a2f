/** A stable insertion sort over a comparator, standing in for Python's
    `sorted(..., key = ...)`, and the string orders the program sorts by. */
module Sorting {
  import opened Strs

  /** `le` is a total preorder: every pair is comparable and it is transitive. */
  ghost predicate TotalPreorder<T(!new)>(le: (T, T) -> bool)
  {
    && (forall a, b :: le(a, b) || le(b, a))
    && (forall a, b, c :: le(a, b) && le(b, c) ==> le(a, c))
  }

  predicate SortedBy<T>(xs: seq<T>, le: (T, T) -> bool)
  {
    forall i, j :: 0 <= i < j < |xs| ==> le(xs[i], xs[j])
  }

  function Insert<T(!new)>(x: T, xs: seq<T>, le: (T, T) -> bool): (r: seq<T>)
    requires TotalPreorder(le)
    requires SortedBy(xs, le)
    ensures multiset(r) == multiset(xs) + multiset{x}
    ensures forall k :: 0 <= k < |r| ==> r[k] == x || r[k] in xs
    ensures SortedBy(r, le)
    decreases |xs|
  {
    if |xs| == 0 then [x]
    else if le(x, xs[0]) then
      assert forall j :: 0 <= j < |xs| ==> le(x, xs[j]) by {
        forall j | 0 <= j < |xs| ensures le(x, xs[j]) {
          if j > 0 { assert le(xs[0], xs[j]); }
        }
      }
      [x] + xs
    else
      var tail := Insert(x, xs[1..], le);
      assert xs == [xs[0]] + xs[1..];
      assert le(xs[0], x);
      assert forall k :: 0 <= k < |tail| ==> le(xs[0], tail[k]) by {
        forall k | 0 <= k < |tail| ensures le(xs[0], tail[k]) {
          if tail[k] != x {
            var m :| 0 <= m < |xs[1..]| && xs[1..][m] == tail[k];
            assert xs[1 + m] == tail[k];
          }
        }
      }
      [xs[0]] + tail
  }

  /** `sorted(xs)` under `le`: a sorted permutation of `xs`. */
  function Sort<T(!new)>(xs: seq<T>, le: (T, T) -> bool): (r: seq<T>)
    requires TotalPreorder(le)
    ensures multiset(r) == multiset(xs)
    ensures SortedBy(r, le)
    ensures |r| == |xs|
    decreases |xs|
  {
    if |xs| == 0 then []
    else
      assert xs == [xs[0]] + xs[1..];
      var r := Insert(xs[0], Sort(xs[1..], le), le);
      assert |r| == |multiset(r)|;
      r
  }

  /** A sorted sequence has the same elements as its input. */
  lemma {:induction false} SortSameElements<T(!new)>(xs: seq<T>, le: (T, T) -> bool)
    requires TotalPreorder(le)
    ensures forall x :: x in Sort(xs, le) <==> x in xs
  {
    var r := Sort(xs, le);
    forall x ensures x in r <==> x in xs {
      assert x in r <==> x in multiset(r);
      assert x in xs <==> x in multiset(xs);
    }
  }

  /** Python's order on `str`, as a comparator. */
  function StrOrder(): (le: (string, string) -> bool)
    ensures TotalPreorder(le)
    ensures forall a, b :: le(a, b) == StrLe(a, b)
  {
    StrLeIsTotalPreorder();
    (a: string, b: string) => StrLe(a, b)
  }

  /** Order of `(key, value)` items by key, as `sorted(d.items(), key = lambda kv: kv[0])`. */
  function ByKey<V(!new)>(): (le: ((string, V), (string, V)) -> bool)
    ensures TotalPreorder(le)
    ensures forall a, b :: le(a, b) == StrLe(a.0, b.0)
  {
    StrLeIsTotalPreorder();
    ((a: (string, V), b: (string, V)) => StrLe(a.0, b.0))
  }

  lemma {:induction false} StrLeIsTotalPreorder()
    ensures forall a, b :: StrLe(a, b) || StrLe(b, a)
    ensures forall a, b, c :: StrLe(a, b) && StrLe(b, c) ==> StrLe(a, c)
  {
    forall a, b ensures StrLe(a, b) || StrLe(b, a) { StrLeTotal(a, b); }
    forall a, b, c | StrLe(a, b) && StrLe(b, c) ensures StrLe(a, c) { StrLeTrans(a, b, c); }
  }
}
