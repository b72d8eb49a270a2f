/** Sequences laid end to end, and sequences picked out of others in order:
    the shapes of `itertools.chain`, of nested `for` loops that yield, and of
    `filter`. */
module Seqs {
  import opened Wrappers

  /** The total length of the lists. */
  function Width<T>(ss: seq<seq<T>>): nat
  {
    if |ss| == 0 then 0 else |ss[0]| + Width(ss[1..])
  }

  /** The lists one after the other (`FlattenAt` says where each item lands). */
  function Flatten<T>(ss: seq<seq<T>>): (r: seq<T>)
    ensures |r| == Width(ss)
  {
    if |ss| == 0 then [] else ss[0] + Flatten(ss[1..])
  }

  /** Flattening commutes with concatenation. */
  lemma {:induction false} FlattenAppend<T>(xs: seq<seq<T>>, ys: seq<seq<T>>)
    ensures Flatten(xs + ys) == Flatten(xs) + Flatten(ys)
    decreases |xs|
  {
    if |xs| == 0 {
      assert xs + ys == ys;
    } else {
      assert (xs + ys)[1..] == xs[1..] + ys;
      FlattenAppend(xs[1..], ys);
    }
  }

  /** The lists before `ss[d]`, then `ss[d]`, then the lists after it. */
  lemma {:induction false} FlattenSplit<T>(ss: seq<seq<T>>, d: nat)
    requires d < |ss|
    ensures Flatten(ss) == Flatten(ss[..d]) + ss[d] + Flatten(ss[d + 1..])
  {
    assert ss == ss[..d] + ([ss[d]] + ss[d + 1..]);
    FlattenAppend(ss[..d], [ss[d]] + ss[d + 1..]);
    FlattenAppend([ss[d]], ss[d + 1..]);
    assert Flatten([ss[d]]) == ss[d] by { assert [ss[d]][1..] == []; }
  }

  /** Item `j` of `ss[d]` sits in the flattened list after all the items of
      the lists before `ss[d]`. */
  lemma {:induction false} FlattenAt<T>(ss: seq<seq<T>>, d: nat, j: nat)
    requires d < |ss| && j < |ss[d]|
    ensures Width(ss[..d]) + j < |Flatten(ss)|
    ensures Flatten(ss)[Width(ss[..d]) + j] == ss[d][j]
  {
    FlattenSplit(ss, d);
    assert |Flatten(ss[..d])| == Width(ss[..d]);
  }

  /** An item of the flattened list comes from one of the lists, and every
      item of every list is in it. */
  lemma {:induction false} FlattenMembers<T>(ss: seq<seq<T>>)
    ensures forall x :: x in Flatten(ss) <==> exists d :: 0 <= d < |ss| && x in ss[d]
    decreases |ss|
  {
    if |ss| > 0 {
      FlattenMembers(ss[1..]);
      forall x ensures x in Flatten(ss) <==> exists d :: 0 <= d < |ss| && x in ss[d] {
        if x in Flatten(ss[1..]) {
          var d :| 0 <= d < |ss[1..]| && x in ss[1..][d];
          assert x in ss[d + 1];
        }
        if exists d :: 0 <= d < |ss| && x in ss[d] {
          var d :| 0 <= d < |ss| && x in ss[d];
          if d > 0 { assert ss[1..][d - 1] == ss[d]; }
        }
      }
    }
  }

  /** `idx` picks the items of `r` out of `s`, at increasing positions. */
  ghost predicate Picks<T>(idx: seq<nat>, r: seq<T>, s: seq<T>)
  {
    && |idx| == |r|
    && (forall k :: 0 <= k < |idx| ==> idx[k] < |s| && s[idx[k]] == r[k])
    && (forall k, l :: 0 <= k < l < |idx| ==> idx[k] < idx[l])
  }

  /** `r` is `s` with some items left out, the rest kept in their order. */
  ghost predicate IsSubseq<T>(r: seq<T>, s: seq<T>)
  {
    exists idx :: Picks(idx, r, s)
  }

  function Shift(idx: seq<nat>): (r: seq<nat>)
    ensures |r| == |idx| && forall k :: 0 <= k < |idx| ==> r[k] == idx[k] + 1
  {
    seq(|idx|, k requires 0 <= k < |idx| => idx[k] + 1)
  }

  lemma {:induction false} SubseqNil<T>(s: seq<T>)
    ensures IsSubseq([], s)
  {
    assert Picks([], [], s);
  }

  /** Putting an item in front of `s` keeps `r` a subsequence, whether or not
      the item is also put in front of `r`. */
  lemma {:induction false} SubseqCons<T>(r: seq<T>, s: seq<T>, x: T, keep: bool)
    requires IsSubseq(r, s)
    ensures IsSubseq(if keep then [x] + r else r, [x] + s)
  {
    var idx :| Picks(idx, r, s);
    var sh := Shift(idx);
    if keep {
      var idx' := [0] + sh;
      assert Picks(idx', [x] + r, [x] + s);
    } else {
      assert Picks(sh, r, [x] + s);
    }
  }

  /** `filter(keep, s)`: the items `keep` holds for, in their order. */
  function Filter<T(!new)>(s: seq<T>, keep: T -> bool): (r: seq<T>)
    ensures forall x :: x in r <==> x in s && keep(x)
    ensures IsSubseq(r, s)
  {
    if |s| == 0 then
      SubseqNil(s);
      []
    else
      var rest := Filter(s[1..], keep);
      var r := (if keep(s[0]) then [s[0]] else []) + rest;
      assert s == [s[0]] + s[1..];
      SubseqCons(rest, s[1..], s[0], keep(s[0]));
      assert r == if keep(s[0]) then [s[0]] + rest else rest;
      assert forall x :: x in r <==> x in s && keep(x) by {
        forall x ensures x in r <==> x in s && keep(x) {
          assert x in s <==> x == s[0] || x in s[1..];
        }
      }
      r
  }

  /** Filtering commutes with concatenation. */
  lemma {:induction false} FilterAppend<T(!new)>(xs: seq<T>, ys: seq<T>, keep: T -> bool)
    ensures Filter(xs + ys, keep) == Filter(xs, keep) + Filter(ys, keep)
    decreases |xs|
  {
    if |xs| == 0 {
      assert xs + ys == ys;
    } else {
      assert (xs + ys)[1..] == xs[1..] + ys;
      assert (xs + ys)[0] == xs[0];
      FilterAppend(xs[1..], ys, keep);
    }
  }

  /** Everything `keep` holds for is kept: the filter drops only what it
      must, so its length is the number of items `keep` holds for. */
  lemma {:induction false} FilterKeepsAll<T(!new)>(s: seq<T>, keep: T -> bool)
    requires forall i :: 0 <= i < |s| ==> keep(s[i])
    ensures Filter(s, keep) == s
    decreases |s|
  {
    if |s| > 0 {
      FilterKeepsAll(s[1..], keep);
      assert s == [s[0]] + s[1..];
    }
  }

  /** The first item of `xs` that `p` holds for: a `for` loop that returns
      on the first match, or nothing. */
  function FirstWhere<T(==)>(xs: seq<T>, p: T -> bool): (r: Option<T>)
    ensures r.Some? ==> r.value in xs && p(r.value)
    ensures r.None? <==> forall i :: 0 <= i < |xs| ==> !p(xs[i])
  {
    if |xs| == 0 then None
    else if p(xs[0]) then Some(xs[0])
    else FirstWhere(xs[1..], p)
  }

  /** Searching a concatenation searches the second part only when the first
      has no match. */
  lemma {:induction false} FirstWhereAppend<T>(xs: seq<T>, ys: seq<T>, p: T -> bool)
    ensures FirstWhere(xs + ys, p) ==
      (if FirstWhere(xs, p).Some? then FirstWhere(xs, p) else FirstWhere(ys, p))
    decreases |xs|
  {
    if |xs| > 0 {
      assert (xs + ys)[1..] == xs[1..] + ys;
      FirstWhereAppend(xs[1..], ys, p);
    } else {
      assert xs + ys == ys;
    }
  }
}
