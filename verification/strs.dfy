/** String operations with the meaning Python's `str` gives them:
    ordering, `count`, `find`/`rfind` with slice clamping, `split`,
    `join`, `replace`, and `os.path.basename`/`splitext` on `/` paths. */
module Strs {
  import opened Wrappers

  /** Python's `a <= b` on `str`: lexicographic by code point, a proper
      prefix sorting first. */
  predicate StrLe(a: string, b: string)
    decreases |a|
  {
    |a| == 0 || (|b| > 0 && (a[0] < b[0] || (a[0] == b[0] && StrLe(a[1..], b[1..]))))
  }

  lemma {:induction false} StrLeRefl(a: string)
    ensures StrLe(a, a)
    decreases |a|
  {
    if |a| > 0 { StrLeRefl(a[1..]); }
  }

  lemma {:induction false} StrLeTotal(a: string, b: string)
    ensures StrLe(a, b) || StrLe(b, a)
    decreases |a|
  {
    if |a| > 0 && |b| > 0 && a[0] == b[0] { StrLeTotal(a[1..], b[1..]); }
  }

  lemma {:induction false} StrLeTrans(a: string, b: string, c: string)
    requires StrLe(a, b) && StrLe(b, c)
    ensures StrLe(a, c)
    decreases |a|
  {
    if |a| > 0 && |b| > 0 && |c| > 0 && a[0] == b[0] && b[0] == c[0] {
      StrLeTrans(a[1..], b[1..], c[1..]);
    }
  }

  lemma {:induction false} StrLeAntisym(a: string, b: string)
    requires StrLe(a, b) && StrLe(b, a)
    ensures a == b
    decreases |a|
  {
    if |a| > 0 {
      StrLeAntisym(a[1..], b[1..]);
      assert a == [a[0]] + a[1..];
      assert b == [b[0]] + b[1..];
    }
  }

  /** Number of occurrences of `c` in `s` (`s.count(c)` for one character). */
  function Count(s: string, c: char): nat
  {
    if |s| == 0 then 0 else (if s[0] == c then 1 else 0) + Count(s[1..], c)
  }

  lemma {:induction false} CountAppend(a: string, b: string, c: char)
    ensures Count(a + b, c) == Count(a, c) + Count(b, c)
    decreases |a|
  {
    if |a| > 0 {
      assert (a + b)[0] == a[0];
      assert (a + b)[1..] == a[1..] + b;
      CountAppend(a[1..], b, c);
    } else {
      assert a + b == b;
    }
  }

  lemma {:induction false} CountZero(s: string, c: char)
    ensures Count(s, c) == 0 <==> c !in s
    decreases |s|
  {
    if |s| > 0 {
      CountZero(s[1..], c);
      assert s == [s[0]] + s[1..];
    }
  }

  /** `pat` occurs in `s` at position `i`. */
  predicate OccursAt(s: string, pat: string, i: int)
  {
    0 <= i && i + |pat| <= |s| && s[i..i + |pat|] == pat
  }

  /** Position of the first occurrence of a non-empty `pat` in `s` (`s.find(pat)`). */
  function IndexOf(s: string, pat: string): (r: Option<nat>)
    requires |pat| > 0
    ensures r.Some? ==> OccursAt(s, pat, r.value)
    ensures r.Some? ==> forall j :: 0 <= j < r.value ==> !OccursAt(s, pat, j)
    ensures r.None? ==> forall j :: !OccursAt(s, pat, j)
    decreases |s|
  {
    if |s| < |pat| then None
    else if s[..|pat|] == pat then Some(0)
    else
      match IndexOf(s[1..], pat)
      case None =>
        forall j | j > 0 ensures !OccursAt(s, pat, j) {
          OccursShift(s, pat, j);
        }
        None
      case Some(i) =>
        OccursShift(s, pat, i + 1);
        forall j | 0 < j <= i ensures !OccursAt(s, pat, j) {
          OccursShift(s, pat, j);
        }
        Some(i + 1)
  }

  /** An occurrence at `j > 0` is one at `j - 1` in the tail. */
  lemma {:induction false} OccursShift(s: string, pat: string, j: int)
    requires |s| > 0 && j > 0
    ensures OccursAt(s, pat, j) <==> OccursAt(s[1..], pat, j - 1)
  {
    if j + |pat| <= |s| {
      assert s[1..][j - 1..j - 1 + |pat|] == s[j..j + |pat|];
    }
  }

  /** `pat in s` for a non-empty `pat`. */
  predicate Contains(s: string, pat: string)
    requires |pat| > 0
  {
    IndexOf(s, pat).Some?
  }

  predicate StartsWith(s: string, prefix: string)
  {
    |prefix| <= |s| && s[..|prefix|] == prefix
  }

  /** `sep.join(parts)`. */
  function Join(parts: seq<string>, sep: string): string
  {
    if |parts| == 0 then ""
    else if |parts| == 1 then parts[0]
    else parts[0] + sep + Join(parts[1..], sep)
  }

  /** `s.split(sep)` for a non-empty separator: cut at every non-overlapping
      occurrence, scanning left to right. */
  function Split(s: string, sep: string): (parts: seq<string>)
    requires |sep| > 0
    ensures |parts| >= 1
    ensures Join(parts, sep) == s
    ensures forall k :: 0 <= k < |parts| ==> !Contains(parts[k], sep)
    decreases |s|
  {
    match IndexOf(s, sep)
    case None => [s]
    case Some(i) =>
      var rest := Split(s[i + |sep|..], sep);
      var head := s[..i];
      assert !Contains(head, sep) by {
        forall j | OccursAt(head, sep, j) ensures false {
          assert head[j..j + |sep|] == s[j..j + |sep|];
          assert OccursAt(s, sep, j) && j < i;
        }
      }
      assert s == head + sep + s[i + |sep|..] by {
        assert s[i..i + |sep|] == sep;
        assert s == s[..i] + s[i..i + |sep|] + s[i + |sep|..];
      }
      [head] + rest
  }

  /** `s.replace(pat, rep)` for a non-empty pattern. */
  function Replace(s: string, pat: string, rep: string): string
    requires |pat| > 0
    decreases |s|
  {
    if |s| < |pat| then s
    else if s[..|pat|] == pat then rep + Replace(s[|pat|..], pat, rep)
    else [s[0]] + Replace(s[1..], pat, rep)
  }

  /** Replacing one character is a character-wise map, so it distributes over `+`. */
  lemma {:induction false} ReplaceCharAppend(a: string, b: string, c: char, rep: string)
    ensures Replace(a + b, [c], rep) == Replace(a, [c], rep) + Replace(b, [c], rep)
    decreases |a|
  {
    if |a| > 0 {
      assert (a + b)[..1] == a[..1];
      assert (a + b)[1..] == a[1..] + b;
      ReplaceCharAppend(a[1..], b, c, rep);
    } else {
      assert a + b == b;
    }
  }

  /** One-character `Replace` on a single character. */
  lemma {:induction false} ReplaceCharSingle(x: char, c: char, rep: string)
    ensures Replace([x], [c], rep) == if x == c then rep else [x]
  {
    assert [x][1..] == [];
    assert [x][..1] == [x];
  }

  /** Python's normalisation of a slice bound against a length. */
  function ClampIndex(i: int, n: nat): (r: nat)
    ensures r <= n
  {
    if i < 0 then (if i + n < 0 then 0 else i + n) else if i > n then n else i
  }

  /** `s.rfind(c, 0, end)`: the last position of `c` in `s[0:end]`, or -1. */
  function RFind(s: string, c: char, end: int): (r: int)
    ensures -1 <= r < ClampIndex(end, |s|)
    ensures r >= 0 ==> s[r] == c
    ensures forall j :: r < j < ClampIndex(end, |s|) ==> s[j] != c
  {
    RFindBelow(s, c, ClampIndex(end, |s|))
  }

  function RFindBelow(s: string, c: char, e: nat): (r: int)
    requires e <= |s|
    ensures -1 <= r < e
    ensures r >= 0 ==> s[r] == c
    ensures forall j :: r < j < e ==> s[j] != c
  {
    if e == 0 then -1 else if s[e - 1] == c then e - 1 else RFindBelow(s, c, e - 1)
  }

  /** `s.find(c, start)`: the first position of `c` in `s[start:]`, or -1. */
  function Find(s: string, c: char, start: int): (r: int)
    ensures r == -1 || ClampIndex(start, |s|) <= r < |s|
    ensures r >= 0 ==> s[r] == c
    ensures forall j :: ClampIndex(start, |s|) <= j < |s| && (r < 0 || j < r) ==> s[j] != c
  {
    FindFrom(s, c, ClampIndex(start, |s|))
  }

  function FindFrom(s: string, c: char, b: nat): (r: int)
    requires b <= |s|
    ensures r == -1 || b <= r < |s|
    ensures r >= 0 ==> s[r] == c
    ensures forall j :: b <= j < |s| && (r < 0 || j < r) ==> s[j] != c
    decreases |s| - b
  {
    if b == |s| then -1 else if s[b] == c then b else FindFrom(s, c, b + 1)
  }

  /** Position of the last `c` in `s`, if any. */
  function LastIndex(s: string, c: char): (r: Option<nat>)
    ensures r.Some? ==> r.value < |s| && s[r.value] == c
    ensures r.Some? ==> forall j :: r.value < j < |s| ==> s[j] != c
    ensures r.None? ==> c !in s
  {
    var i := RFindBelow(s, c, |s|);
    if i < 0 then None else Some(i)
  }

  /** `os.path.basename` on `/`-separated paths: everything after the last `/`. */
  function Basename(p: string): (r: string)
    ensures '/' !in r
    ensures |r| <= |p| && r == p[|p| - |r|..]
    ensures '/' !in p ==> r == p
    ensures |r| < |p| ==> p[|p| - |r| - 1] == '/'
  {
    match LastIndex(p, '/')
    case None => p
    case Some(i) => p[i + 1..]
  }

  /** `os.path.splitext(p)[1]`: the extension of the last path component,
      from its last `.`, provided some character before that dot is not a
      dot (so `.bashrc` has no extension); otherwise the empty string. */
  function Extension(p: string): (r: string)
    ensures r == [] || (r[0] == '.' && '/' !in r)
  {
    var b := Basename(p);
    match LastIndex(b, '.')
    case None => ""
    case Some(d) =>
      if exists k :: 0 <= k < d && b[k] != '.' then b[d..] else ""
  }

  /** A character that does not occur is not found. */
  lemma {:induction false} IndexOfAbsentChar(s: string, c: char)
    requires c !in s
    ensures IndexOf(s, [c]) == None
  {
    forall j | 0 <= j && j + 1 <= |s| ensures !OccursAt(s, [c], j) {
      assert s[j..j + 1] == [s[j]];
    }
  }

  /** The first occurrence of `c` in `a + [c] + b` when `a` has none. */
  lemma {:induction false} IndexOfFirstChar(a: string, c: char, b: string)
    requires c !in a
    ensures IndexOf(a + [c] + b, [c]) == Some(|a|)
  {
    var s := a + [c] + b;
    forall j | 0 <= j < |a| ensures !OccursAt(s, [c], j) {
      assert s[j..j + 1] == [a[j]];
    }
    assert s[|a|..|a| + 1] == [c];
    assert OccursAt(s, [c], |a|);
  }

  /** Splitting a `c`-joined list of `c`-free parts gives the parts back. */
  lemma {:induction false} SplitJoinChar(parts: seq<string>, c: char)
    requires |parts| >= 1
    requires forall k :: 0 <= k < |parts| ==> c !in parts[k]
    ensures Split(Join(parts, [c]), [c]) == parts
    decreases |parts|
  {
    if |parts| == 1 {
      IndexOfAbsentChar(parts[0], c);
    } else {
      var rest := Join(parts[1..], [c]);
      assert Join(parts, [c]) == parts[0] + [c] + rest;
      IndexOfFirstChar(parts[0], c, rest);
      var s := parts[0] + [c] + rest;
      assert s[..|parts[0]|] == parts[0];
      assert s[|parts[0]| + 1..] == rest;
      SplitJoinChar(parts[1..], c);
      assert parts == [parts[0]] + parts[1..];
    }
  }

  /** A single-character split has one more part than there are separators. */
  lemma {:induction false} SplitCountChar(s: string, c: char)
    ensures |Split(s, [c])| == Count(s, c) + 1
    decreases |s|
  {
    match IndexOf(s, [c])
    case None =>
      forall j | 0 <= j < |s| ensures s[j] != c {
        assert !OccursAt(s, [c], j);
        assert s[j..j + 1] == [s[j]];
      }
      CountZero(s, c);
    case Some(i) =>
      assert s[i..i + 1] == [c];
      assert s == s[..i] + [c] + s[i + 1..];
      forall j | 0 <= j < i ensures s[..i][j] != c {
        assert !OccursAt(s, [c], j);
        assert s[j..j + 1] == [s[j]];
      }
      CountZero(s[..i], c);
      CountAppend(s[..i] + [c], s[i + 1..], c);
      CountAppend(s[..i], [c], c);
      assert Count([c], c) == 1 by {
        assert [c][1..] == [];
      }
      SplitCountChar(s[i + 1..], c);
  }
}
