/** `os.path.join` on POSIX paths, and the shapes of the joined paths the
    namespace builds. */
module Paths {
  import opened Strs

  /** One step of `os.path.join`: an absolute component restarts the path;
      otherwise a separator is inserted unless the path is empty or already
      ends in one. */
  function JoinTwo(a: string, b: string): string
  {
    if |b| > 0 && b[0] == '/' then b
    else if a == "" || a[|a| - 1] == '/' then a + b
    else a + "/" + b
  }

  /** `os.path.join(base, *parts)`. */
  function PathJoin(base: string, parts: seq<string>): string
    decreases |parts|
  {
    if |parts| == 0 then base else PathJoin(JoinTwo(base, parts[0]), parts[1..])
  }

  /** A path component that `os.path.join` neither restarts at nor merges
      with a neighbouring separator. */
  predicate PlainComponent(c: string)
  {
    |c| > 0 && c[0] != '/' && c[|c| - 1] != '/'
  }

  predicate AllPlain(parts: seq<string>)
  {
    forall k :: 0 <= k < |parts| ==> PlainComponent(parts[k])
  }

  /** Joining plain components onto a base that does not end in a separator
      is `/`-concatenation. */
  lemma {:induction false} PathJoinPlain(base: string, parts: seq<string>)
    requires base != "" && base[|base| - 1] != '/'
    requires |parts| >= 1 && AllPlain(parts)
    ensures PathJoin(base, parts) == base + "/" + Join(parts, "/")
    decreases |parts|
  {
    var next := base + "/" + parts[0];
    assert JoinTwo(base, parts[0]) == next;
    if |parts| > 1 {
      assert next[|next| - 1] == parts[0][|parts[0]| - 1];
      PathJoinPlain(next, parts[1..]);
      assert base + "/" + Join(parts, "/") == next + "/" + Join(parts[1..], "/");
    }
  }

  lemma {:induction false} PlainOfSlashFree(c: string)
    requires c != "" && '/' !in c
    ensures PlainComponent(c)
  {
    assert c[|c| - 1] in c;
  }

  /** One component at a time. */
  lemma {:induction false} PathJoinCons(base: string, c: string, parts: seq<string>)
    ensures PathJoin(base, [c] + parts) == PathJoin(JoinTwo(base, c), parts)
  {
    assert ([c] + parts)[1..] == parts;
  }

  /** Joining a plain component onto a path that does not end in a
      separator inserts one. */
  lemma {:induction false} JoinTwoSep(a: string, w: string)
    requires a != "" && a[|a| - 1] != '/' && PlainComponent(w)
    ensures JoinTwo(a, w) == a + "/" + w
  {
  }

  /** The digest directory `build/env/[alias/]digest`. */
  function DigestDir(buildDir: string, alias: string, digest: string): string
  {
    buildDir + "/env/" + (if alias == "" then "" else alias + "/") + digest
  }

  /** The directory `build/env/[alias]` that digests are joined onto. */
  function EnvDir(b: string, alias: string): string
  {
    if alias == "" then b + "/env/" else b + "/env/" + alias
  }

  lemma {:induction false} EnvDirJoin(b: string, alias: string)
    requires b != "" && b[|b| - 1] != '/' && '/' !in alias
    ensures JoinTwo(JoinTwo(b, "env"), alias) == EnvDir(b, alias)
  {
    JoinTwoSep(b, "env");
    var env := b + "/env";
    assert env[|env| - 1] == 'v';
    if alias != "" {
      PlainOfSlashFree(alias);
      JoinTwoSep(env, alias);
    }
  }

  lemma {:induction false} DigestDirOfEnvDir(b: string, alias: string, digest: string)
    requires b != "" && b[|b| - 1] != '/' && '/' !in alias && digest != "" && '/' !in digest
    ensures JoinTwo(EnvDir(b, alias), digest) == DigestDir(b, alias, digest)
  {
    PlainOfSlashFree(digest);
    var e := EnvDir(b, alias);
    if alias == "" {
      assert e[|e| - 1] == '/';
    } else {
      PlainOfSlashFree(alias);
      assert e[|e| - 1] == alias[|alias| - 1];
      JoinTwoSep(e, digest);
    }
  }

  lemma {:induction false} PathJoinThree(b: string, x: string, y: string, z: string)
    ensures PathJoin(b, [x, y, z]) == JoinTwo(JoinTwo(JoinTwo(b, x), y), z)
  {
    assert [x, y, z][1..] == [y, z];
    assert [y, z][1..] == [z];
    assert [z][1..] == [];
    var j1 := JoinTwo(b, x);
    var j2 := JoinTwo(j1, y);
    assert PathJoin(j2, [z]) == PathJoin(JoinTwo(j2, z), []);
    assert PathJoin(j1, [y, z]) == PathJoin(j2, [z]);
    assert PathJoin(b, [x, y, z]) == PathJoin(j1, [y, z]);
  }

  /** `os.path.join(build, "env", alias, digest)`. */
  lemma {:induction false} DigestDirPath(b: string, alias: string, digest: string)
    requires b != "" && b[|b| - 1] != '/' && '/' !in alias && digest != "" && '/' !in digest
    ensures PathJoin(b, ["env", alias, digest]) == DigestDir(b, alias, digest)
  {
    PathJoinThree(b, "env", alias, digest);
    EnvDirJoin(b, alias);
    DigestDirOfEnvDir(b, alias, digest);
  }

  lemma {:induction false} DigestDirJoin(b: string, alias: string, digest: string, parts: seq<string>)
    requires b != "" && b[|b| - 1] != '/' && '/' !in alias && digest != "" && '/' !in digest
    ensures PathJoin(b, ["env", alias, digest] + parts) == PathJoin(DigestDir(b, alias, digest), parts)
  {
    PathJoinAppend(b, ["env", alias, digest], parts);
    DigestDirPath(b, alias, digest);
  }

  /** `os.path.join` is a left fold. */
  lemma {:induction false} PathJoinAppend(base: string, xs: seq<string>, ys: seq<string>)
    ensures PathJoin(base, xs + ys) == PathJoin(PathJoin(base, xs), ys)
    decreases |xs|
  {
    if |xs| == 0 {
      assert xs + ys == ys;
    } else {
      assert (xs + ys)[1..] == xs[1..] + ys;
      PathJoinAppend(JoinTwo(base, xs[0]), xs[1..], ys);
    }
  }

  /** Cancelling a common prefix followed by a slash-free word and a slash. */
  lemma {:induction false} CancelWord(pre: string, a: string, x: string, b: string, y: string)
    requires '/' !in a && '/' !in b
    requires pre + a + "/" + x == pre + b + "/" + y
    ensures a == b && x == y
  {
    var s := pre + a + "/" + x;
    var t := pre + b + "/" + y;
    assert s[|pre|..] == a + "/" + x;
    assert t[|pre|..] == b + "/" + y;
    IndexOfFirstChar(a, '/', x);
    IndexOfFirstChar(b, '/', y);
    assert (a + "/" + x)[..|a|] == a;
    assert (b + "/" + y)[..|b|] == b;
    assert (a + "/" + x)[|a| + 1..] == x;
    assert (b + "/" + y)[|b| + 1..] == y;
  }

  /** The "latest" directory of a project: `build/latest/` for the empty
      alias, `build/latest/alias` otherwise. */
  function LatestDir(b: string, alias: string): string
  {
    if alias == "" then b + "/latest/" else b + "/latest/" + alias
  }

  lemma {:induction false} PathJoinPair(b: string, x: string, y: string)
    ensures PathJoin(b, [x, y]) == JoinTwo(JoinTwo(b, x), y)
  {
    assert [x, y][1..] == [y];
    assert [y][1..] == [];
    var j1 := JoinTwo(b, x);
    assert PathJoin(j1, [y]) == PathJoin(JoinTwo(j1, y), []);
    assert PathJoin(b, [x, y]) == PathJoin(j1, [y]);
  }

  lemma {:induction false} LatestDirSteps(b: string, alias: string)
    requires b != "" && b[|b| - 1] != '/' && '/' !in alias
    ensures JoinTwo(JoinTwo(b, "latest"), alias) == LatestDir(b, alias)
  {
    JoinTwoSep(b, "latest");
    var latest := b + "/latest";
    assert latest[|latest| - 1] == 't';
    if alias != "" {
      PlainOfSlashFree(alias);
      JoinTwoSep(latest, alias);
    }
  }

  /** `os.path.join(build, "latest", alias)`. */
  lemma {:induction false} LatestDirPath(b: string, alias: string)
    requires b != "" && b[|b| - 1] != '/' && '/' !in alias
    ensures PathJoin(b, ["latest", alias]) == LatestDir(b, alias)
  {
    PathJoinPair(b, "latest", alias);
    LatestDirSteps(b, alias);
  }

  lemma {:induction false} LatestDirJoin(b: string, alias: string, ls: seq<string>)
    requires b != "" && b[|b| - 1] != '/' && '/' !in alias
    ensures PathJoin(b, ["latest", alias] + ls) == PathJoin(LatestDir(b, alias), ls)
  {
    PathJoinAppend(b, ["latest", alias], ls);
    LatestDirPath(b, alias);
  }

  /** The shape of a "latest" path: the first character after the build
      directory's separator is that of "latest". */
  lemma {:induction false} LatestJoin(b: string, alias: string, ls: seq<string>)
    requires b != "" && b[|b| - 1] != '/' && '/' !in alias
    requires AllPlain(ls)
    ensures var r := PathJoin(b, ["latest", alias] + ls);
      |r| > |b| + 1 && r[..|b| + 2] == b + "/l"
  {
    LatestDirJoin(b, alias, ls);
    var dir := LatestDir(b, alias);
    PathJoinExtends(dir, ls);
    var r := PathJoin(dir, ls);
    assert r[..|b| + 2] == r[..|dir|][..|b| + 2];
  }

  /** Joining components that are not absolute only extends the path. */
  lemma {:induction false} PathJoinExtends(base: string, parts: seq<string>)
    requires AllPlain(parts)
    ensures StartsWith(PathJoin(base, parts), base)
    decreases |parts|
  {
    if |parts| > 0 {
      var n := JoinTwo(base, parts[0]);
      assert n[..|base|] == base;
      AllPlainTail(parts);
      PathJoinExtends(n, parts[1..]);
      var r := PathJoin(n, parts[1..]);
      assert r[..|base|] == r[..|n|][..|base|];
    }
  }

  lemma {:induction false} AllPlainTail(ls: seq<string>)
    requires |ls| >= 1 && AllPlain(ls)
    ensures AllPlain(ls[1..])
  {
    forall k | 0 <= k < |ls| - 1 ensures PlainComponent(ls[1..][k]) {
      assert ls[1..][k] == ls[k + 1];
    }
  }
}
