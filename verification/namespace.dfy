/** Projects and packages: the namespace that identifiers are resolved in,
    the registries filled during loading, and the path schemes of the
    source tree, the output tree and the "latest" symlink tree. */
module Namespace {
  import opened Wrappers
  import opened Strs
  import opened Paths
  import opened Dicts
  import opened Env
  import opened Targets
  import opened NinjaSyntax
  import opened Seqs

  /** A directory holding a BUILD file. `alias` is that of the owning
      project; `relpath` is normalised and is "." for the project root. */
  datatype Package = Package(alias: string, relpath: string, targets: seq<Target>)

  /** A project and the subprojects it registered, in registration order. */
  datatype Project = Project(
    root: string,
    buildDir: string,
    alias: string,
    subprojects: seq<Project>,
    namedEnvs: Dict<string, Env>,
    packages: seq<Package>,
    ninjaRules: Dict<string, RuleDecl>)

  /** Configuration errors raised while loading or resolving. */
  datatype NsError =
    | DuplicateSubproject(alias: string)
    | DuplicatePackage(relpath: string)
    | PackageMisconfigured(relpath: string)
    | DuplicateTarget(name: string, relpath: string)
    | DuplicateEnvironment(name: string)
    | IncompatibleRule(rule: string)
    | NotAbsolute(ident: string)
    | MalformedIdent(ident: string)
    | NoProject(alias: string)
    | TooManyColons(ident: string)
    | UnknownPackage(ident: string)
    | NoSuchTarget(name: string, package: string)
    | NoEnvironment(ident: string)
    | UnexpectedIdent(ident: string)

  const SymlinkRuleName := "cobble_symlink_product"

  /** The rule every project starts with, used for "latest" symlinks. */
  const SymlinkRule := CommandRule("ln -sf $target $out", "SYMLINK $out")

  /** A fresh project: no subprojects, environments or packages, and the
      symlink rule as its only Ninja rule. */
  function NewProject(root: string, buildDir: string, alias: string): (p: Project)
    ensures p.subprojects == [] && p.packages == [] && p.namedEnvs == []
    ensures Get(p.ninjaRules, SymlinkRuleName) == Some(SymlinkRule)
    ensures KeySet(p.ninjaRules) == {SymlinkRuleName}
  {
    Project(root, buildDir, alias, [], [], [], [(SymlinkRuleName, SymlinkRule)])
  }

  // ---------------------------------------------------------------------
  // Paths

  /** `Project.inpath`. */
  function InPath(p: Project, parts: seq<string>): string
  {
    PathJoin(p.root, parts)
  }

  /** `Project.outpath`: outputs are kept apart by environment digest. */
  function OutPath(p: Project, digest: string, parts: seq<string>): string
  {
    PathJoin(p.buildDir, ["env", p.alias, digest] + parts)
  }

  /** `Project.linkpath`: the digest-independent "latest" tree. */
  function LinkPath(p: Project, parts: seq<string>): string
  {
    PathJoin(p.buildDir, ["latest", p.alias] + parts)
  }

  /** `Package.outpath`, `Package.inpath` and `Package.linkpath`: the project's
      paths below the package directory. */
  function PackageOutPath(p: Project, pkg: Package, digest: string, parts: seq<string>): string
  {
    OutPath(p, digest, [pkg.relpath] + parts)
  }

  function PackageInPath(p: Project, pkg: Package, parts: seq<string>): string
  {
    InPath(p, [pkg.relpath] + parts)
  }

  function PackageLinkPath(p: Project, pkg: Package, parts: seq<string>): string
  {
    LinkPath(p, [pkg.relpath] + parts)
  }

  /** The directory under which a project's outputs for one digest live:
      the empty alias of a root project contributes no component. */
  function OutPrefix(p: Project): string
  {
    p.buildDir + "/env/" + (if p.alias == "" then "" else p.alias + "/")
  }

  /** The properties of a build directory, alias and digest under which
      output paths have the regular shape. */
  predicate RegularLayout(p: Project, digest: string)
  {
    p.buildDir != "" && p.buildDir[|p.buildDir| - 1] != '/' &&
    '/' !in p.alias && digest != "" && '/' !in digest
  }

  /** An output path is its parts joined onto the digest directory. */
  lemma {:induction false} OutPathBase(p: Project, digest: string, parts: seq<string>)
    requires RegularLayout(p, digest)
    ensures OutPath(p, digest, parts) == PathJoin(OutPrefix(p) + digest, parts)
  {
    DigestDirJoin(p.buildDir, p.alias, digest, parts);
    assert DigestDir(p.buildDir, p.alias, digest) == OutPrefix(p) + digest;
  }

  /** The shape of an output path: prefix, digest, then the parts. */
  lemma {:induction false} OutPathShape(p: Project, digest: string, parts: seq<string>)
    requires RegularLayout(p, digest)
    requires |parts| >= 1 && AllPlain(parts)
    ensures OutPath(p, digest, parts) == OutPrefix(p) + digest + "/" + Join(parts, "/")
  {
    OutPathBase(p, digest, parts);
    PlainOfSlashFree(digest);
    var base := OutPrefix(p) + digest;
    assert base[|base| - 1] == digest[|digest| - 1];
    PathJoinPlain(base, parts);
  }

  /** Two products built in different environments, or under different
      names, never share an output path. */
  lemma {:induction false} OutPathInjective(p: Project, d1: string, ps1: seq<string>, d2: string, ps2: seq<string>)
    requires RegularLayout(p, d1) && RegularLayout(p, d2)
    requires |ps1| >= 1 && AllPlain(ps1) && |ps2| >= 1 && AllPlain(ps2)
    requires OutPath(p, d1, ps1) == OutPath(p, d2, ps2)
    ensures d1 == d2 && Join(ps1, "/") == Join(ps2, "/")
  {
    OutPathShape(p, d1, ps1);
    OutPathShape(p, d2, ps2);
    CancelWord(OutPrefix(p), d1, Join(ps1, "/"), d2, Join(ps2, "/"));
  }

  /** The output tree and the "latest" tree are disjoint. */
  lemma {:induction false} OutPathNotLinkPath(p: Project, digest: string, ps: seq<string>, ls: seq<string>)
    requires RegularLayout(p, digest)
    requires |ps| >= 1 && AllPlain(ps) && |ls| >= 1 && AllPlain(ls)
    ensures OutPath(p, digest, ps) != LinkPath(p, ls)
  {
    OutPathShape(p, digest, ps);
    LatestJoin(p.buildDir, p.alias, ls);
    var n := |p.buildDir| + 1;
    assert OutPath(p, digest, ps)[n] == 'e';
    assert LinkPath(p, ls)[n] == 'l';
  }

  // ---------------------------------------------------------------------
  // Registries

  /** The keys subprojects, packages and targets are looked up by, as tests on one item. */
  function AliasIs(alias: string): Project -> bool { (q: Project) => q.alias == alias }
  function RelpathIs(relpath: string): Package -> bool { (q: Package) => q.relpath == relpath }
  function NameIs(name: string): Target -> bool { (t: Target) => t.name == name }

  /** The first of `ps` registered under `alias`. */
  function SubprojectNamed(ps: seq<Project>, alias: string): Option<Project>
  {
    FirstWhere(ps, AliasIs(alias))
  }

  /** `Project.add_subproject`: aliases are unique among a project's
      subprojects; the others stay reachable exactly as before. */
  function AddSubproject(p: Project, sub: Project): (r: Result<Project, NsError>)
    ensures r.Failure? <==> SubprojectNamed(p.subprojects, sub.alias).Some?
    ensures r.Success? ==> SubprojectNamed(r.value.subprojects, sub.alias) == Some(sub)
    ensures r.Success? ==> forall a :: a != sub.alias ==>
      SubprojectNamed(r.value.subprojects, a) == SubprojectNamed(p.subprojects, a)
    ensures r.Success? ==> r.value.packages == p.packages && r.value.namedEnvs == p.namedEnvs
  {
    if SubprojectNamed(p.subprojects, sub.alias).Some? then Failure(DuplicateSubproject(sub.alias))
    else
      var q := p.(subprojects := p.subprojects + [sub]);
      assert forall a :: (SubprojectNamed(q.subprojects, a) ==
        (if SubprojectNamed(p.subprojects, a).Some? then SubprojectNamed(p.subprojects, a)
         else SubprojectNamed([sub], a))) by {
        forall a ensures SubprojectNamed(p.subprojects + [sub], a) ==
          (if SubprojectNamed(p.subprojects, a).Some? then SubprojectNamed(p.subprojects, a)
           else SubprojectNamed([sub], a)) {
          FirstWhereAppend(p.subprojects, [sub], AliasIs(a));
        }
      }
      Success(q)
  }

  /** The first of `pkgs` at `relpath`. */
  function PackageAt(pkgs: seq<Package>, relpath: string): Option<Package>
  {
    FirstWhere(pkgs, RelpathIs(relpath))
  }

  /** `Project.add_package`: one package per directory, and only packages
      created for this project. */
  function AddPackage(p: Project, pkg: Package): (r: Result<Project, NsError>)
    ensures r.Failure? <==> PackageAt(p.packages, pkg.relpath).Some? || pkg.alias != p.alias
    ensures PackageAt(p.packages, pkg.relpath).Some? ==> r == Failure(DuplicatePackage(pkg.relpath))
    ensures r.Success? ==> PackageAt(r.value.packages, pkg.relpath) == Some(pkg)
    ensures r.Success? ==> forall rp :: rp != pkg.relpath ==>
      PackageAt(r.value.packages, rp) == PackageAt(p.packages, rp)
    ensures r.Success? ==> r.value.subprojects == p.subprojects && r.value.namedEnvs == p.namedEnvs
  {
    if PackageAt(p.packages, pkg.relpath).Some? then Failure(DuplicatePackage(pkg.relpath))
    else if pkg.alias != p.alias then Failure(PackageMisconfigured(pkg.relpath))
    else
      var q := p.(packages := p.packages + [pkg]);
      assert forall rp :: (PackageAt(q.packages, rp) ==
        (if PackageAt(p.packages, rp).Some? then PackageAt(p.packages, rp) else PackageAt([pkg], rp))) by {
        forall rp ensures PackageAt(p.packages + [pkg], rp) ==
          (if PackageAt(p.packages, rp).Some? then PackageAt(p.packages, rp) else PackageAt([pkg], rp)) {
          FirstWhereAppend(p.packages, [pkg], RelpathIs(rp));
        }
      }
      Success(q)
  }

  /** The first of `ts` named `name`. */
  function TargetNamed(ts: seq<Target>, name: string): Option<Target>
  {
    FirstWhere(ts, NameIs(name))
  }

  /** `Package.add_target`: target names are unique within a package. */
  function AddTarget(pkg: Package, t: Target): (r: Result<Package, NsError>)
    ensures r.Failure? <==> TargetNamed(pkg.targets, t.name).Some?
    ensures r.Success? ==> TargetNamed(r.value.targets, t.name) == Some(t)
    ensures r.Success? ==> forall n :: n != t.name ==> TargetNamed(r.value.targets, n) == TargetNamed(pkg.targets, n)
    ensures r.Success? ==> r.value.alias == pkg.alias && r.value.relpath == pkg.relpath
  {
    if TargetNamed(pkg.targets, t.name).Some? then Failure(DuplicateTarget(t.name, pkg.relpath))
    else
      var q := pkg.(targets := pkg.targets + [t]);
      assert forall n :: (TargetNamed(q.targets, n) ==
        (if TargetNamed(pkg.targets, n).Some? then TargetNamed(pkg.targets, n) else TargetNamed([t], n))) by {
        forall n ensures TargetNamed(pkg.targets + [t], n) ==
          (if TargetNamed(pkg.targets, n).Some? then TargetNamed(pkg.targets, n) else TargetNamed([t], n)) {
          FirstWhereAppend(pkg.targets, [t], NameIs(n));
        }
      }
      Success(q)
  }

  /** `Project.define_environment`: one environment per name. */
  function DefineEnvironment(p: Project, name: string, e: Env): (r: Result<Project, NsError>)
    ensures r.Failure? <==> Get(p.namedEnvs, name).Some?
    ensures r.Success? && NoDupKeys(p.namedEnvs) ==> Get(r.value.namedEnvs, name) == Some(e)
    ensures r.Success? ==> forall n :: n != name ==> Get(r.value.namedEnvs, n) == Get(p.namedEnvs, n)
    ensures r.Success? ==> NoDupKeys(p.namedEnvs) ==> NoDupKeys(r.value.namedEnvs)
  {
    if Get(p.namedEnvs, name).Some? then Failure(DuplicateEnvironment(name))
    else Success(p.(namedEnvs := Put(p.namedEnvs, name, e)))
  }

  /** Some rule of `rules` is already declared in `cur`, differently. */
  predicate Conflicts(cur: Dict<string, RuleDecl>, rules: Dict<string, RuleDecl>)
  {
    exists i :: 0 <= i < |rules| && Clash(cur, rules[i])
  }

  predicate Clash(cur: Dict<string, RuleDecl>, entry: (string, RuleDecl))
  {
    Get(cur, entry.0).Some? && Get(cur, entry.0) != Some(entry.1)
  }

  /** The loop of `Project.add_ninja_rules`: a rule already present must be
      declared identically; a new one is added. */
  function MergeRules(cur: Dict<string, RuleDecl>, rules: Dict<string, RuleDecl>): (r: Result<Dict<string, RuleDecl>, NsError>)
    requires NoDupKeys(cur) && NoDupKeys(rules)
    ensures r.Failure? <==> Conflicts(cur, rules)
    ensures r.Success? ==> NoDupKeys(r.value) && KeySet(r.value) == KeySet(cur) + KeySet(rules)
    ensures r.Success? ==> forall i :: 0 <= i < |rules| ==> Get(r.value, rules[i].0) == Some(rules[i].1)
    ensures r.Success? ==> forall k :: k in KeySet(cur) ==> Get(r.value, k) == Get(cur, k)
    decreases |rules|
  {
    if |rules| == 0 then Success(cur)
    else
      var k := rules[0].0;
      var v := rules[0].1;
      var tail := rules[1..];
      assert NoDupKeys(tail);
      match Get(cur, k)
      case Some(prev) =>
        if prev == v then
          var r := MergeRules(cur, tail);
          MergeKeptStep(cur, rules, r);
          r
        else
          assert Clash(cur, rules[0]);
          Failure(IncompatibleRule(k))
      case None =>
        var cur' := Put(cur, k, v);
        var r := MergeRules(cur', tail);
        MergeAddedStep(cur, rules, r);
        r
  }

  /** The step of `MergeRules` for a rule already present and equal. */
  lemma {:induction false} MergeKeptStep(cur: Dict<string, RuleDecl>, rules: Dict<string, RuleDecl>, r: Result<Dict<string, RuleDecl>, NsError>)
    requires NoDupKeys(cur) && NoDupKeys(rules) && |rules| > 0
    requires Get(cur, rules[0].0) == Some(rules[0].1)
    requires r.Failure? <==> Conflicts(cur, rules[1..])
    requires r.Success? ==> KeySet(r.value) == KeySet(cur) + KeySet(rules[1..])
    requires r.Success? ==> forall i :: 0 <= i < |rules[1..]| ==> Get(r.value, rules[1..][i].0) == Some(rules[1..][i].1)
    requires r.Success? ==> forall k :: k in KeySet(cur) ==> Get(r.value, k) == Get(cur, k)
    ensures r.Failure? <==> Conflicts(cur, rules)
    ensures r.Success? ==> KeySet(r.value) == KeySet(cur) + KeySet(rules)
    ensures r.Success? ==> forall i :: 0 <= i < |rules| ==> Get(r.value, rules[i].0) == Some(rules[i].1)
  {
    var tail := rules[1..];
    assert KeySet(rules) == {rules[0].0} + KeySet(tail) by {
      assert forall i :: 0 < i < |rules| ==> rules[i] == tail[i - 1];
    }
    assert rules[0].0 in KeySet(cur);
    if Conflicts(cur, rules) {
      var i :| 0 <= i < |rules| && Clash(cur, rules[i]);
      assert i > 0 && tail[i - 1] == rules[i];
    }
    if Conflicts(cur, tail) {
      var i :| 0 <= i < |tail| && Clash(cur, tail[i]);
      assert rules[i + 1] == tail[i];
    }
    if r.Success? {
      forall i | 0 <= i < |rules| ensures Get(r.value, rules[i].0) == Some(rules[i].1) {
        if i > 0 { assert rules[i] == tail[i - 1]; }
      }
    }
  }

  /** The step of `MergeRules` for a rule not yet present. */
  lemma {:induction false} MergeAddedStep(cur: Dict<string, RuleDecl>, rules: Dict<string, RuleDecl>, r: Result<Dict<string, RuleDecl>, NsError>)
    requires NoDupKeys(cur) && NoDupKeys(rules) && |rules| > 0
    requires Get(cur, rules[0].0) == None
    requires var cur' := Put(cur, rules[0].0, rules[0].1);
      (r.Failure? <==> Conflicts(cur', rules[1..])) &&
      (r.Success? ==> KeySet(r.value) == KeySet(cur') + KeySet(rules[1..])) &&
      (r.Success? ==> forall k :: k in KeySet(cur') ==> Get(r.value, k) == Get(cur', k))
    requires r.Success? ==> forall i :: 0 <= i < |rules[1..]| ==> Get(r.value, rules[1..][i].0) == Some(rules[1..][i].1)
    ensures r.Failure? <==> Conflicts(cur, rules)
    ensures r.Success? ==> KeySet(r.value) == KeySet(cur) + KeySet(rules)
    ensures r.Success? ==> forall i :: 0 <= i < |rules| ==> Get(r.value, rules[i].0) == Some(rules[i].1)
    ensures r.Success? ==> forall k :: k in KeySet(cur) ==> Get(r.value, k) == Get(cur, k)
  {
    var k := rules[0].0;
    var cur' := Put(cur, k, rules[0].1);
    var tail := rules[1..];
    assert KeySet(rules) == {k} + KeySet(tail) by {
      assert forall i :: 0 < i < |rules| ==> rules[i] == tail[i - 1];
    }
    AddedConflicts(cur, rules);
    if r.Success? {
      assert k in KeySet(cur');
      forall i | 0 <= i < |rules| ensures Get(r.value, rules[i].0) == Some(rules[i].1) {
        if i > 0 { assert rules[i] == tail[i - 1]; }
      }
    }
  }

  /** Adding a new rule first does not change which later rules clash. */
  lemma {:induction false} AddedConflicts(cur: Dict<string, RuleDecl>, rules: Dict<string, RuleDecl>)
    requires NoDupKeys(cur) && NoDupKeys(rules) && |rules| > 0
    requires Get(cur, rules[0].0) == None
    ensures Conflicts(Put(cur, rules[0].0, rules[0].1), rules[1..]) <==> Conflicts(cur, rules)
  {
    var k := rules[0].0;
    var cur' := Put(cur, k, rules[0].1);
    var tail := rules[1..];
    forall i | 0 <= i < |tail| ensures Clash(cur', tail[i]) == Clash(cur, tail[i]) {
      assert tail[i] == rules[i + 1];
      assert tail[i].0 != k;
    }
    assert !Clash(cur, rules[0]);
    if Conflicts(cur, rules) {
      var i :| 0 <= i < |rules| && Clash(cur, rules[i]);
      assert i > 0 && tail[i - 1] == rules[i];
    }
    if Conflicts(cur', tail) {
      var i :| 0 <= i < |tail| && Clash(cur', tail[i]);
      assert rules[i + 1] == tail[i];
    }
  }

  /** `Project.add_ninja_rules`. */
  function AddNinjaRules(p: Project, rules: Dict<string, RuleDecl>): (r: Result<Project, NsError>)
    requires NoDupKeys(p.ninjaRules) && NoDupKeys(rules)
    ensures r.Success? ==> forall i :: 0 <= i < |rules| ==> Get(r.value.ninjaRules, rules[i].0) == Some(rules[i].1)
    ensures r.Success? ==> forall k :: k in KeySet(p.ninjaRules) ==> Get(r.value.ninjaRules, k) == Get(p.ninjaRules, k)
    ensures r.Failure? <==> Conflicts(p.ninjaRules, rules)
  {
    var m :- MergeRules(p.ninjaRules, rules);
    Success(p.(ninjaRules := m))
  }

  /** Registering the same rules a second time changes nothing: plugins may
      declare their rules once per target. */
  lemma {:induction false} MergeRulesIdempotent(cur: Dict<string, RuleDecl>, rules: Dict<string, RuleDecl>)
    requires NoDupKeys(cur) && NoDupKeys(rules)
    requires MergeRules(cur, rules).Success?
    ensures MergeRules(MergeRules(cur, rules).value, rules) == MergeRules(cur, rules)
    decreases |rules|
  {
    var m := MergeRules(cur, rules).value;
    MergeRulesPresent(m, rules);
  }

  /** Rules that are all already present, identically, leave the dict as it is. */
  lemma {:induction false} MergeRulesPresent(m: Dict<string, RuleDecl>, rules: Dict<string, RuleDecl>)
    requires NoDupKeys(m) && NoDupKeys(rules)
    requires forall i :: 0 <= i < |rules| ==> Get(m, rules[i].0) == Some(rules[i].1)
    ensures MergeRules(m, rules) == Success(m)
    decreases |rules|
  {
    if |rules| > 0 {
      var tail := rules[1..];
      assert NoDupKeys(tail);
      assert forall i :: 0 <= i < |tail| ==> Get(m, tail[i].0) == Some(tail[i].1) by {
        forall i | 0 <= i < |tail| ensures Get(m, tail[i].0) == Some(tail[i].1) {
          assert tail[i] == rules[i + 1];
        }
      }
      MergeRulesPresent(m, tail);
    }
  }

  // ---------------------------------------------------------------------
  // Project lookup

  /** `Project.find_project`: the empty alias and the project's own alias
      mean this project; otherwise the first subproject (in registration
      order) that finds the alias in its own subtree. */
  function FindProject(p: Project, alias: string): Option<Project>
    decreases p, 1
  {
    if alias == "" || alias == p.alias then Some(p) else FirstFound(p.subprojects, alias)
  }

  function FirstFound(ps: seq<Project>, alias: string): Option<Project>
    decreases ps, 0
  {
    if |ps| == 0 then None
    else match FindProject(ps[0], alias)
      case Some(q) => Some(q)
      case None => FirstFound(ps[1..], alias)
  }

  /** The projects of a tree in depth-first pre-order. */
  function Preorder(p: Project): seq<Project>
    decreases p, 1
  {
    [p] + PreorderList(p.subprojects)
  }

  function PreorderList(ps: seq<Project>): seq<Project>
    decreases ps, 0
  {
    if |ps| == 0 then [] else Preorder(ps[0]) + PreorderList(ps[1..])
  }

  /** Lookup of a non-empty alias finds the first project carrying it in a
      depth-first pre-order walk of the tree. */
  lemma {:induction false} FindProjectPreorder(p: Project, alias: string)
    requires alias != ""
    ensures FindProject(p, alias) == SubprojectNamed(Preorder(p), alias)
    decreases p, 1
  {
    FirstWhereAppend([p], PreorderList(p.subprojects), AliasIs(alias));
    if alias != p.alias {
      FirstFoundPreorder(p.subprojects, alias);
    }
  }

  lemma {:induction false} FirstFoundPreorder(ps: seq<Project>, alias: string)
    requires alias != ""
    ensures FirstFound(ps, alias) == SubprojectNamed(PreorderList(ps), alias)
    decreases ps, 0
  {
    if |ps| > 0 {
      FindProjectPreorder(ps[0], alias);
      FirstFoundPreorder(ps[1..], alias);
      FirstWhereAppend(Preorder(ps[0]), PreorderList(ps[1..]), AliasIs(alias));
    }
  }

  // ---------------------------------------------------------------------
  // Target lookup

  /** The package part of the remainder of an identifier (after `//`), with
      `normalizeRoot` deciding whether the empty package path of `//:name`
      is read as the root package ".". */
  function PackagePart(rest: string, normalizeRoot: bool): string
  {
    var raw := if Count(rest, ':') == 0 then rest else Split(rest, ":")[0];
    if normalizeRoot && raw == "" then "." else raw
  }

  /** The target name in the remainder of an identifier: explicit after a
      colon, otherwise the last component of the package path. */
  function NamePart(rest: string): string
  {
    if Count(rest, ':') == 0 then Basename(rest)
    else var parts := Split(rest, ":"); if |parts| >= 2 then parts[1] else ""
  }

  /** The local half of `Project.find_target`: resolve `//rest` in `p`. */
  function FindLocal(p: Project, rest: string, normalizeRoot: bool): (r: Result<Target, NsError>)
    ensures Count(rest, ':') >= 2 ==> r == Failure(TooManyColons("//" + rest))
    ensures r.Success? ==> Count(rest, ':') < 2 && r.value.name == NamePart(rest)
    ensures r.Success? ==> exists pkg :: pkg in p.packages && pkg.relpath == PackagePart(rest, normalizeRoot) && r.value in pkg.targets
    ensures Count(rest, ':') < 2 ==>
      (r == Failure(UnknownPackage("//" + rest)) <==>
       forall i :: 0 <= i < |p.packages| ==> p.packages[i].relpath != PackagePart(rest, normalizeRoot))
    ensures Count(rest, ':') < 2 && PackageAt(p.packages, PackagePart(rest, normalizeRoot)).Some? ==>
      var pkg := PackageAt(p.packages, PackagePart(rest, normalizeRoot)).value;
      && (r.Success? <==> exists t :: t in pkg.targets && t.name == NamePart(rest))
      && (r.Failure? ==> r == Failure(NoSuchTarget(NamePart(rest), p.alias + "//" + PackagePart(rest, false))))
  {
    var colons := Count(rest, ':');
    if colons >= 2 then Failure(TooManyColons("//" + rest))
    else
      SplitCountChar(rest, ':');
      var path := PackagePart(rest, normalizeRoot);
      var raw := if colons == 0 then rest else Split(rest, ":")[0];
      match PackageAt(p.packages, path)
      case None => Failure(UnknownPackage("//" + rest))
      case Some(pkg) =>
        match TargetNamed(pkg.targets, NamePart(rest))
        case None => Failure(NoSuchTarget(NamePart(rest), p.alias + "//" + raw))
        case Some(t) => Success(t)
  }

  /** `Project.find_target` for an absolute identifier `[alias]//rest`. */
  function FindTargetIn(p: Project, ident: string, normalizeRoot: bool): (r: Result<Target, NsError>)
    ensures !Contains(ident, "//") ==> r == Failure(NotAbsolute(ident))
    ensures Contains(ident, "//") && |Split(ident, "//")| != 2 ==> r == Failure(MalformedIdent(ident))
    ensures Contains(ident, "//") && |Split(ident, "//")| == 2 && Split(ident, "//")[0] == "" ==>
      r == FindLocal(p, Split(ident, "//")[1], normalizeRoot)
    ensures Contains(ident, "//") && |Split(ident, "//")| == 2 && Split(ident, "//")[0] != "" ==>
      (r == Failure(NoProject(Split(ident, "//")[0])) <==> FindProject(p, Split(ident, "//")[0]).None?)
    ensures Contains(ident, "//") && |Split(ident, "//")| == 2 && FindProject(p, Split(ident, "//")[0]).Some? ==>
      r == FindLocal(FindProject(p, Split(ident, "//")[0]).value, Split(ident, "//")[1], normalizeRoot)
  {
    if !Contains(ident, "//") then Failure(NotAbsolute(ident))
    else
      var parts := Split(ident, "//");
      if |parts| != 2 then Failure(MalformedIdent(ident))
      else if parts[0] != "" then
        match FindProject(p, parts[0])
        case None => Failure(NoProject(parts[0]))
        case Some(q) => FindLocal(q, parts[1], normalizeRoot)
      else FindLocal(p, parts[1], normalizeRoot)
  }

  /** `Project.find_target` as the source writes it. */
  function FindTarget(p: Project, ident: string): Result<Target, NsError>
  {
    FindTargetIn(p, ident, false)
  }

  /** `Project.find_target` reading `alias//:name` as a target of the root
      package ".", which is how `Target.ident` names it. */
  function FindTargetCorrected(p: Project, ident: string): Result<Target, NsError>
  {
    FindTargetIn(p, ident, true)
  }

  /** In a project whose packages have distinct paths and whose packages'
      targets have distinct names, a target present at the path and under
      the name that `//rest` gives is the one found. */
  lemma {:induction false} FindLocalFinds(p: Project, rest: string, normalizeRoot: bool, pkg: Package, t: Target)
    requires Count(rest, ':') < 2
    requires pkg in p.packages && pkg.relpath == PackagePart(rest, normalizeRoot)
    requires t in pkg.targets && t.name == NamePart(rest)
    requires forall i, j :: 0 <= i < j < |p.packages| ==> p.packages[i].relpath != p.packages[j].relpath
    requires forall i, j :: 0 <= i < j < |pkg.targets| ==> pkg.targets[i].name != pkg.targets[j].name
    ensures FindLocal(p, rest, normalizeRoot) == Success(t)
  {
    var path := PackagePart(rest, normalizeRoot);
    var i :| 0 <= i < |p.packages| && p.packages[i] == pkg;
    var found := PackageAt(p.packages, path).value;
    var i' :| 0 <= i' < |p.packages| && p.packages[i'] == found;
    assert i == i';
    var k :| 0 <= k < |pkg.targets| && pkg.targets[k] == t;
    var u := TargetNamed(pkg.targets, NamePart(rest)).value;
    var k' :| 0 <= k' < |pkg.targets| && pkg.targets[k'] == u;
    assert k == k';
  }

  /** A resolved target is registered: in a project of the tree, in the
      package the identifier names, under the name it names. */
  lemma {:induction false} FindTargetSound(p: Project, ident: string, normalizeRoot: bool)
    requires FindTargetIn(p, ident, normalizeRoot).Success?
    ensures var t := FindTargetIn(p, ident, normalizeRoot).value;
      exists q, pkg :: q in Preorder(p) && pkg in q.packages && t in pkg.targets
  {
    var t := FindTargetIn(p, ident, normalizeRoot).value;
    var parts := Split(ident, "//");
    var q := if parts[0] != "" then FindProject(p, parts[0]).value else p;
    if parts[0] != "" {
      FindProjectPreorder(p, parts[0]);
      if q == p { assert q == Preorder(p)[0]; }
    } else {
      assert q == Preorder(p)[0];
    }
    var rest := parts[1];
    var pkg :| pkg in q.packages && pkg.relpath == PackagePart(rest, normalizeRoot) && t in pkg.targets;
  }

  /** Identifiers that `Target.ident` builds from well-formed names. */
  predicate NameOk(s: string)
  {
    ':' !in s && '/' !in s
  }

  /** A package path without colons, empty components or a leading slash. */
  predicate RelpathOk(r: string)
  {
    r != "" && ':' !in r && r[0] != '/' && !Contains(r, "//")
  }

  /** `t` is registered under its own name in `pkg`, `pkg` under its own
      path in `q`, and `q` is the project its alias resolves to in `root`. */
  predicate Registered(root: Project, q: Project, pkg: Package, t: Target)
  {
    FindProject(root, q.alias) == Some(q) &&
    PackageAt(q.packages, pkg.relpath) == Some(pkg) &&
    TargetNamed(pkg.targets, t.name) == Some(t) &&
    t.alias == q.alias && t.relpath == pkg.relpath &&
    NameOk(q.alias) && NameOk(t.name) && RelpathOk(pkg.relpath) &&
    (forall i :: 0 <= i < |q.packages| ==> q.packages[i].relpath != "")
  }

  /** Splitting `a + "//" + rest` at `//` when `a` has no slash. */
  lemma {:induction false} SplitPrefix(a: string, rest: string)
    requires '/' !in a
    ensures Contains(a + "//" + rest, "//")
    ensures Split(a + "//" + rest, "//") == [a] + Split(rest, "//")
  {
    var s := a + "//" + rest;
    forall j | 0 <= j < |a| ensures !OccursAt(s, "//", j) {
      assert s[j] == a[j];
      assert a[j] in a;
    }
    assert s[|a|..|a| + 2] == "//";
    assert OccursAt(s, "//", |a|);
    assert IndexOf(s, "//") == Some(|a|);
    assert s[..|a|] == a;
    assert s[|a| + 2..] == rest;
  }

  /** Splitting `a + "//" + rest` where neither side contains `//`. */
  lemma {:induction false} SplitIdent(a: string, rest: string)
    requires '/' !in a
    requires !Contains(rest, "//")
    ensures Contains(a + "//" + rest, "//")
    ensures Split(a + "//" + rest, "//") == [a, rest]
  {
    SplitPrefix(a, rest);
  }

  lemma {:induction false} NoDoubleSlashConcat(r: string, n: string)
    requires !Contains(r, "//") && '/' !in n
    ensures !Contains(r + ":" + n, "//")
  {
    var s := r + ":" + n;
    forall j | 0 <= j && j + 2 <= |s| ensures !OccursAt(s, "//", j) {
      assert s[j..j + 2] == [s[j], s[j + 1]];
      if j + 1 < |r| {
        assert s[j..j + 2] == r[j..j + 2];
        assert !OccursAt(r, "//", j);
      } else if j + 1 == |r| {
        assert s[j + 1] == ':';
      } else if j == |r| {
        assert s[j] == ':';
      } else {
        assert s[j + 1] == n[j - |r|];
        assert n[j - |r|] in n;
      }
    }
  }

  lemma {:induction false} NoSlashNoDouble(s: string)
    requires '/' !in s
    ensures !Contains(s, "//")
  {
    forall j | 0 <= j && j + 2 <= |s| ensures !OccursAt(s, "//", j) {
      assert s[j..j + 2][0] == s[j];
      assert s[j] in s;
    }
  }

  /** Splitting `relpath:name` at the single colon. */
  lemma {:induction false} SplitColon(r: string, n: string)
    requires ':' !in r && ':' !in n
    ensures Count(r + ":" + n, ':') == 1
    ensures Split(r + ":" + n, ":") == [r, n]
  {
    CountZero(r, ':');
    CountZero(n, ':');
    CountAppend(r + ":", n, ':');
    CountAppend(r, ":", ':');
    assert Count(":", ':') == 1 by { assert ":"[1..] == ""; }
    SplitJoinChar([r, n], ':');
    assert Join([r, n], ":") == r + ":" + n;
  }

  /** An identifier with the alias of a registered project is resolved
      locally in that project. */
  lemma {:induction false} ResolveIn(root: Project, q: Project, rest: string, normalizeRoot: bool)
    requires FindProject(root, q.alias) == Some(q) && NameOk(q.alias)
    requires !Contains(rest, "//")
    ensures FindTargetIn(root, q.alias + "//" + rest, normalizeRoot) == FindLocal(q, rest, normalizeRoot)
  {
    SplitIdent(q.alias, rest);
  }

  /** How the local half reads `relpath:name`. */
  lemma {:induction false} ReadColon(r: string, n: string, normalizeRoot: bool)
    requires ':' !in r && ':' !in n
    ensures Count(r + ":" + n, ':') == 1
    ensures PackagePart(r + ":" + n, normalizeRoot) == (if normalizeRoot && r == "" then "." else r)
    ensures NamePart(r + ":" + n) == n
  {
    SplitColon(r, n);
  }

  /** The remainder `relpath:name` of a target's identifier, with the empty
      package path for the root package. */
  function IdentRest(t: Target): string
  {
    (if t.relpath == "." then "" else t.relpath) + ":" + t.name
  }

  lemma {:induction false} IdentSplit(t: Target)
    requires NameOk(t.name) && RelpathOk(t.relpath)
    ensures Ident(t) == t.alias + "//" + IdentRest(t)
    ensures !Contains(IdentRest(t), "//")
  {
    if t.relpath == "." {
      assert "" + ":" + t.name == ":" + t.name;
      NoDoubleSlashConcat("", t.name);
    } else {
      NoDoubleSlashConcat(t.relpath, t.name);
    }
  }

  /** Every target outside the root package is found again from its
      identifier. */
  lemma {:induction false} IdentRoundTrip(root: Project, q: Project, pkg: Package, t: Target)
    requires Registered(root, q, pkg, t)
    requires pkg.relpath != "."
    ensures FindTarget(root, Ident(t)) == Success(t)
  {
    IdentSplit(t);
    ResolveIn(root, q, IdentRest(t), false);
    ReadColon(t.relpath, t.name, false);
  }

  /** The identifier `alias//:name` of a target in the root package "."
      names the package "" when resolved, and no package is registered
      there: `find_target` rejects it. */
  lemma {:induction false} RootIdentUnresolved(root: Project, q: Project, pkg: Package, t: Target)
    requires Registered(root, q, pkg, t)
    requires pkg.relpath == "."
    ensures FindTarget(root, Ident(t)).Failure? && FindTarget(root, Ident(t)).error.UnknownPackage?
  {
    IdentSplit(t);
    ResolveIn(root, q, IdentRest(t), false);
    ReadColon("", t.name, false);
    var rest := IdentRest(t);
    assert "" + ":" + t.name == rest;
    assert PackageAt(q.packages, "") == None;
    assert FindLocal(q, rest, false).Failure? && FindLocal(q, rest, false).error.UnknownPackage?;
  }

  /** With the root package read as ".", every registered target is found
      again from its identifier. */
  lemma {:induction false} IdentRoundTripCorrected(root: Project, q: Project, pkg: Package, t: Target)
    requires Registered(root, q, pkg, t)
    ensures FindTargetCorrected(root, Ident(t)) == Success(t)
  {
    IdentSplit(t);
    ResolveIn(root, q, IdentRest(t), true);
    if pkg.relpath == "." {
      ReadColon("", t.name, true);
      assert "" + ":" + t.name == IdentRest(t);
    } else {
      ReadColon(t.relpath, t.name, true);
    }
  }

  /** `//a:b:c` is malformed. */
  lemma {:induction false} TwoColonsRejected(p: Project)
    ensures FindTarget(p, "//a:b:c") == Failure(TooManyColons("//a:b:c"))
  {
    TwoColonsSplit();
    TwoColonsCount();
  }

  lemma {:induction false} TwoColonsSplit()
    ensures Contains("//a:b:c", "//") && Split("//a:b:c", "//") == ["", "a:b:c"]
  {
    assert "" + "//" + "a:b:c" == "//a:b:c";
    NoSlashNoDouble("a:b:c");
    SplitIdent("", "a:b:c");
  }

  lemma {:induction false} TwoColonsCount()
    ensures Count("a:b:c", ':') == 2
  {
    assert "a:b:c"[1..] == ":b:c";
    assert ":b:c"[1..] == "b:c";
    assert "b:c"[1..] == ":c";
    assert ":c"[1..] == "c";
    assert "c"[1..] == "";
  }

  // ---------------------------------------------------------------------
  // Package-relative identifiers

  /** `Package.make_absolute`. */
  function MakeAbsolute(pkg: Package, ident: string): (r: Result<string, NsError>)
    ensures r.Success? ==> Contains(r.value, "//")
    ensures r.Failure? <==> !StartsWith(ident, ":") && !Contains(ident, "//")
    ensures r.Failure? ==> r == Failure(UnexpectedIdent(ident))
    ensures StartsWith(ident, ":") ==> r == Success(pkg.alias + "//" + pkg.relpath + ident)
    ensures StartsWith(ident, "//") ==> r == Success(pkg.alias + ident)
    ensures !StartsWith(ident, ":") && !StartsWith(ident, "//") && Contains(ident, "//") ==> r == Success(ident)
  {
    if StartsWith(ident, ":") then
      assert ident[..1][0] == ':' && !StartsWith(ident, "//");
      var s := pkg.alias + "//" + pkg.relpath + ident;
      assert s[|pkg.alias|..|pkg.alias| + 2] == "//";
      assert OccursAt(s, "//", |pkg.alias|);
      Success(s)
    else if StartsWith(ident, "//") then
      var s := pkg.alias + ident;
      assert s[|pkg.alias|..|pkg.alias| + 2] == "//";
      assert OccursAt(s, "//", |pkg.alias|);
      Success(s)
    else if Contains(ident, "//") then Success(ident)
    else
      assert !StartsWith(ident, "//") ==> !OccursAt(ident, "//", 0);
      Failure(UnexpectedIdent(ident))
  }

  /** An absolute identifier is left as it is: `make_absolute` is
      idempotent. */
  lemma {:induction false} MakeAbsoluteIdempotent(pkg: Package, ident: string)
    requires MakeAbsolute(pkg, ident).Success?
    requires NameOk(pkg.alias)
    ensures MakeAbsolute(pkg, MakeAbsolute(pkg, ident).value) == MakeAbsolute(pkg, ident)
  {
    var s := MakeAbsolute(pkg, ident).value;
    if StartsWith(ident, ":") || StartsWith(ident, "//") {
      if |pkg.alias| > 0 {
        assert s[0] == pkg.alias[0];
        assert pkg.alias[0] in pkg.alias;
        assert !StartsWith(s, ":") && !StartsWith(s, "//");
      } else {
        assert s[..2] == "//";
        assert !StartsWith(s, ":");
        assert pkg.alias + s == s;
      }
    }
  }

  /** `Package.find_target`, over either reading of root-package identifiers. */
  function PackageFindTargetIn(p: Project, pkg: Package, ident: string, normalizeRoot: bool): Result<Target, NsError>
  {
    if StartsWith(ident, ":") then FindTargetIn(p, p.alias + "//" + pkg.relpath + ident, normalizeRoot)
    else FindTargetIn(p, ident, normalizeRoot)
  }

  /** `Package.find_target` as the source writes it. */
  function PackageFindTarget(p: Project, pkg: Package, ident: string): Result<Target, NsError>
  {
    PackageFindTargetIn(p, pkg, ident, false)
  }

  /** `Package.find_target` with `alias//:name` read as the root package. */
  function PackageFindTargetCorrected(p: Project, pkg: Package, ident: string): Result<Target, NsError>
  {
    PackageFindTargetIn(p, pkg, ident, true)
  }

  /** Looking a target up from its package finds what looking up the
      identifier `make_absolute` produces finds, and fails when it fails. */
  lemma {:induction false} PackageFindTargetAgrees(p: Project, pkg: Package, ident: string, normalizeRoot: bool)
    requires pkg.alias == p.alias && '/' !in p.alias
    requires MakeAbsolute(pkg, ident).Success?
    ensures PackageFindTargetIn(p, pkg, ident, normalizeRoot).Success? <==> FindTargetIn(p, MakeAbsolute(pkg, ident).value, normalizeRoot).Success?
    ensures PackageFindTargetIn(p, pkg, ident, normalizeRoot).Success? ==>
      PackageFindTargetIn(p, pkg, ident, normalizeRoot) == FindTargetIn(p, MakeAbsolute(pkg, ident).value, normalizeRoot)
  {
    var m := MakeAbsolute(pkg, ident).value;
    if StartsWith(ident, ":") {
      assert m == p.alias + "//" + pkg.relpath + ident;
      assert PackageFindTargetIn(p, pkg, ident, normalizeRoot) == FindTargetIn(p, m, normalizeRoot);
    } else if StartsWith(ident, "//") {
      assert m == p.alias + ident;
      assert PackageFindTargetIn(p, pkg, ident, normalizeRoot) == FindTargetIn(p, ident, normalizeRoot);
      SlashAgrees(p, ident, normalizeRoot);
    } else {
      assert m == ident;
      assert PackageFindTargetIn(p, pkg, ident, normalizeRoot) == FindTargetIn(p, m, normalizeRoot);
    }
  }

  /** `//rest` and `alias//rest` resolve alike in the project named `alias`. */
  lemma {:induction false} SlashAgrees(p: Project, ident: string, normalizeRoot: bool)
    requires '/' !in p.alias && StartsWith(ident, "//")
    ensures FindTargetIn(p, ident, normalizeRoot).Success? <==> FindTargetIn(p, p.alias + ident, normalizeRoot).Success?
    ensures FindTargetIn(p, ident, normalizeRoot).Success? ==> FindTargetIn(p, ident, normalizeRoot) == FindTargetIn(p, p.alias + ident, normalizeRoot)
  {
    if p.alias == "" {
      assert p.alias + ident == ident;
    } else {
      var rest := ident[2..];
      assert ident == "//" + rest;
      assert p.alias + ident == p.alias + "//" + rest;
      AliasPrefixAgrees(p, rest, normalizeRoot);
    }
  }

  /** Naming the root project by its own alias reaches the same target as
      leaving the alias out. */
  lemma {:induction false} AliasPrefixAgrees(p: Project, rest: string, normalizeRoot: bool)
    requires p.alias != "" && '/' !in p.alias
    ensures FindTargetIn(p, "//" + rest, normalizeRoot).Success? <==> FindTargetIn(p, p.alias + "//" + rest, normalizeRoot).Success?
    ensures FindTargetIn(p, "//" + rest, normalizeRoot).Success? ==> FindTargetIn(p, "//" + rest, normalizeRoot) == FindTargetIn(p, p.alias + "//" + rest, normalizeRoot)
  {
    assert "//" + rest == "" + "//" + rest;
    SplitPrefix("", rest);
    SplitPrefix(p.alias, rest);
    if |Split(rest, "//")| == 1 {
      var tail := Split(rest, "//");
      FindTargetLocal(p, "//" + rest, p, normalizeRoot);
      FindTargetLocal(p, p.alias + "//" + rest, p, normalizeRoot);
    }
  }

  /** An absolute identifier with one `//` whose project part names `q`
      is looked up locally in `q`. */
  lemma {:induction false} FindTargetLocal(p: Project, ident: string, q: Project, normalizeRoot: bool)
    requires Contains(ident, "//") && |Split(ident, "//")| == 2
    requires FindProject(p, Split(ident, "//")[0]) == Some(q)
    ensures FindTargetIn(p, ident, normalizeRoot) == FindLocal(q, Split(ident, "//")[1], normalizeRoot)
  {
    if Split(ident, "//")[0] == "" { assert q == p; }
  }

  // ---------------------------------------------------------------------
  // Environments and enumeration

  /** `Project.find_environment`: `alias//name` in the project the alias
      resolves to, or `name` in this project. */
  function FindEnvironment(p: Project, ident: string): (r: Result<Env, NsError>)
    ensures !Contains(ident, "//") ==>
      (r.Success? <==> Get(p.namedEnvs, ident).Some?) &&
      (r.Success? ==> Get(p.namedEnvs, ident) == Some(r.value))
    ensures Contains(ident, "//") && |Split(ident, "//")| != 2 ==> r == Failure(MalformedIdent(ident))
    ensures Contains(ident, "//") && |Split(ident, "//")| == 2 ==>
      match FindProject(p, Split(ident, "//")[0])
      case None => r == Failure(NoProject(Split(ident, "//")[0]))
      case Some(q) =>
        && (r.Success? <==> Get(q.namedEnvs, Split(ident, "//")[1]).Some?)
        && (r.Success? ==> Get(q.namedEnvs, Split(ident, "//")[1]) == Some(r.value))
        && (r.Failure? ==> r == Failure(NoEnvironment(ident)))
    ensures r.Success? ==> exists q :: q in Preorder(p) && Some(r.value) == Get(q.namedEnvs, EnvName(ident))
  {
    var parts := if Contains(ident, "//") then Split(ident, "//") else ["", ident];
    if |parts| != 2 then Failure(MalformedIdent(ident))
    else
      match FindProject(p, parts[0])
      case None => Failure(NoProject(parts[0]))
      case Some(q) =>
        assert q in Preorder(p) by {
          if parts[0] == "" || parts[0] == p.alias { assert q == Preorder(p)[0]; }
          else { FindProjectPreorder(p, parts[0]); }
        }
        match Get(q.namedEnvs, parts[1])
        case None => Failure(NoEnvironment(ident))
        case Some(e) => Success(e)
  }

  /** An environment defined in a project is found again under its name,
      and under the project's alias followed by `//` and its name; every
      other name finds what it found before. */
  lemma {:induction false} FindDefinedEnvironment(p: Project, name: string, e: Env)
    requires DefineEnvironment(p, name, e).Success? && NoDupKeys(p.namedEnvs)
    requires !Contains(name, "//")
    ensures FindEnvironment(DefineEnvironment(p, name, e).value, name) == Success(e)
    ensures '/' !in p.alias ==> FindEnvironment(DefineEnvironment(p, name, e).value, p.alias + "//" + name) == Success(e)
    ensures forall n :: n != name && !Contains(n, "//") ==>
      FindEnvironment(DefineEnvironment(p, name, e).value, n) == FindEnvironment(p, n)
  {
    var q := DefineEnvironment(p, name, e).value;
    if '/' !in p.alias {
      SplitIdent(p.alias, name);
      assert FindProject(q, p.alias) == Some(q);
    }
  }

  /** The environment name part of an environment identifier. */
  function EnvName(ident: string): string
  {
    if Contains(ident, "//") then
      var parts := Split(ident, "//"); if |parts| >= 2 then parts[1] else ""
    else ident
  }

  /** `Project.files`: BUILD.conf, then each package's BUILD file. */
  function Files(p: Project): (r: seq<string>)
    ensures |r| == |p.packages| + 1 && r[0] == InPath(p, ["BUILD.conf"])
    ensures forall i :: 0 <= i < |p.packages| ==> r[i + 1] == PackageInPath(p, p.packages[i], ["BUILD"])
  {
    [InPath(p, ["BUILD.conf"])] + PackageBuildFiles(p, p.packages)
  }

  function PackageBuildFiles(p: Project, pkgs: seq<Package>): (r: seq<string>)
    ensures |r| == |pkgs|
    ensures forall i :: 0 <= i < |pkgs| ==> r[i] == PackageInPath(p, pkgs[i], ["BUILD"])
  {
    if |pkgs| == 0 then [] else [PackageInPath(p, pkgs[0], ["BUILD"])] + PackageBuildFiles(p, pkgs[1..])
  }

  function TargetLists(pkgs: seq<Package>): (r: seq<seq<Target>>)
    ensures |r| == |pkgs| && forall i :: 0 <= i < |pkgs| ==> r[i] == pkgs[i].targets
  {
    seq(|pkgs|, i requires 0 <= i < |pkgs| => pkgs[i].targets)
  }

  /** `Project.targets`: the targets of each package in registration order,
      package by package in registration order. The targets of package `i`
      come after those of the packages before it and before those of the
      packages after it. */
  function AllTargets(pkgs: seq<Package>): (r: seq<Target>)
    ensures forall t :: t in r <==> exists i :: 0 <= i < |pkgs| && t in pkgs[i].targets
    ensures forall i :: 0 <= i < |pkgs| ==> r == AllTargets(pkgs[..i]) + pkgs[i].targets + AllTargets(pkgs[i + 1..])
    decreases |pkgs|
  {
    var ls := TargetLists(pkgs);
    FlattenMembers(ls);
    forall i | 0 <= i < |pkgs| ensures Flatten(ls) == AllTargets(pkgs[..i]) + pkgs[i].targets + AllTargets(pkgs[i + 1..]) {
      FlattenSplit(ls, i);
      assert ls[..i] == TargetLists(pkgs[..i]);
      assert ls[i + 1..] == TargetLists(pkgs[i + 1..]);
    }
    Flatten(ls)
  }

  predicate IsConcrete(t: Target)
  {
    t.concrete
  }

  /** `Project.concrete_targets`: the concrete targets of `targets()`, in
      the same order. */
  function ConcreteTargets(p: Project): (r: seq<Target>)
    ensures forall t :: t in r <==> t.concrete && exists i :: 0 <= i < |p.packages| && t in p.packages[i].targets
    ensures IsSubseq(r, AllTargets(p.packages))
    ensures forall i :: 0 <= i < |p.packages| ==>
      r == ConcreteIn(p.packages[..i]) + Filter(p.packages[i].targets, IsConcrete) + ConcreteIn(p.packages[i + 1..])
  {
    var all := AllTargets(p.packages);
    forall i | 0 <= i < |p.packages|
      ensures Filter(all, IsConcrete) == ConcreteIn(p.packages[..i]) + Filter(p.packages[i].targets, IsConcrete) + ConcreteIn(p.packages[i + 1..])
    {
      FilterAppend(AllTargets(p.packages[..i]) + p.packages[i].targets, AllTargets(p.packages[i + 1..]), IsConcrete);
      FilterAppend(AllTargets(p.packages[..i]), p.packages[i].targets, IsConcrete);
    }
    Filter(all, IsConcrete)
  }

  /** The concrete targets of some packages, in order. */
  function ConcreteIn(pkgs: seq<Package>): seq<Target>
  {
    Filter(AllTargets(pkgs), IsConcrete)
  }
}
