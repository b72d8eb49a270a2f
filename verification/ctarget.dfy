/** The C plugin: compiling sources to objects, archiving libraries and
    linking programs, as the `using_and_products` hooks of `c_library` and
    `c_binary` compute them for one environment. */
module CTarget {
  import opened Wrappers
  import opened Strs
  import opened Paths
  import opened Dicts
  import opened Values
  import opened Env
  import opened Namespace
  import opened Products

  // ---------------------------------------------------------------------
  // Keys and rules

  const DepsIncludeSystemKey := "c_deps_include_system"
  const LinkSrcsKey := "c_link_srcs"
  const LinkFlagsKey := "c_link_flags"
  const CcKey := "cc"
  const CxxKey := "cxx"
  const AsppKey := "aspp"
  const ArKey := "ar"
  const CFlagsKey := "c_flags"
  const CxxFlagsKey := "cxx_flags"
  const AsppFlagsKey := "aspp_flags"
  const ArchiveProductsKey := "c_library_archive_products"
  const WholeArchiveKey := "c_library_whole_archive"

  /** The keys every compile step keeps, the keys of the link step and the
      keys of the archiver. */
  const CompileKeys: set<string> := {OrderOnlyKey, DepsIncludeSystemKey}
  const LinkKeys: set<string> := {ImplicitKey, CxxKey, LinkSrcsKey, LinkFlagsKey}
  const ArchiveKeys: set<string> := {ArKey}

  const CompileC := "compile_c_obj"
  const CompileCxx := "compile_cxx_obj"
  const AssemblePP := "assemble_obj_pp"
  const LinkProgram := "link_c_program"
  const ArchiveLibrary := "archive_c_library"
  const CompileRules: set<string> := {CompileC, CompileCxx, AssemblePP}

  /** The flags that bracket an archive linked in whole. */
  const WholeArchiveOn := "-Wl,-whole-archive"
  const WholeArchiveOff := "-Wl,-no-whole-archive"

  /** A Ninja command line as literal text and `$name` references. */
  datatype Piece = Text(text: string) | Var(name: string)

  /** How one piece is written: literal text as is, a variable as `$name`. */
  function PieceText(p: Piece): string
  {
    match p
    case Text(s) => s
    case Var(n) => "$" + n
  }

  function Render(cmd: seq<Piece>): string
  {
    if |cmd| == 0 then "" else PieceText(cmd[0]) + Render(cmd[1..])
  }

  /** The variables a command reads. */
  function VarsOf(cmd: seq<Piece>): set<string>
  {
    set i | 0 <= i < |cmd| && cmd[i].Var? :: cmd[i].name
  }

  /** Every variable the command reads appears as `$name` in its text. */
  lemma {:induction false} RenderMentions(cmd: seq<Piece>, n: string)
    requires n in VarsOf(cmd)
    ensures Contains(Render(cmd), "$" + n)
    decreases |cmd|
  {
    var i :| 0 <= i < |cmd| && cmd[i].Var? && cmd[i].name == n;
    var head := PieceText(cmd[0]);
    assert Render(cmd) == head + Render(cmd[1..]);
    if i == 0 {
      assert OccursAt(Render(cmd), "$" + n, 0);
    } else {
      assert cmd[1..][i - 1] == cmd[i];
      RenderMentions(cmd[1..], n);
      OccursAfter(head, Render(cmd[1..]), "$" + n, IndexOf(Render(cmd[1..]), "$" + n).value);
    }
  }

  lemma {:induction false} OccursAfter(a: string, b: string, pat: string, j: int)
    requires OccursAt(b, pat, j)
    ensures OccursAt(a + b, pat, |a| + j)
  {
    assert (a + b)[|a| + j..|a| + j + |pat|] == b[j..j + |pat|];
  }

  /** Variables Ninja or the rule itself defines for every build edge. */
  const EdgeVars: set<string> := {"in", "out", "depfile"}

  /** One entry of the plugin's `ninja_rules`; compile rules also write a
      `$out.d` depfile in gcc format. */
  datatype CRule = CRule(command: seq<Piece>, description: string, depfile: bool)

  function CompileCommand(tool: string, flags: string): seq<Piece>
  {
    [Var(tool), Text(" "), Var(DepsIncludeSystemKey), Text(" -MF "), Var("depfile"), Text(" "),
     Var(flags), Text(" -c -o "), Var("out"), Text(" "), Var("in")]
  }

  const LinkCommand: seq<Piece> :=
    [Var(CxxKey), Text(" "), Var(LinkFlagsKey), Text(" -o "), Var("out"), Text(" "), Var("in"), Text(" "), Var(LinkSrcsKey)]

  const ArchiveCommand: seq<Piece> := [Var(ArKey), Text(" rcs "), Var("out"), Text(" "), Var("in")]

  /** `ninja_rules`, by rule name. */
  function RuleTemplate(name: string): Option<CRule>
  {
    if name == CompileC then Some(CRule(CompileCommand(CcKey, CFlagsKey), "C $in", true))
    else if name == CompileCxx then Some(CRule(CompileCommand(CxxKey, CxxFlagsKey), "CXX $in", true))
    else if name == AssemblePP then Some(CRule(CompileCommand(AsppKey, AsppFlagsKey), "AS+CPP $in", true))
    else if name == LinkProgram then Some(CRule(LinkCommand, "LINK $out", false))
    else if name == ArchiveLibrary then Some(CRule(ArchiveCommand, "AR $out", false))
    else None
  }

  /** The rule declaration `add_ninja_rules` receives for one entry. */
  function Decl(r: CRule): NinjaSyntax.RuleDecl
  {
    if r.depfile then
      NinjaSyntax.RuleDecl(PyStr(Render(r.command)), PyStr(r.description), PyStr("$out.d"),
                           false, PyNone, false, PyNone, PyNone, PyStr("gcc"))
    else NinjaSyntax.CommandRule(Render(r.command), r.description)
  }

  const RuleNames := [CompileC, CompileCxx, AssemblePP, LinkProgram, ArchiveLibrary]

  /** The five rule names differ, and each has a template. */
  lemma {:induction false} RuleNamesOk()
    ensures forall i, j :: 0 <= i < j < |RuleNames| ==> RuleNames[i] != RuleNames[j]
    ensures forall i :: 0 <= i < |RuleNames| ==> RuleTemplate(RuleNames[i]).Some?
  {
    assert CompileC[7] == '_' && CompileCxx[7] == '_';
    assert CompileC[9] == '_' && CompileCxx[9] == 'x';
    assert |CompileC| == 13 && |CompileCxx| == 15 && |AssemblePP| == 15;
    assert |LinkProgram| == 14 && |ArchiveLibrary| == 17;
    assert CompileCxx[0] == 'c' && AssemblePP[0] == 'a';
  }

  /** The plugin's rules as the dict handed to `add_ninja_rules`. */
  function NinjaRules(): (r: Dict<string, NinjaSyntax.RuleDecl>)
    ensures NoDupKeys(r)
    ensures forall i :: 0 <= i < |r| ==> RuleTemplate(r[i].0).Some? && r[i].1 == Decl(RuleTemplate(r[i].0).value)
    ensures |r| == 5 && KeySet(r) == {CompileC, CompileCxx, AssemblePP, LinkProgram, ArchiveLibrary}
    ensures forall i :: 0 <= i < |r| && r[i].0 in CompileRules ==>
      r[i].1.depfile == PyStr("$out.d") && r[i].1.deps == PyStr("gcc")
    ensures forall i :: 0 <= i < |r| && r[i].0 !in CompileRules ==>
      r[i].1.depfile == PyNone && r[i].1.deps == PyNone
  {
    var r := seq(|RuleNames|, i requires 0 <= i < |RuleNames| => (RuleNames[i], Decl(RuleTemplate(RuleNames[i]).value)));
    RulesDeclared(r);
    RuleNamesKeys(r);
    RulesDeps(r);
    r
  }

  /** A dict that declares each of `RuleNames` in turn with its template
      has distinct keys and holds each key's template. */
  lemma {:induction false} RulesDeclared(r: Dict<string, NinjaSyntax.RuleDecl>)
    requires |r| == |RuleNames|
    requires forall i :: 0 <= i < |r| ==> r[i] == (RuleNames[i], Decl(RuleTemplate(RuleNames[i]).value))
    ensures NoDupKeys(r)
    ensures forall i :: 0 <= i < |r| ==> RuleTemplate(r[i].0).Some? && r[i].1 == Decl(RuleTemplate(r[i].0).value)
  {
    RuleNamesOk();
  }

  lemma {:induction false} RuleNamesKeys<V>(r: Dict<string, V>)
    requires |r| == |RuleNames| && forall i :: 0 <= i < |r| ==> r[i].0 == RuleNames[i]
    ensures |r| == 5 && KeySet(r) == {CompileC, CompileCxx, AssemblePP, LinkProgram, ArchiveLibrary}
  {
    assert r[0].0 == CompileC && r[1].0 == CompileCxx && r[2].0 == AssemblePP;
    assert r[3].0 == LinkProgram && r[4].0 == ArchiveLibrary;
  }

  lemma {:induction false} RulesDeps(r: Dict<string, NinjaSyntax.RuleDecl>)
    requires |r| == |RuleNames|
    requires forall i :: 0 <= i < |r| ==> r[i] == (RuleNames[i], Decl(RuleTemplate(RuleNames[i]).value))
    ensures forall i :: 0 <= i < |r| && r[i].0 in CompileRules ==>
      r[i].1.depfile == PyStr("$out.d") && r[i].1.deps == PyStr("gcc")
    ensures forall i :: 0 <= i < |r| && r[i].0 !in CompileRules ==>
      r[i].1.depfile == PyNone && r[i].1.deps == PyNone
  {
    RuleNamesOk();
    DeclDeps();
  }

  /** The compile rules write a gcc-format `$out.d` depfile; the link and
      archive rules declare neither a depfile nor deps. */
  lemma {:induction false} DeclDeps()
    ensures forall n :: RuleTemplate(n).Some? && n in CompileRules ==>
      Decl(RuleTemplate(n).value).depfile == PyStr("$out.d") && Decl(RuleTemplate(n).value).deps == PyStr("gcc")
    ensures forall n :: RuleTemplate(n).Some? && n !in CompileRules ==>
      Decl(RuleTemplate(n).value).depfile == PyNone && Decl(RuleTemplate(n).value).deps == PyNone
  {
    RuleNamesOk();
    assert RuleNames[3] == LinkProgram && RuleNames[4] == ArchiveLibrary;
  }

  /** The subset environment of a step keeps every key its rule reads. */
  predicate ReadsKept(rule: string, kept: set<string>)
  {
    RuleTemplate(rule).Some? && VarsOf(RuleTemplate(rule).value.command) <= kept + EdgeVars
  }

  /** Every variable the link command reads is one of the link keys or an
      edge variable, and appears as `$name` in the command text. */
  lemma {:induction false} LinkReadsKept()
    ensures ReadsKept(LinkProgram, LinkKeys)
    ensures forall v :: v in VarsOf(RuleTemplate(LinkProgram).value.command) ==>
      Contains(Render(RuleTemplate(LinkProgram).value.command), "$" + v)
  {
    var cmd := RuleTemplate(LinkProgram).value.command;
    forall v | v in VarsOf(cmd) ensures v in LinkKeys + EdgeVars && Contains(Render(cmd), "$" + v) {
      var i :| 0 <= i < |cmd| && cmd[i].Var? && cmd[i].name == v;
      RenderMentions(cmd, v);
    }
  }

  /** Every variable the archive command reads is one of the archive keys or
      an edge variable, and appears as `$name` in the command text. */
  lemma {:induction false} ArchiveReadsKept()
    ensures ReadsKept(ArchiveLibrary, ArchiveKeys)
    ensures forall v :: v in VarsOf(RuleTemplate(ArchiveLibrary).value.command) ==>
      Contains(Render(RuleTemplate(ArchiveLibrary).value.command), "$" + v)
  {
    var cmd := RuleTemplate(ArchiveLibrary).value.command;
    forall v | v in VarsOf(cmd) ensures v in ArchiveKeys + EdgeVars && Contains(Render(cmd), "$" + v) {
      var i :| 0 <= i < |cmd| && cmd[i].Var? && cmd[i].name == v;
      RenderMentions(cmd, v);
    }
  }

  /** Every variable a compile command reads is a common compile key, its
      tool or flags, or an edge variable, and appears as `$name` in the
      command text. */
  lemma {:induction false} CompileReadsKept(tool: string, flags: string)
    ensures VarsOf(CompileCommand(tool, flags)) <= CompileKeys + {tool, flags} + EdgeVars
    ensures forall v :: v in VarsOf(CompileCommand(tool, flags)) ==>
      Contains(Render(CompileCommand(tool, flags)), "$" + v)
  {
    var cmd := CompileCommand(tool, flags);
    forall v | v in VarsOf(cmd) ensures v in CompileKeys + {tool, flags} + EdgeVars && Contains(Render(cmd), "$" + v) {
      var i :| 0 <= i < |cmd| && cmd[i].Var? && cmd[i].name == v;
      RenderMentions(cmd, v);
    }
  }

  // ---------------------------------------------------------------------
  // Compiling one source

  const SourceExtensions: set<string> := {".c", ".cc", ".cpp", ".S"}

  /** `_file_type_map`: the compile rule for a source extension and the
      keys, besides the common compile keys, that its command reads. */
  function FileType(ext: string): (r: Option<(string, seq<string>)>)
    ensures r.Some? <==> ext in SourceExtensions
    ensures r.Some? ==> r.value.0 in CompileRules
    ensures r.Some? ==> ReadsKept(r.value.0, CompileKeys + (set k | k in r.value.1))
    ensures ext == ".c" ==> r == Some((CompileC, [CcKey, CFlagsKey]))
    ensures ext == ".cc" || ext == ".cpp" ==> r == Some((CompileCxx, [CxxKey, CxxFlagsKey]))
    ensures ext == ".S" ==> r == Some((AssemblePP, [AsppKey, AsppFlagsKey]))
  {
    if ext == ".c" then
      CompileReadsKept(CcKey, CFlagsKey);
      assert (set k | k in [CcKey, CFlagsKey]) == {CcKey, CFlagsKey};
      Some((CompileC, [CcKey, CFlagsKey]))
    else if ext == ".cc" || ext == ".cpp" then
      CompileReadsKept(CxxKey, CxxFlagsKey);
      assert (set k | k in [CxxKey, CxxFlagsKey]) == {CxxKey, CxxFlagsKey};
      Some((CompileCxx, [CxxKey, CxxFlagsKey]))
    else if ext == ".S" then
      CompileReadsKept(AsppKey, AsppFlagsKey);
      assert (set k | k in [AsppKey, AsppFlagsKey]) == {AsppKey, AsppFlagsKey};
      Some((AssemblePP, [AsppKey, AsppFlagsKey]))
    else None
  }

  /** How the plugin's hooks fail: a source of unknown type (the map lookup
      raises), or an environment update the environment rejects. */
  datatype CError = UnknownExtension(source: string) | EnvRejected(message: string)

  /** The object path for `source`: its basename plus `.o`, under the
      package's output directory for the object's environment. */
  function ObjectPath(ops: EnvOps, proj: Project, pkg: Package, oEnv: Env, source: string): string
  {
    PackageOutPath(proj, pkg, ops.digest(oEnv), [Basename(source) + ".o"])
  }

  /** `_compile_object`: a product in the environment cut down to the keys
      its rule reads, with the source as its one input and the object file
      as its one output. */
  function CompileObject(ops: EnvOps, proj: Project, pkg: Package, env: Env, source: string): (r: Result<Product, CError>)
    ensures r.Failure? <==> !Compilable(source)
    ensures r.Failure? ==> r.error == UnknownExtension(source)
    ensures r.Success? ==>
      && WellFormed(r.value) && r.value.exposed == [] && r.value.symlinks == []
      && r.value.inputs == [source] && r.value.implicitOutputs == [] && r.value.rule in CompileRules
      && r.value.outputs == [ObjectPath(ops, proj, pkg, r.value.env, source)]
    ensures r.Success? ==>
      && FileType(Extension(source)).Some?
      && r.value.rule == FileType(Extension(source)).value.0
      && r.value.env == ops.subsetRequire(env, CompileKeys + (set k | k in FileType(Extension(source)).value.1))
      && ReadsKept(r.value.rule, CompileKeys + (set k | k in FileType(Extension(source)).value.1))
  {
    match FileType(Extension(source))
    case None => Failure(UnknownExtension(source))
    case Some(ft) =>
      var kept := CompileKeys + (set k | k in ft.1);
      var oEnv := ops.subsetRequire(env, kept);
      var p := NewProduct(ops, oEnv, Outputs([ObjectPath(ops, proj, pkg, oEnv, source)]), ft.0, [source], [], [], None);
      assert p.env == ops.subsetRequire(env, kept) && ReadsKept(p.rule, kept);
      Success(p)
  }

  /** Two objects of one package land on the same path only when they are
      built in environments with the same digest from sources with the same
      basename. */
  lemma {:induction false} ObjectPathsDistinct(ops: EnvOps, proj: Project, pkg: Package, e1: Env, s1: string, e2: Env, s2: string)
    requires RegularLayout(proj, ops.digest(e1)) && RegularLayout(proj, ops.digest(e2))
    requires PlainComponent(pkg.relpath)
    requires ObjectPath(ops, proj, pkg, e1, s1) == ObjectPath(ops, proj, pkg, e2, s2)
    ensures ops.digest(e1) == ops.digest(e2) && Basename(s1) == Basename(s2)
  {
    var b1 := Basename(s1) + ".o";
    var b2 := Basename(s2) + ".o";
    ObjectNamePlain(s1);
    ObjectNamePlain(s2);
    assert [pkg.relpath] + [b1] == [pkg.relpath, b1] && [pkg.relpath] + [b2] == [pkg.relpath, b2];
    OutPathInjective(proj, ops.digest(e1), [pkg.relpath, b1], ops.digest(e2), [pkg.relpath, b2]);
    assert Join([pkg.relpath, b1], "/") == pkg.relpath + "/" + b1;
    assert Join([pkg.relpath, b2], "/") == pkg.relpath + "/" + b2;
    var n := |pkg.relpath + "/"|;
    assert b1 == (pkg.relpath + "/" + b1)[n..];
    assert b2 == (pkg.relpath + "/" + b2)[n..];
    assert Basename(s1) == b1[..|b1| - 2];
    assert Basename(s2) == b2[..|b2| - 2];
  }

  lemma {:induction false} ObjectNamePlain(s: string)
    ensures PlainComponent(Basename(s) + ".o")
  {
    var b := Basename(s) + ".o";
    if |Basename(s)| > 0 {
      assert b[0] == Basename(s)[0];
      assert b[0] in Basename(s);
    }
  }

  /** A source whose type `_file_type_map` knows. */
  predicate Compilable(source: string)
  {
    IsSourceExtension(Extension(source))
  }

  predicate IsSourceExtension(ext: string)
  {
    ext == ".c" || ext == ".cc" || ext == ".cpp" || ext == ".S"
  }

  /** `objects` are the products `CompileObject` makes of `sources`, one each. */
  predicate CompiledEach(ops: EnvOps, proj: Project, pkg: Package, env: Env, sources: seq<string>, objects: seq<Product>)
  {
    |objects| == |sources| &&
    forall i :: 0 <= i < |sources| ==> CompileObject(ops, proj, pkg, env, sources[i]) == Success(objects[i])
  }

  /** `sources[i]` is the first source of unknown type. */
  predicate FirstUncompilable(sources: seq<string>, i: int)
  {
    0 <= i < |sources| && !Compilable(sources[i]) &&
    forall j :: 0 <= j < i ==> Compilable(sources[j])
  }

  /** The object products of `sources`, in order, or the error of the
      first source whose type is unknown. */
  function CompileAll(ops: EnvOps, proj: Project, pkg: Package, env: Env, sources: seq<string>): (r: Result<seq<Product>, CError>)
    ensures r.Success? <==> forall i :: 0 <= i < |sources| ==> Compilable(sources[i])
    ensures r.Success? ==> CompiledEach(ops, proj, pkg, env, sources, r.value)
    ensures r.Failure? ==> exists i :: FirstUncompilable(sources, i) && r.error == UnknownExtension(sources[i])
    decreases |sources|
  {
    if forall i :: 0 <= i < |sources| ==> Compilable(sources[i]) then
      Success(seq(|sources|, i requires 0 <= i < |sources| => CompileObject(ops, proj, pkg, env, sources[i]).value))
    else
      var i := FirstUncompilableIndex(sources);
      Failure(UnknownExtension(sources[i]))
  }

  /** The index of the first source of unknown type, when there is one. */
  function FirstUncompilableIndex(sources: seq<string>): (i: nat)
    requires exists k :: 0 <= k < |sources| && !Compilable(sources[k])
    ensures FirstUncompilable(sources, i)
  {
    var ok := seq(|sources|, k requires 0 <= k < |sources| => Compilable(sources[k]));
    assert exists k :: 0 <= k < |ok| && !ok[k] by {
      var k :| 0 <= k < |sources| && !Compilable(sources[k]);
      assert !ok[k];
    }
    var i := FirstFalse(ok);
    assert forall j :: 0 <= j <= i ==> ok[j] == Compilable(sources[j]);
    i
  }

  /** The first `false` of a sequence of flags. */
  function FirstFalse(ok: seq<bool>): (i: nat)
    requires exists k :: 0 <= k < |ok| && !ok[k]
    ensures i < |ok| && !ok[i] && forall j :: 0 <= j < i ==> ok[j]
    decreases |ok|
  {
    if !ok[0] then 0
    else
      assert exists k :: 0 <= k < |ok[1..]| && !ok[1..][k] by {
        var k :| 0 <= k < |ok| && !ok[k];
        assert ok[1..][k - 1] == ok[k];
      }
      1 + FirstFalse(ok[1..])
  }

  /** The output paths of `objects`, one after the other. */
  function ObjFiles(objects: seq<Product>): (r: seq<string>)
    ensures (forall i :: 0 <= i < |objects| ==> |objects[i].outputs| == 1) ==>
      (|r| == |objects| && forall i :: 0 <= i < |objects| ==> r[i] == objects[i].outputs[0])
    decreases |objects|
  {
    if |objects| == 0 then [] else objects[0].outputs + ObjFiles(objects[1..])
  }

  /** The object files compiled from `sources` are their object paths. */
  lemma {:induction false} ObjFilesOfSources(ops: EnvOps, proj: Project, pkg: Package, env: Env, sources: seq<string>)
    requires CompileAll(ops, proj, pkg, env, sources).Success?
    ensures var objects := CompileAll(ops, proj, pkg, env, sources).value;
      |ObjFiles(objects)| == |sources| &&
      forall i :: 0 <= i < |sources| ==>
        ObjFiles(objects)[i] == ObjectPath(ops, proj, pkg, objects[i].env, sources[i])
  {
    var objects := CompileAll(ops, proj, pkg, env, sources).value;
    forall i | 0 <= i < |sources|
      ensures objects[i].outputs == [ObjectPath(ops, proj, pkg, objects[i].env, sources[i])]
    {
      assert CompileObject(ops, proj, pkg, env, sources[i]) == Success(objects[i]);
    }
  }

  // ---------------------------------------------------------------------
  // c_library

  /** A string list as the value of a delta entry. */
  function ListValue(xs: seq<string>): PyValue
  {
    PyList(StrList(xs))
  }

  /** Whether a library is archived: archiving is switched on and there are
      objects to archive. */
  predicate ArchiveMode(ops: EnvOps, env: Env, objFiles: seq<string>)
  {
    ops.flag(env, ArchiveProductsKey) && objFiles != []
  }

  /** The archive's environment: the archiver key plus the object files,
      whose hashes thereby reach the archive's digest. */
  function ArchiveEnv(ops: EnvOps, env: Env, objFiles: seq<string>): Result<Env, string>
  {
    ops.derive(ops.subsetRequire(env, ArchiveKeys), Bind([(LinkSrcsKey, ListValue(objFiles))]))
  }

  /** The archive path, `lib<name>.a` in the library's environment. */
  function ArchivePath(ops: EnvOps, proj: Project, pkg: Package, env: Env, name: string): string
  {
    PackageOutPath(proj, pkg, ops.digest(env), ["lib" + name + ".a"])
  }

  /** The link sources of a library's outputs, bracketed by the
      whole-archive flags when that key is set. */
  function LinkSrcs(outs: seq<string>, whole: bool): (r: seq<string>)
    ensures whole ==> |r| == |outs| + 2 && r[0] == WholeArchiveOn && r[|r| - 1] == WholeArchiveOff && r[1..|r| - 1] == outs
    ensures !whole ==> r == outs
  {
    if whole then [WholeArchiveOn] + outs + [WholeArchiveOff] else outs
  }

  /** The using-delta a library hands its users: the library's own delta,
      then its outputs as implicit dependencies and as link sources. */
  function UsingDelta(using: Delta, outs: seq<string>, linkSrcs: seq<string>): Delta
  {
    Both(using, Bind([(ImplicitKey, ListValue(outs)), (LinkSrcsKey, ListValue(linkSrcs))]))
  }

  /** The archive half of `c_library`'s hook: one `archive_c_library`
      product over the object files, which the library's users then depend
      on and link instead of the objects. */
  function Archive(ops: EnvOps, proj: Project, pkg: Package, name: string, using: Delta,
                   env: Env, objects: seq<Product>, useLinkSrcs: bool): (r: Result<(Delta, seq<Product>), CError>)
    ensures var ae := ArchiveEnv(ops, env, ObjFiles(objects));
      && (r.Failure? <==> ae.Failure?)
      && (r.Failure? ==> r.error == EnvRejected(ae.error))
      && (r.Success? ==>
            var outs := [ArchivePath(ops, proj, pkg, env, name)];
            && |r.value.1| == |objects| + 1 && r.value.1[..|objects|] == objects
            && var lib := r.value.1[|objects|];
               && WellFormed(lib) && lib.rule == ArchiveLibrary && lib.outputs == outs
               && lib.inputs == ObjFiles(objects) && lib.env == ae.value
               && r.value.0 == UsingDelta(using, outs,
                    if useLinkSrcs then LinkSrcs(outs, ops.flag(env, WholeArchiveKey)) else outs))
  {
    var objFiles := ObjFiles(objects);
    match ArchiveEnv(ops, env, objFiles)
    case Failure(m) => Failure(EnvRejected(m))
    case Success(arEnv) =>
      var outs := [ArchivePath(ops, proj, pkg, env, name)];
      var lib := NewProduct(ops, arEnv, Outputs(outs), ArchiveLibrary, objFiles, [], [], None);
      var linkSrcs := LinkSrcs(outs, ops.flag(env, WholeArchiveKey));
      Success((UsingDelta(using, outs, if useLinkSrcs then linkSrcs else outs), objects + [lib]))
  }

  /** `c_library`'s hook. With `useLinkSrcs` false it is the code as written,
      which puts `outs` under `c_link_srcs`; with it true, the computed
      link sources (with the whole-archive flags) go there instead. Without
      archiving, users get the bag of objects. */
  function LibraryIn(ops: EnvOps, proj: Project, pkg: Package, name: string, using: Delta,
                     env: Env, sources: seq<string>, useLinkSrcs: bool): (r: Result<(Delta, seq<Product>), CError>)
    ensures CompileAll(ops, proj, pkg, env, sources).Failure? ==>
      r == Failure(CompileAll(ops, proj, pkg, env, sources).error)
    ensures CompileAll(ops, proj, pkg, env, sources).Success? ==>
      var objects := CompileAll(ops, proj, pkg, env, sources).value;
      var objFiles := ObjFiles(objects);
      && (ArchiveMode(ops, env, objFiles) ==> r == Archive(ops, proj, pkg, name, using, env, objects, useLinkSrcs))
      && (!ArchiveMode(ops, env, objFiles) ==> r == Success((UsingDelta(using, objFiles, objFiles), objects)))
  {
    match CompileAll(ops, proj, pkg, env, sources)
    case Failure(e) => Failure(e)
    case Success(objects) =>
      var objFiles := ObjFiles(objects);
      if ArchiveMode(ops, env, objFiles) then Archive(ops, proj, pkg, name, using, env, objects, useLinkSrcs)
      else Success((UsingDelta(using, objFiles, objFiles), objects))
  }

  /** `c_library` as written. */
  function LibraryAsWritten(ops: EnvOps, proj: Project, pkg: Package, name: string, using: Delta,
                            env: Env, sources: seq<string>): Result<(Delta, seq<Product>), CError>
  {
    LibraryIn(ops, proj, pkg, name, using, env, sources, false)
  }

  /** `c_library` with its computed link sources in the using-delta. */
  function Library(ops: EnvOps, proj: Project, pkg: Package, name: string, using: Delta,
                   env: Env, sources: seq<string>): Result<(Delta, seq<Product>), CError>
  {
    LibraryIn(ops, proj, pkg, name, using, env, sources, true)
  }

  /** As written, the link sources a library hands on are always its
      implicit dependencies, so the whole-archive key has no effect: an
      archived library is linked as the bare archive even when the key asks
      for the whole-archive flags. */
  lemma {:induction false} WholeArchiveIgnored(ops: EnvOps, proj: Project, pkg: Package, name: string, using: Delta,
                            env: Env, sources: seq<string>)
    requires LibraryAsWritten(ops, proj, pkg, name, using, env, sources).Success?
    ensures exists outs :: LibraryAsWritten(ops, proj, pkg, name, using, env, sources).value.0 == UsingDelta(using, outs, outs)
  {
    var objects := CompileAll(ops, proj, pkg, env, sources).value;
    var objFiles := ObjFiles(objects);
    if ArchiveMode(ops, env, objFiles) {
      ArchiveAsWritten(ops, proj, pkg, name, using, env, objects);
    } else {
      assert LibraryAsWritten(ops, proj, pkg, name, using, env, sources).value.0 == UsingDelta(using, objFiles, objFiles);
    }
  }

  /** The archive step as written links the bare archive, whatever the
      whole-archive key says. */
  lemma {:induction false} ArchiveAsWritten(ops: EnvOps, proj: Project, pkg: Package, name: string, using: Delta,
                         env: Env, objects: seq<Product>)
    requires Archive(ops, proj, pkg, name, using, env, objects, false).Success?
    ensures var lib := ArchivePath(ops, proj, pkg, env, name);
      Archive(ops, proj, pkg, name, using, env, objects, false).value.0 == UsingDelta(using, [lib], [lib])
  {
  }

  /** With the correction, an archived library with the whole-archive key
      set is linked between the whole-archive flags, while its implicit
      dependency remains the archive alone. */
  lemma {:induction false} WholeArchiveHonoured(ops: EnvOps, proj: Project, pkg: Package, name: string, using: Delta,
                             env: Env, objects: seq<Product>)
    requires Archive(ops, proj, pkg, name, using, env, objects, true).Success?
    requires ops.flag(env, WholeArchiveKey)
    ensures var lib := ArchivePath(ops, proj, pkg, env, name);
      Archive(ops, proj, pkg, name, using, env, objects, true).value.0 ==
        UsingDelta(using, [lib], [WholeArchiveOn, lib, WholeArchiveOff])
  {
    var lib := ArchivePath(ops, proj, pkg, env, name);
    assert LinkSrcs([lib], true) == [WholeArchiveOn, lib, WholeArchiveOff];
  }

  // ---------------------------------------------------------------------
  // c_binary

  /** The program's environment: the link keys, with the target's own
      objects as link sources and as implicit dependencies. */
  function ProgramEnv(ops: EnvOps, env: Env, objFiles: seq<string>): Result<Env, string>
  {
    ops.derive(ops.subsetRequire(env, LinkKeys),
               Bind([(LinkSrcsKey, ListValue(objFiles)), (ImplicitKey, ListValue(objFiles))]))
  }

  /** The linked program: one output, exposed under the target's name and
      symlinked at the target's name in the "latest" tree. */
  function Program(ops: EnvOps, proj: Project, pkg: Package, name: string, progEnv: Env): (r: Product)
    ensures WellFormed(r) && r.rule == LinkProgram && r.inputs == [] && r.implicitOutputs == []
    ensures r.outputs == [PackageOutPath(proj, pkg, ops.digest(progEnv), [name])]
    ensures KeySet(r.exposed) == {name} && FindOutput(r, name) == Some(r.outputs[0])
    ensures r.symlinks == [(PackageLinkPath(proj, pkg, [name]), (r.outputs[0], []))]
  {
    var path := PackageOutPath(proj, pkg, ops.digest(progEnv), [name]);
    var p := NewProduct(ops, progEnv, Outputs([path]), LinkProgram, [], [], [], None);
    var e := Expose(p, path, name);
    assert e.Success?;
    var s := Symlink(e.value, path, PackageLinkPath(proj, pkg, [name]), []);
    assert s.Success?;
    s.value
  }

  /** `c_binary`'s hook: the object products, then the program; users
      depend on the program's symlink. */
  function Binary(ops: EnvOps, proj: Project, pkg: Package, name: string, env: Env, sources: seq<string>): (r: Result<(Delta, seq<Product>), CError>)
    ensures CompileAll(ops, proj, pkg, env, sources).Failure? ==>
      r == Failure(CompileAll(ops, proj, pkg, env, sources).error)
    ensures CompileAll(ops, proj, pkg, env, sources).Success? ==>
      var objects := CompileAll(ops, proj, pkg, env, sources).value;
      var pe := ProgramEnv(ops, env, ObjFiles(objects));
      && (r.Failure? <==> pe.Failure?)
      && (r.Failure? ==> r.error == EnvRejected(pe.error))
      && (r.Success? ==>
            && |r.value.1| == |sources| + 1 && r.value.1[..|sources|] == objects
            && r.value.1[|sources|] == Program(ops, proj, pkg, name, pe.value)
            && r.value.0 == Bind([(ImplicitKey, ListValue([PackageLinkPath(proj, pkg, [name])]))]))
  {
    match CompileAll(ops, proj, pkg, env, sources)
    case Failure(e) => Failure(e)
    case Success(objects) =>
      match ProgramEnv(ops, env, ObjFiles(objects))
      case Failure(m) => Failure(EnvRejected(m))
      case Success(pe) =>
        var using := Bind([(ImplicitKey, ListValue([PackageLinkPath(proj, pkg, [name])]))]);
        Success((using, objects + [Program(ops, proj, pkg, name, pe)]))
  }

  /** Exactly one product of a binary links, and it is the last: the others
      compile the sources, one each, in order. */
  lemma {:induction false} BinaryProducts(ops: EnvOps, proj: Project, pkg: Package, name: string, env: Env, sources: seq<string>)
    requires Binary(ops, proj, pkg, name, env, sources).Success?
    ensures var ps := Binary(ops, proj, pkg, name, env, sources).value.1;
      && |ps| == |sources| + 1
      && CompiledEach(ops, proj, pkg, env, sources, ps[..|sources|])
      && (forall i :: 0 <= i < |sources| ==> ps[i].rule in CompileRules)
      && ps[|sources|].rule == LinkProgram
  {
    var all := CompileAll(ops, proj, pkg, env, sources);
    assert all.Success?;
    var ps := Binary(ops, proj, pkg, name, env, sources).value.1;
    assert ps[..|sources|] == all.value;
    forall i | 0 <= i < |sources| ensures ps[i].rule in CompileRules {
      assert ps[i] == all.value[i];
      assert CompileObject(ops, proj, pkg, env, sources[i]) == Success(all.value[i]);
    }
  }
}
