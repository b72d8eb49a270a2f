/** Concrete build products: what a target evaluation yields, the outputs
    it exposes and symlinks, and the Ninja build dicts it lowers to. */
module Products {
  import opened Wrappers
  import opened Strs
  import opened Dicts
  import opened Values
  import opened Env
  import opened Sorting
  import opened Namespace
  import NinjaSyntax

  /** The `outputs` argument: a list, or a pair of lists (outputs, implicit outputs). */
  datatype Outputs =
    | Outputs(outs: seq<string>)
    | WithImplicit(outs: seq<string>, implicitOuts: seq<string>)

  /** A product. `exposed` maps names to output paths; `symlinks` maps a
      symlink path to the output it points at and the symlink paths it is
      ordered after. */
  datatype Product = Product(
    env: Env,
    inputs: seq<string>,
    rule: string,
    outputs: seq<string>,
    implicitOutputs: seq<string>,
    dyndep: Option<string>,
    implicit: set<string>,
    orderOnly: set<string>,
    variables: seq<(string, PyValue)>,
    exposed: Dict<string, string>,
    symlinks: Dict<string, (string, seq<string>)>)

  /** The assertion a misuse of `expose` or `symlink` trips. */
  datatype ProductError =
    | NotAnOutput(path: string)
    | DuplicateName(name: string)
    | DuplicateSource(source: string)
    | UnknownOrderOnly(dep: string)

  /** Outputs and implicit outputs together. */
  function AllOutputs(p: Product): set<string>
  {
    (set x | x in p.outputs) + (set x | x in p.implicitOutputs)
  }

  /** What `expose` and `symlink` maintain: each exposed path and each
      symlink target is an output, and a symlink is ordered only after
      symlinks registered before it. */
  predicate WellFormed(p: Product)
  {
    && NoDupKeys(p.exposed)
    && NoDupKeys(p.symlinks)
    && (forall i :: 0 <= i < |p.exposed| ==> p.exposed[i].1 in AllOutputs(p))
    && (forall i :: 0 <= i < |p.symlinks| ==> p.symlinks[i].1.0 in AllOutputs(p))
    && LinksOrdered(p.symlinks)
  }

  /** Each symlink is ordered only after symlinks registered before it. */
  predicate LinksOrdered(links: Dict<string, (string, seq<string>)>)
  {
    forall i, k :: 0 <= i < |links| && 0 <= k < |links[i].1.1| ==>
      exists j :: 0 <= j < i && links[j].0 == links[i].1.1[k]
  }

  /** `Product(env, outputs, rule, inputs, implicit, order_only, dyndep)`:
      the implicit and order-only sets extend those accumulated in `env`,
      and the variables are the readout of `env` without those two keys. */
  function NewProduct(ops: EnvOps, env: Env, outputs: Outputs, rule: string, inputs: seq<string>,
                      implicit: seq<string>, orderOnly: seq<string>, dyndep: Option<string>): (p: Product)
    ensures WellFormed(p) && p.exposed == [] && p.symlinks == []
    ensures p.env == env && p.dyndep == dyndep
    ensures p.outputs == outputs.outs && p.inputs == inputs && p.rule == rule
    ensures p.variables == ops.readout(env)
    ensures p.implicitOutputs == (if outputs.WithImplicit? then outputs.implicitOuts else [])
    ensures forall x :: x in p.implicit <==> x in ops.paths(env, ImplicitKey) || x in implicit
    ensures forall x :: x in p.orderOnly <==> x in ops.paths(env, OrderOnlyKey) || x in orderOnly
  {
    var implicitOuts := if outputs.WithImplicit? then outputs.implicitOuts else [];
    Product(env, inputs, rule, outputs.outs, implicitOuts, dyndep,
            ops.paths(env, ImplicitKey) + (set x | x in implicit),
            ops.paths(env, OrderOnlyKey) + (set x | x in orderOnly),
            ops.readout(env), [], [])
  }

  /** `expose(path = path, name = name)`. */
  function Expose(p: Product, path: string, name: string): (r: Result<Product, ProductError>)
    ensures r.Failure? <==> path !in AllOutputs(p) || name in KeySet(p.exposed)
    ensures path !in AllOutputs(p) ==> r == Failure(NotAnOutput(path))
    ensures r.Success? ==> r.value.(exposed := p.exposed) == p
    ensures r.Success? && NoDupKeys(p.exposed) ==>
      && FindOutput(r.value, name) == Some(path)
      && (forall n :: n != name ==> FindOutput(r.value, n) == FindOutput(p, n))
    ensures r.Success? && WellFormed(p) ==> WellFormed(r.value)
  {
    if path !in AllOutputs(p) then Failure(NotAnOutput(path))
    else if name in KeySet(p.exposed) then Failure(DuplicateName(name))
    else
      var q := p.(exposed := Put(p.exposed, name, path));
      assert q.exposed == p.exposed + [(name, path)];
      Success(q)
  }

  /** The first of `deps` that is not yet a symlink source. */
  function FirstUnknown(links: Dict<string, (string, seq<string>)>, deps: seq<string>): (r: Option<string>)
    ensures r.None? <==> forall k :: 0 <= k < |deps| ==> deps[k] in KeySet(links)
    ensures r.Some? ==> r.value in deps && r.value !in KeySet(links)
  {
    if |deps| == 0 then None
    else if deps[0] !in KeySet(links) then Some(deps[0])
    else
      var r := FirstUnknown(links, deps[1..]);
      assert forall k :: 1 <= k < |deps| ==> deps[k] == deps[1..][k - 1];
      r
  }

  /** `symlink(target = target, source = source, order_only = deps)`:
      a new symlink at `source` pointing at the output `target`, ordered
      after the symlinks `deps`, which must already exist. */
  function Symlink(p: Product, target: string, source: string, deps: seq<string>): (r: Result<Product, ProductError>)
    ensures r.Failure? <==>
      || target !in AllOutputs(p)
      || source in KeySet(p.symlinks)
      || (exists k :: 0 <= k < |deps| && deps[k] !in KeySet(p.symlinks))
    ensures target !in AllOutputs(p) ==> r == Failure(NotAnOutput(target))
    ensures target in AllOutputs(p) && source in KeySet(p.symlinks) ==> r == Failure(DuplicateSource(source))
    ensures r.Success? ==> r.value.(symlinks := p.symlinks) == p
    ensures r.Success? ==> r.value.symlinks == p.symlinks + [(source, (target, deps))]
    ensures r.Success? && WellFormed(p) ==> WellFormed(r.value)
  {
    if target !in AllOutputs(p) then Failure(NotAnOutput(target))
    else if source in KeySet(p.symlinks) then Failure(DuplicateSource(source))
    else
      match FirstUnknown(p.symlinks, deps)
      case Some(d) => Failure(UnknownOrderOnly(d))
      case None =>
        var q := p.(symlinks := p.symlinks + [(source, (target, deps))]);
        assert WellFormed(p) ==> WellFormed(q) by {
          if WellFormed(p) { AppendLinkWellFormed(p, target, source, deps); }
        }
        Success(q)
  }

  lemma {:induction false} AppendLinkWellFormed(p: Product, target: string, source: string, deps: seq<string>)
    requires WellFormed(p)
    requires target in AllOutputs(p) && source !in KeySet(p.symlinks)
    requires forall k :: 0 <= k < |deps| ==> deps[k] in KeySet(p.symlinks)
    ensures WellFormed(p.(symlinks := p.symlinks + [(source, (target, deps))]))
  {
    var q := p.(symlinks := p.symlinks + [(source, (target, deps))]);
    var n := |p.symlinks|;
    assert AllOutputs(q) == AllOutputs(p);
    assert forall i :: 0 <= i < n ==> q.symlinks[i] == p.symlinks[i];
    assert q.symlinks[n] == (source, (target, deps));
    forall i, j | 0 <= i < j < |q.symlinks| ensures q.symlinks[i].0 != q.symlinks[j].0 {
      if j == n { assert p.symlinks[i].0 in KeySet(p.symlinks); }
    }
    assert NoDupKeys(q.symlinks);
    assert forall i :: 0 <= i < |q.symlinks| ==> q.symlinks[i].1.0 in AllOutputs(q);
    forall i, k | 0 <= i < |q.symlinks| && 0 <= k < |q.symlinks[i].1.1|
      ensures exists j :: 0 <= j < i && q.symlinks[j].0 == q.symlinks[i].1.1[k]
    {
      if i < n {
        var j :| 0 <= j < i && p.symlinks[j].0 == p.symlinks[i].1.1[k];
        assert q.symlinks[j] == p.symlinks[j];
      } else {
        assert deps[k] in KeySet(p.symlinks);
        var j :| 0 <= j < n && p.symlinks[j].0 == deps[k];
        assert q.symlinks[j] == p.symlinks[j];
      }
    }
  }

  /** `find_output(name)`: the path exposed under `name`, if any. */
  function FindOutput(p: Product, name: string): (r: Option<string>)
    ensures r.None? <==> name !in KeySet(p.exposed)
    ensures r.Some? && WellFormed(p) ==> r.value in AllOutputs(p)
  {
    Get(p.exposed, name)
  }

  // ---------------------------------------------------------------------
  // Lowering to Ninja build dicts

  predicate StrictlySorted(xs: seq<string>)
  {
    forall i, j :: 0 <= i < j < |xs| ==> StrLe(xs[i], xs[j]) && xs[i] != xs[j]
  }

  predicate IsLeast(m: string, s: set<string>)
  {
    m in s && forall y :: y in s ==> StrLe(m, y)
  }

  lemma {:induction false} LeastExists(s: set<string>)
    requires s != {}
    ensures exists m :: IsLeast(m, s)
    decreases |s|
  {
    var y :| y in s;
    if s - {y} == {} {
      assert s == {y};
      StrLeRefl(y);
      assert IsLeast(y, s);
    } else {
      LeastExists(s - {y});
      var m :| IsLeast(m, s - {y});
      StrLeTotal(m, y);
      if StrLe(m, y) {
        assert IsLeast(m, s);
      } else {
        forall z | z in s ensures StrLe(y, z) {
          if z != y { StrLeTrans(y, m, z); } else { StrLeRefl(y); }
        }
        assert IsLeast(y, s);
      }
    }
  }

  lemma {:induction false} LeastUnique(s: set<string>)
    ensures forall a, b :: IsLeast(a, s) && IsLeast(b, s) ==> a == b
  {
    forall a, b | IsLeast(a, s) && IsLeast(b, s) ensures a == b { StrLeAntisym(a, b); }
  }

  /** `sorted(s)` for a set of strings. */
  function SortedOfSet(s: set<string>): (r: seq<string>)
    ensures |r| == |s|
    ensures forall x :: x in r <==> x in s
    ensures StrictlySorted(r)
    decreases |s|
  {
    if s == {} then []
    else
      LeastExists(s);
      LeastUnique(s);
      var m :| IsLeast(m, s);
      var rest := SortedOfSet(s - {m});
      ConsLeast(s, m, rest);
      [m] + rest
  }

  lemma {:induction false} ConsLeast(s: set<string>, m: string, rest: seq<string>)
    requires IsLeast(m, s) && StrictlySorted(rest)
    requires forall x :: x in rest <==> x in s - {m}
    ensures StrictlySorted([m] + rest)
    ensures forall x :: x in [m] + rest <==> x in s
  {
    var r := [m] + rest;
    forall i, j | 0 <= i < j < |r| ensures StrLe(r[i], r[j]) && r[i] != r[j] {
      assert r[j] == rest[j - 1];
      if i > 0 { assert r[i] == rest[i - 1]; } else { assert rest[j - 1] in s - {m}; }
    }
  }

  /** The head of a strictly sorted listing of `s` is the least element of `s`. */
  lemma {:induction false} HeadIsLeast(s: set<string>, xs: seq<string>)
    requires StrictlySorted(xs) && |xs| > 0
    requires forall x :: x in xs <==> x in s
    ensures IsLeast(xs[0], s)
  {
    forall y | y in s ensures StrLe(xs[0], y) {
      var k :| 0 <= k < |xs| && xs[k] == y;
      if k == 0 { StrLeRefl(y); }
    }
  }

  /** Dropping the head of a strictly sorted listing lists the rest of the set. */
  lemma {:induction false} TailLists(s: set<string>, xs: seq<string>)
    requires StrictlySorted(xs) && |xs| > 0
    requires forall x :: x in xs <==> x in s
    ensures StrictlySorted(xs[1..])
    ensures forall x :: x in xs[1..] <==> x in s - {xs[0]}
  {
    forall x ensures x in xs[1..] <==> x in s - {xs[0]} {
      if x in xs[1..] {
        var k :| 0 <= k < |xs[1..]| && xs[1..][k] == x;
        assert xs[k + 1] == x;
      }
      if x in s - {xs[0]} {
        var k :| 0 <= k < |xs| && xs[k] == x;
        assert xs[1..][k - 1] == x;
      }
    }
  }

  /** A strictly sorted listing of a set is its sorted form: `sorted` does
      not depend on the set's iteration order. */
  lemma {:induction false} SortedOfSetUnique(s: set<string>, xs: seq<string>)
    requires StrictlySorted(xs)
    requires forall x :: x in xs <==> x in s
    ensures xs == SortedOfSet(s)
    decreases |xs|
  {
    var r := SortedOfSet(s);
    if |xs| == 0 {
      assert forall y :: y !in s;
    } else {
      assert s != {} by { assert xs[0] in s; }
      HeadIsLeast(s, xs);
      LeastUnique(s);
      TailLists(s, xs);
      SortedOfSetUnique(s - {xs[0]}, xs[1..]);
      assert xs == [xs[0]] + xs[1..];
    }
  }

  /** A build dict: the keyword arguments of one `build` statement. An
      optional key that is absent is `None`. */
  datatype BuildDict = BuildDict(
    outputs: seq<string>,
    rule: string,
    implicitOutputs: Option<seq<string>>,
    inputs: Option<seq<string>>,
    implicit: Option<seq<string>>,
    orderOnly: Option<seq<string>>,
    variables: Option<seq<(string, PyValue)>>,
    dyndep: Option<string>)

  function NonEmpty<T>(xs: seq<T>): (r: Option<seq<T>>)
    ensures r.Some? <==> |xs| > 0
    ensures r.Some? ==> r.value == xs
  {
    if |xs| > 0 then Some(xs) else None
  }

  /** The primary dict: outputs and rule always; implicit outputs, inputs,
      the sorted implicit and order-only sets, the variables sorted by name
      and the dyndep file only when non-empty. */
  function PrimaryDict(p: Product): (d: BuildDict)
    ensures d.outputs == p.outputs && d.rule == p.rule
    ensures d.implicitOutputs.Some? <==> |p.implicitOutputs| > 0
    ensures d.inputs.Some? <==> |p.inputs| > 0
    ensures d.implicit.Some? <==> p.implicit != {}
    ensures d.implicit.Some? ==>
      StrictlySorted(d.implicit.value) && forall x :: x in d.implicit.value <==> x in p.implicit
    ensures d.orderOnly.Some? <==> p.orderOnly != {}
    ensures d.orderOnly.Some? ==>
      StrictlySorted(d.orderOnly.value) && forall x :: x in d.orderOnly.value <==> x in p.orderOnly
    ensures d.variables.Some? <==> |p.variables| > 0
    ensures d.variables.Some? ==>
      multiset(d.variables.value) == multiset(p.variables)
      && SortedBy(d.variables.value, ByKey<PyValue>())
    ensures d.dyndep.Some? <==> p.dyndep.Some? && p.dyndep.value != ""
  {
    BuildDict(
      p.outputs, p.rule,
      NonEmpty(p.implicitOutputs),
      NonEmpty(p.inputs),
      NonEmpty(SortedOfSet(p.implicit)),
      NonEmpty(SortedOfSet(p.orderOnly)),
      NonEmpty(Sort(p.variables, ByKey<PyValue>())),
      if p.dyndep.Some? && p.dyndep.value != "" then p.dyndep else None)
  }

  /** `s.rstrip('/')`. */
  function RStripSlash(s: string): (r: string)
    ensures StartsWith(s, r)
    ensures |r| == 0 || r[|r| - 1] != '/'
    ensures forall j :: |r| <= j < |s| ==> s[j] == '/'
  {
    if |s| == 0 || s[|s| - 1] != '/' then s
    else
      var r := RStripSlash(s[..|s| - 1]);
      assert s[..|s| - 1][..|r|] == s[..|r|];
      r
  }

  /** `os.path.dirname`: everything before the last `/`, with trailing
      slashes removed unless the head is made of slashes only. */
  function Dirname(p: string): (r: string)
    ensures StartsWith(p, r)
    ensures '/' !in p ==> r == ""
  {
    var i := RFind(p, '/', |p|) + 1;
    var head := p[..i];
    if head != [] && exists j :: 0 <= j < |head| && head[j] != '/' then
      var r := RStripSlash(head);
      assert p[..|r|] == head[..|r|];
      r
    else head
  }

  /** The dirname of `a/b` is `a`, when `b` has no `/` and `a` does not end in one. */
  lemma {:induction false} DirnameOf(a: string, b: string)
    requires |a| > 0 && a[|a| - 1] != '/'
    requires '/' !in b
    ensures Dirname(a + "/" + b) == a
  {
    var p := a + "/" + b;
    assert p[|a|] == '/';
    var i := RFind(p, '/', |p|);
    assert i == |a| by {
      assert forall j :: |a| < j < |p| ==> p[j] == b[j - |a| - 1];
    }
    var head := p[..i + 1];
    assert head[|a| - 1] != '/';
    assert head == a + "/";
  }

  /** The dict for one symlink: built by `cobble_symlink_product`, ordered
      after every output of the product and after the symlinks it names,
      with the link target relative to the link's directory. */
  function SymlinkDict(p: Product, link: (string, (string, seq<string>)), relpath: (string, string) -> string): (d: BuildDict)
    ensures d.outputs == [link.0] && d.rule == SymlinkRuleName
    ensures d.orderOnly == Some(p.outputs + p.implicitOutputs + link.1.1)
    ensures d.variables == Some([("target", PyStr(relpath(link.1.0, Dirname(link.0))))])
    ensures d.implicitOutputs.None? && d.inputs.None? && d.implicit.None? && d.dyndep.None?
  {
    BuildDict([link.0], SymlinkRuleName, None, None, None,
              Some(p.outputs + p.implicitOutputs + link.1.1),
              Some([("target", PyStr(relpath(link.1.0, Dirname(link.0))))]), None)
  }

  function SymlinkDicts(p: Product, links: Dict<string, (string, seq<string>)>, relpath: (string, string) -> string): (ds: seq<BuildDict>)
    ensures |ds| == |links|
    ensures forall i :: 0 <= i < |links| ==> ds[i] == SymlinkDict(p, links[i], relpath)
  {
    if |links| == 0 then [] else [SymlinkDict(p, links[0], relpath)] + SymlinkDicts(p, links[1..], relpath)
  }

  /** `ninja_dicts()`: the primary dict, then one dict per symlink in
      registration order. `os.path.relpath` is the parameter `relpath`. */
  function NinjaDicts(p: Product, relpath: (string, string) -> string): (ds: seq<BuildDict>)
    ensures |ds| == 1 + |p.symlinks|
    ensures ds[0] == PrimaryDict(p)
    ensures ds[1..] == SymlinkDicts(p, p.symlinks, relpath)
    ensures forall i :: 0 <= i < |p.symlinks| ==> ds[i + 1].rule == SymlinkRuleName && ds[i + 1].outputs == [p.symlinks[i].0]
  {
    [PrimaryDict(p)] + SymlinkDicts(p, p.symlinks, relpath)
  }

  /** A new product lowers to one dict: its outputs and rule, the inputs
      when there are any, the implicit and order-only sets of the
      environment extended by the arguments, in sorted order, and the
      environment's readout sorted by name. */
  lemma {:induction false} NewProductLowered(ops: EnvOps, env: Env, outputs: Outputs, rule: string, inputs: seq<string>,
                                             implicit: seq<string>, orderOnly: seq<string>, dyndep: Option<string>,
                                             relpath: (string, string) -> string)
    ensures var p := NewProduct(ops, env, outputs, rule, inputs, implicit, orderOnly, dyndep);
      var d := PrimaryDict(p);
      && NinjaDicts(p, relpath) == [d]
      && d.outputs == outputs.outs && d.rule == rule
      && (d.inputs.Some? <==> |inputs| > 0) && (d.inputs.Some? ==> d.inputs.value == inputs)
      && (d.implicit.Some? ==> forall x :: x in d.implicit.value <==> x in ops.paths(env, ImplicitKey) || x in implicit)
      && (d.implicit.None? <==> ops.paths(env, ImplicitKey) == {} && |implicit| == 0)
      && (d.orderOnly.Some? ==> forall x :: x in d.orderOnly.value <==> x in ops.paths(env, OrderOnlyKey) || x in orderOnly)
      && (d.orderOnly.None? <==> ops.paths(env, OrderOnlyKey) == {} && |orderOnly| == 0)
      && (d.variables.Some? ==> multiset(d.variables.value) == multiset(ops.readout(env)))
      && (d.dyndep.Some? ==> d.dyndep == dyndep)
  {
    var p := NewProduct(ops, env, outputs, rule, inputs, implicit, orderOnly, dyndep);
    var d := PrimaryDict(p);
    if |implicit| > 0 { assert implicit[0] in p.implicit; }
    if |orderOnly| > 0 { assert orderOnly[0] in p.orderOnly; }
    if d.inputs.Some? { assert d.inputs.value == inputs; }
  }

  /** In a well-formed product, the symlink dicts write distinct links. */
  lemma {:induction false} SymlinkDictsDistinct(p: Product, relpath: (string, string) -> string)
    requires NoDupKeys(p.symlinks)
    ensures var ds := SymlinkDicts(p, p.symlinks, relpath);
      forall i, j :: 0 <= i < j < |ds| ==> ds[i].outputs != ds[j].outputs
  {
    var ds := SymlinkDicts(p, p.symlinks, relpath);
    forall i, j | 0 <= i < j < |ds| ensures ds[i].outputs != ds[j].outputs {
      assert ds[i].outputs == [p.symlinks[i].0];
      assert ds[j].outputs == [p.symlinks[j].0];
    }
  }

  /** In a well-formed product, everything a symlink dict is ordered after
      is an output of the product or the link of an earlier symlink dict. */
  lemma {:induction false} SymlinkDictsOrdered(p: Product, relpath: (string, string) -> string)
    requires LinksOrdered(p.symlinks)
    ensures var ds := SymlinkDicts(p, p.symlinks, relpath);
      forall i, x :: 0 <= i < |ds| && x in ds[i].orderOnly.value ==>
        x in AllOutputs(p) || exists j :: 0 <= j < i && ds[j].outputs == [x]
  {
    var ds := SymlinkDicts(p, p.symlinks, relpath);
    forall i, x | 0 <= i < |ds| && x in ds[i].orderOnly.value
      ensures x in AllOutputs(p) || exists j :: 0 <= j < i && ds[j].outputs == [x]
    {
      var link := p.symlinks[i];
      assert ds[i].orderOnly.value == p.outputs + p.implicitOutputs + link.1.1;
      if x in link.1.1 {
        var k :| 0 <= k < |link.1.1| && link.1.1[k] == x;
        var j :| 0 <= j < i && p.symlinks[j].0 == x;
        assert ds[j].outputs == [x];
      }
    }
  }

  /** A build dict as the writer's keyword arguments. `build` defaults every
      optional argument to `None`, which it writes as no paths, no variables
      and no dyndep line. */
  function BuildArgsOf(d: BuildDict): (a: NinjaSyntax.BuildArgs)
    ensures a.outputs == d.outputs && a.rule == d.rule
    ensures a.inputs == (if d.inputs.Some? then d.inputs.value else [])
    ensures a.implicit == (if d.implicit.Some? then d.implicit.value else [])
    ensures a.orderOnly == (if d.orderOnly.Some? then d.orderOnly.value else [])
    ensures a.implicitOutputs == (if d.implicitOutputs.Some? then d.implicitOutputs.value else [])
    ensures a.variables == (if d.variables.Some? then d.variables.value else [])
    ensures a.dyndep == d.dyndep
  {
    NinjaSyntax.BuildArgs(
      d.outputs, d.rule,
      Or(d.inputs), Or(d.implicit), Or(d.orderOnly), Or(d.implicitOutputs),
      match d.variables case None => [] case Some(vs) => vs,
      d.dyndep)
  }

  /** What the writer receives for a product's primary dict is the product's
      own outputs, rule, inputs and implicit outputs, and its dyndep file
      unless that is empty. */
  lemma {:induction false} PrimaryArgs(p: Product)
    ensures BuildArgsOf(PrimaryDict(p)).outputs == p.outputs
    ensures BuildArgsOf(PrimaryDict(p)).rule == p.rule
    ensures BuildArgsOf(PrimaryDict(p)).inputs == p.inputs
    ensures BuildArgsOf(PrimaryDict(p)).implicitOutputs == p.implicitOutputs
    ensures BuildArgsOf(PrimaryDict(p)).dyndep == (if p.dyndep == Some("") then None else p.dyndep)
  {
    var d := PrimaryDict(p);
    if d.inputs.None? { assert p.inputs == []; }
    if d.implicitOutputs.None? { assert p.implicitOutputs == []; }
  }

  /** The writer receives a product's implicit and order-only sets listed
      once each in sorted order, and its variables sorted by name. */
  lemma {:induction false} PrimaryArgsSorted(p: Product)
    ensures StrictlySorted(BuildArgsOf(PrimaryDict(p)).implicit)
    ensures forall x :: x in BuildArgsOf(PrimaryDict(p)).implicit <==> x in p.implicit
    ensures StrictlySorted(BuildArgsOf(PrimaryDict(p)).orderOnly)
    ensures forall x :: x in BuildArgsOf(PrimaryDict(p)).orderOnly <==> x in p.orderOnly
    ensures multiset(BuildArgsOf(PrimaryDict(p)).variables) == multiset(p.variables)
    ensures SortedBy(BuildArgsOf(PrimaryDict(p)).variables, ByKey<PyValue>())
  {
    var d := PrimaryDict(p);
    if d.variables.None? { assert p.variables == []; }
  }

  function Or(xs: Option<seq<string>>): (r: seq<string>)
    ensures xs.None? ==> r == []
    ensures xs.Some? ==> r == xs.value
  {
    match xs case None => [] case Some(v) => v
  }
}
