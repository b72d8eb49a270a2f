/** Turning an evaluated build graph into the sequence of writer calls that
    makes up `build.ninja`: the regeneration header, the rules in name
    order, then every product's build dicts, de-duplicated by their set of
    outputs and grouped by target and environment digest. */
module Output {
  import opened Wrappers
  import opened Strs
  import opened Dicts
  import opened Values
  import opened Env
  import opened Sorting
  import opened Targets
  import opened Namespace
  import opened Products
  import opened Evaluation
  import opened Seqs
  import NinjaSyntax

  // ---------------------------------------------------------------------
  // The files the build file depends on

  /** `_get_subproject_files`: subprojects first, in registration order,
      then the project itself, each alias keeping the files of the first
      project recorded under it. */
  function SubprojectFiles(p: Project, acc: Dict<string, seq<string>>): Dict<string, seq<string>>
    decreases p, 1
  {
    AddFirst(SubprojectFilesList(p.subprojects, acc), p)
  }

  function SubprojectFilesList(ps: seq<Project>, acc: Dict<string, seq<string>>): Dict<string, seq<string>>
    decreases ps, 0
  {
    if |ps| == 0 then acc else SubprojectFilesList(ps[1..], SubprojectFiles(ps[0], acc))
  }

  /** Record `q`'s files unless its alias is already recorded. */
  function AddFirst(acc: Dict<string, seq<string>>, q: Project): (r: Dict<string, seq<string>>)
    ensures NoDupKeys(acc) ==> NoDupKeys(r)
    ensures KeySet(r) == KeySet(acc) + {q.alias}
    ensures forall a :: a in KeySet(acc) ==> Get(r, a) == Get(acc, a)
    ensures NoDupKeys(acc) && q.alias !in KeySet(acc) ==> Get(r, q.alias) == Some(Files(q))
  {
    if q.alias in KeySet(acc) then acc else Put(acc, q.alias, Files(q))
  }

  /** The projects of a tree in the order `_get_subproject_files` visits
      them: each project after its subprojects. */
  function Postorder(p: Project): seq<Project>
    decreases p, 1
  {
    PostorderList(p.subprojects) + [p]
  }

  function PostorderList(ps: seq<Project>): seq<Project>
    decreases ps, 0
  {
    if |ps| == 0 then [] else Postorder(ps[0]) + PostorderList(ps[1..])
  }

  /** `AddFirst` over a list of projects, left to right. */
  function AddFirstAll(acc: Dict<string, seq<string>>, qs: seq<Project>): Dict<string, seq<string>>
    decreases |qs|
  {
    if |qs| == 0 then acc else AddFirstAll(AddFirst(acc, qs[0]), qs[1..])
  }

  lemma {:induction false} AddFirstAllAppend(acc: Dict<string, seq<string>>, xs: seq<Project>, ys: seq<Project>)
    ensures AddFirstAll(acc, xs + ys) == AddFirstAll(AddFirstAll(acc, xs), ys)
    decreases |xs|
  {
    if |xs| > 0 {
      assert (xs + ys)[0] == xs[0];
      assert (xs + ys)[1..] == xs[1..] + ys;
      AddFirstAllAppend(AddFirst(acc, xs[0]), xs[1..], ys);
    } else {
      assert xs + ys == ys;
    }
  }

  /** The recursive collection records, for each project of the post-order
      walk, its files unless its alias is already recorded. */
  lemma {:induction false} SubprojectFilesIsFold(p: Project, acc: Dict<string, seq<string>>)
    ensures SubprojectFiles(p, acc) == AddFirstAll(acc, Postorder(p))
    decreases p, 1
  {
    SubprojectFilesListIsFold(p.subprojects, acc);
    AddFirstAllAppend(acc, PostorderList(p.subprojects), [p]);
    var mid := AddFirstAll(acc, PostorderList(p.subprojects));
    assert AddFirstAll(mid, [p]) == AddFirstAll(AddFirst(mid, p), []);
  }

  lemma {:induction false} SubprojectFilesListIsFold(ps: seq<Project>, acc: Dict<string, seq<string>>)
    ensures SubprojectFilesList(ps, acc) == AddFirstAll(acc, PostorderList(ps))
    decreases ps, 0
  {
    if |ps| > 0 {
      SubprojectFilesIsFold(ps[0], acc);
      SubprojectFilesListIsFold(ps[1..], SubprojectFiles(ps[0], acc));
      AddFirstAllAppend(acc, Postorder(ps[0]), PostorderList(ps[1..]));
    }
  }

  /** What the fold records: an alias already present keeps its files; any
      other alias gets the files of the first project carrying it. */
  lemma {:induction false} AddFirstAllGet(acc: Dict<string, seq<string>>, qs: seq<Project>, a: string)
    requires NoDupKeys(acc)
    ensures NoDupKeys(AddFirstAll(acc, qs))
    ensures Get(AddFirstAll(acc, qs), a) ==
      if a in KeySet(acc) then Get(acc, a)
      else match SubprojectNamed(qs, a) case None => None case Some(q) => Some(Files(q))
    decreases |qs|
  {
    if |qs| > 0 {
      var next := AddFirst(acc, qs[0]);
      AddFirstAllGet(next, qs[1..], a);
      if qs[0].alias == a {
        assert a in KeySet(next);
        assert SubprojectNamed(qs, a) == Some(qs[0]);
      } else {
        assert a in KeySet(next) <==> a in KeySet(acc);
        assert SubprojectNamed(qs, a) == SubprojectNamed(qs[1..], a);
      }
    }
  }

  /** The values of a dict, one after the other. */
  function ConcatValues(d: Dict<string, seq<string>>): seq<string>
    decreases |d|
  {
    if |d| == 0 then [] else d[0].1 + ConcatValues(d[1..])
  }

  lemma {:induction false} ConcatValuesMember(d: Dict<string, seq<string>>, x: string)
    ensures x in ConcatValues(d) <==> exists i :: 0 <= i < |d| && x in d[i].1
    decreases |d|
  {
    if |d| > 0 {
      ConcatValuesMember(d[1..], x);
      if i :| 0 <= i < |d[1..]| && x in d[1..][i].1 { assert d[i + 1] == d[1..][i]; }
      if i :| 1 <= i < |d| && x in d[i].1 { assert d[1..][i - 1] == d[i]; }
    }
  }

  /** `_get_project_files`: every file of the first project of each alias,
      sorted. */
  function ProjectFiles(p: Project): (r: seq<string>)
    ensures SortedBy(r, StrOrder())
    ensures multiset(r) == multiset(ConcatValues(SubprojectFiles(p, [])))
  {
    Sort(ConcatValues(SubprojectFiles(p, [])), StrOrder())
  }

  /** A file is listed exactly when it belongs to the first project, in
      post-order, of some alias. */
  lemma {:induction false} ProjectFilesMembers(p: Project, x: string)
    ensures x in ProjectFiles(p) <==>
      exists a :: SubprojectNamed(Postorder(p), a).Some? && x in Files(SubprojectNamed(Postorder(p), a).value)
  {
    var d := SubprojectFiles(p, []);
    SubprojectFilesIsFold(p, []);
    SortSameElements(ConcatValues(d), StrOrder());
    ConcatValuesMember(d, x);
    assert x in ProjectFiles(p) <==> exists i :: 0 <= i < |d| && x in d[i].1;
    if i :| 0 <= i < |d| && x in d[i].1 {
      var a := d[i].0;
      AddFirstAllGet([], Postorder(p), a);
      GetAt(d, i);
      assert SubprojectNamed(Postorder(p), a).Some? && x in Files(SubprojectNamed(Postorder(p), a).value);
    }
    if a :| SubprojectNamed(Postorder(p), a).Some? && x in Files(SubprojectNamed(Postorder(p), a).value) {
      AddFirstAllGet([], Postorder(p), a);
      var i :| 0 <= i < |d| && d[i] == (a, Get(d, a).value);
    }
  }

  // ---------------------------------------------------------------------
  // First product pass: de-duplication by output set

  /** The de-duplication key of a build dict: the set of its outputs. */
  function KeyOf(d: BuildDict): (k: set<string>)
    ensures forall x :: x in k <==> x in d.outputs
  {
    set x | x in d.outputs
  }

  function KeysOf(ds: seq<BuildDict>): (ks: set<set<string>>)
    ensures forall i :: 0 <= i < |ds| ==> KeyOf(ds[i]) in ks
    ensures forall k :: k in ks ==> exists i :: 0 <= i < |ds| && KeyOf(ds[i]) == k
  {
    set i | 0 <= i < |ds| :: KeyOf(ds[i])
  }

  /** The registry of dicts by output set. */
  type Registry = map<set<string>, BuildDict>

  datatype OutputError =
    | Conflict(key: set<string>)      // two different dicts write the same outputs
    | EvalFailed(error: EvalError)    // evaluating a concrete target raised

  /** Every dict agrees with what the registry already holds for its key. */
  predicate AgreesWith(reg: Registry, ds: seq<BuildDict>)
  {
    forall i :: 0 <= i < |ds| && KeyOf(ds[i]) in reg ==> reg[KeyOf(ds[i])] == ds[i]
  }

  /** Dicts with the same key are equal. */
  predicate SelfConsistent(ds: seq<BuildDict>)
  {
    forall i, j :: 0 <= i < j < |ds| && KeyOf(ds[i]) == KeyOf(ds[j]) ==> ds[i] == ds[j]
  }

  predicate Consistent(reg: Registry, ds: seq<BuildDict>)
  {
    AgreesWith(reg, ds) && SelfConsistent(ds)
  }

  predicate DistinctKeys(ds: seq<BuildDict>)
  {
    forall i, j :: 0 <= i < j < |ds| ==> KeyOf(ds[i]) != KeyOf(ds[j])
  }

  /** The registry after a pass, and the dicts of the pass that were new. */
  datatype Pass = Pass(reg: Registry, flat: seq<BuildDict>)

  /** The inner loop of the first pass over the dicts of one (target, env)
      group: a dict whose key is registered must equal the registered one,
      otherwise it is registered and kept. */
  function Register(reg: Registry, ds: seq<BuildDict>): Result<Pass, OutputError>
    decreases |ds|
  {
    if |ds| == 0 then Success(Pass(reg, []))
    else
      var d := ds[0];
      var k := KeyOf(d);
      if k in reg then
        if reg[k] == d then Register(reg, ds[1..]) else Failure(Conflict(k))
      else
        match Register(reg[k := d], ds[1..])
        case Failure(e) => Failure(e)
        case Success(p) => Success(Pass(p.reg, [d] + p.flat))
  }

  /** What a successful pass leaves behind: every key registered, earlier
      entries kept, and the new dicts kept once each. */
  predicate RegisteredFrom(reg: Registry, ds: seq<BuildDict>, p: Pass)
  {
    RegistryFrom(reg, ds, p.reg) && KeptFrom(reg, ds, p)
  }

  predicate RegistryFrom(reg: Registry, ds: seq<BuildDict>, r: Registry)
  {
    && r.Keys == reg.Keys + KeysOf(ds)
    && (forall k :: k in reg ==> r[k] == reg[k])
    && (forall i :: 0 <= i < |ds| ==> r[KeyOf(ds[i])] == ds[i])
  }

  predicate KeptFrom(reg: Registry, ds: seq<BuildDict>, p: Pass)
  {
    && (forall j :: 0 <= j < |p.flat| ==> p.flat[j] in ds && KeyOf(p.flat[j]) !in reg)
    && DistinctKeys(p.flat)
    && (forall i :: 0 <= i < |ds| && KeyOf(ds[i]) !in reg ==> ds[i] in p.flat)
  }

  lemma {:induction false} ConsistentKnown(reg: Registry, ds: seq<BuildDict>)
    requires |ds| > 0 && KeyOf(ds[0]) in reg
    ensures Consistent(reg, ds) <==> reg[KeyOf(ds[0])] == ds[0] && Consistent(reg, ds[1..])
  {
    var k := KeyOf(ds[0]);
    var tl := ds[1..];
    assert forall i :: 0 <= i < |tl| ==> tl[i] == ds[i + 1];
    if reg[k] == ds[0] && Consistent(reg, tl) {
      forall i | 0 <= i < |ds| && KeyOf(ds[i]) in reg ensures reg[KeyOf(ds[i])] == ds[i] {
        if i > 0 { assert ds[i] == tl[i - 1]; }
      }
      forall i, j | 0 <= i < j < |ds| && KeyOf(ds[i]) == KeyOf(ds[j]) ensures ds[i] == ds[j] {
        assert ds[j] == tl[j - 1];
        if i > 0 { assert ds[i] == tl[i - 1]; }
      }
    }
  }

  lemma {:induction false} ConsistentFresh(reg: Registry, ds: seq<BuildDict>)
    requires |ds| > 0 && KeyOf(ds[0]) !in reg
    ensures Consistent(reg, ds) <==> Consistent(reg[KeyOf(ds[0]) := ds[0]], ds[1..])
  {
    var k := KeyOf(ds[0]);
    var tl := ds[1..];
    var reg' := reg[k := ds[0]];
    assert forall i :: 0 <= i < |tl| ==> tl[i] == ds[i + 1];
    if Consistent(reg, ds) {
      forall i | 0 <= i < |tl| && KeyOf(tl[i]) in reg' ensures reg'[KeyOf(tl[i])] == tl[i] {
        if KeyOf(tl[i]) == k { assert KeyOf(ds[0]) == KeyOf(ds[i + 1]); }
      }
    }
    if Consistent(reg', tl) {
      forall i | 0 <= i < |ds| && KeyOf(ds[i]) in reg ensures reg[KeyOf(ds[i])] == ds[i] {
        assert ds[i] == tl[i - 1];
      }
      forall i, j | 0 <= i < j < |ds| && KeyOf(ds[i]) == KeyOf(ds[j]) ensures ds[i] == ds[j] {
        assert ds[j] == tl[j - 1];
        if i > 0 { assert ds[i] == tl[i - 1]; }
      }
    }
  }

  /** `Register` succeeds exactly when the dicts agree with the registry and
      with each other, and a conflict names the key of one of the dicts. */
  lemma {:induction false} RegisterConsistent(reg: Registry, ds: seq<BuildDict>)
    ensures Register(reg, ds).Success? <==> Consistent(reg, ds)
    ensures Register(reg, ds).Failure? ==>
      exists i :: 0 <= i < |ds| && Register(reg, ds).error == Conflict(KeyOf(ds[i]))
    decreases |ds|
  {
    if |ds| > 0 {
      var k := KeyOf(ds[0]);
      var tl := ds[1..];
      var next := if k in reg then reg else reg[k := ds[0]];
      if k in reg { ConsistentKnown(reg, ds); } else { ConsistentFresh(reg, ds); }
      RegisterConsistent(next, tl);
      if Register(reg, ds).Failure? && (k !in reg || reg[k] == ds[0]) {
        var i :| 0 <= i < |tl| && Register(reg, ds).error == Conflict(KeyOf(tl[i]));
        assert tl[i] == ds[i + 1];
      }
    }
  }

  /** A successful `Register` registers every key, keeps every earlier
      entry, and keeps exactly the dicts whose key was new, each key once. */
  lemma {:induction false} RegisterRecords(reg: Registry, ds: seq<BuildDict>)
    requires Register(reg, ds).Success?
    ensures RegisteredFrom(reg, ds, Register(reg, ds).value)
    ensures IsSubseq(Register(reg, ds).value.flat, ds)
    ensures exists idx :: FirstPicks(idx, Register(reg, ds).value.flat, ds)
    decreases |ds|
  {
    RegisterKeepsOrder(reg, ds);
    if |ds| > 0 {
      var d := ds[0];
      var k := KeyOf(d);
      var tl := ds[1..];
      assert forall i :: 0 <= i < |tl| ==> tl[i] == ds[i + 1];
      assert KeysOf(ds) == {k} + KeysOf(tl);
      var p := Register(reg, ds).value;
      if k in reg {
        RegisterRecords(reg, tl);
        assert p == Register(reg, tl).value;
        KnownStep(reg, ds, p);
      } else {
        var reg' := reg[k := d];
        RegisterRecords(reg', tl);
        var q := Register(reg', tl).value;
        assert p == Pass(q.reg, [d] + q.flat);
        FreshStep(reg, ds, q);
      }
    }
  }

  /** `idx` picks `r` out of `s` in order, and each item of `r` is picked at
      the first dict of `s` with its key. */
  ghost predicate FirstPicks(idx: seq<nat>, r: seq<BuildDict>, s: seq<BuildDict>)
  {
    && Picks(idx, r, s)
    && (forall k, l :: 0 <= k < |idx| && 0 <= l < idx[k] ==> KeyOf(s[l]) != KeyOf(r[k]))
  }

  /** The dicts a pass keeps appear in the order they came in, each one taken
      from the first dict with its key, and none has a key already registered. */
  lemma {:induction false} RegisterKeepsOrder(reg: Registry, ds: seq<BuildDict>)
    requires Register(reg, ds).Success?
    ensures IsSubseq(Register(reg, ds).value.flat, ds)
    ensures exists idx :: FirstPicks(idx, Register(reg, ds).value.flat, ds)
    ensures forall j :: 0 <= j < |Register(reg, ds).value.flat| ==>
      KeyOf(Register(reg, ds).value.flat[j]) !in reg
    decreases |ds|
  {
    var flat := Register(reg, ds).value.flat;
    if |ds| == 0 {
      SubseqNil(ds);
      assert FirstPicks([], flat, ds);
    } else {
      var d := ds[0];
      var k := KeyOf(d);
      var tl := ds[1..];
      var next := if k in reg then reg else reg[k := d];
      RegisterKeepsOrder(next, tl);
      var q := Register(next, tl).value;
      SubseqCons(q.flat, tl, d, k !in reg);
      assert [d] + tl == ds;
      var idx :| FirstPicks(idx, q.flat, tl);
      assert forall j :: 0 <= j < |q.flat| ==> KeyOf(q.flat[j]) != k;
      if k in reg {
        assert flat == q.flat;
        FirstPicksSkip(d, tl, q.flat, idx);
      } else {
        assert flat == [d] + q.flat;
        FirstPicksKeep(d, tl, q.flat, idx);
      }
    }
  }

  /** Putting a dict whose key `r` lacks in front of `s` keeps `r` picked at
      first occurrences. */
  lemma {:induction false} FirstPicksSkip(d: BuildDict, s: seq<BuildDict>, r: seq<BuildDict>, idx: seq<nat>)
    requires FirstPicks(idx, r, s)
    requires forall j :: 0 <= j < |r| ==> KeyOf(r[j]) != KeyOf(d)
    ensures FirstPicks(Shift(idx), r, [d] + s)
  {
    var ds := [d] + s;
    var sh := Shift(idx);
    assert forall l :: 0 < l < |ds| ==> ds[l] == s[l - 1];
    forall j, l | 0 <= j < |sh| && 0 <= l < sh[j] ensures KeyOf(ds[l]) != KeyOf(r[j]) {
      if l > 0 { assert l - 1 < idx[j]; }
    }
  }

  /** Putting the same new-keyed dict in front of both `r` and `s` keeps `r`
      picked at first occurrences. */
  lemma {:induction false} FirstPicksKeep(d: BuildDict, s: seq<BuildDict>, r: seq<BuildDict>, idx: seq<nat>)
    requires FirstPicks(idx, r, s)
    requires forall j :: 0 <= j < |r| ==> KeyOf(r[j]) != KeyOf(d)
    ensures FirstPicks([0] + Shift(idx), [d] + r, [d] + s)
  {
    var ds := [d] + s;
    var flat := [d] + r;
    var idx' := [0] + Shift(idx);
    assert forall l :: 0 < l < |ds| ==> ds[l] == s[l - 1];
    assert forall j :: 0 < j < |flat| ==> flat[j] == r[j - 1] && idx'[j] == idx[j - 1] + 1;
    assert Picks(idx', flat, ds);
    forall j, l | 0 <= j < |idx'| && 0 <= l < idx'[j] ensures KeyOf(ds[l]) != KeyOf(flat[j]) {
      if l > 0 { assert l - 1 < idx[j - 1]; }
    }
  }

  lemma {:induction false} KnownStep(reg: Registry, ds: seq<BuildDict>, p: Pass)
    requires |ds| > 0 && KeyOf(ds[0]) in reg && reg[KeyOf(ds[0])] == ds[0]
    requires RegisteredFrom(reg, ds[1..], p)
    ensures RegisteredFrom(reg, ds, p)
  {
    KnownRegistry(reg, ds, p.reg);
    KnownKept(reg, ds, p);
  }

  lemma {:induction false} KnownRegistry(reg: Registry, ds: seq<BuildDict>, r: Registry)
    requires |ds| > 0 && KeyOf(ds[0]) in reg && reg[KeyOf(ds[0])] == ds[0]
    requires RegistryFrom(reg, ds[1..], r)
    ensures RegistryFrom(reg, ds, r)
  {
    var tl := ds[1..];
    assert KeysOf(ds) == {KeyOf(ds[0])} + KeysOf(tl);
    forall i | 0 <= i < |ds| ensures r[KeyOf(ds[i])] == ds[i] {
      if i > 0 { assert ds[i] == tl[i - 1]; }
    }
  }

  lemma {:induction false} KnownKept(reg: Registry, ds: seq<BuildDict>, p: Pass)
    requires |ds| > 0 && KeyOf(ds[0]) in reg
    requires KeptFrom(reg, ds[1..], p)
    ensures KeptFrom(reg, ds, p)
  {
    var tl := ds[1..];
    forall j | 0 <= j < |p.flat| ensures p.flat[j] in ds { assert p.flat[j] in tl; }
    forall i | 0 <= i < |ds| && KeyOf(ds[i]) !in reg ensures ds[i] in p.flat {
      assert ds[i] == tl[i - 1];
    }
  }

  lemma {:induction false} FreshStep(reg: Registry, ds: seq<BuildDict>, q: Pass)
    requires |ds| > 0 && KeyOf(ds[0]) !in reg
    requires RegisteredFrom(reg[KeyOf(ds[0]) := ds[0]], ds[1..], q)
    ensures RegisteredFrom(reg, ds, Pass(q.reg, [ds[0]] + q.flat))
  {
    FreshRegistry(reg, ds, q.reg);
    FreshKept(reg, ds, q);
  }

  lemma {:induction false} FreshRegistry(reg: Registry, ds: seq<BuildDict>, r: Registry)
    requires |ds| > 0 && KeyOf(ds[0]) !in reg
    requires RegistryFrom(reg[KeyOf(ds[0]) := ds[0]], ds[1..], r)
    ensures RegistryFrom(reg, ds, r)
  {
    var tl := ds[1..];
    assert KeysOf(ds) == {KeyOf(ds[0])} + KeysOf(tl);
    forall i | 0 <= i < |ds| ensures r[KeyOf(ds[i])] == ds[i] {
      if i > 0 { assert ds[i] == tl[i - 1]; }
    }
  }

  lemma {:induction false} FreshKept(reg: Registry, ds: seq<BuildDict>, q: Pass)
    requires |ds| > 0 && KeyOf(ds[0]) !in reg
    requires RegisteredFrom(reg[KeyOf(ds[0]) := ds[0]], ds[1..], q)
    ensures KeptFrom(reg, ds, Pass(q.reg, [ds[0]] + q.flat))
  {
    var d := ds[0];
    var k := KeyOf(d);
    var tl := ds[1..];
    var p := Pass(q.reg, [d] + q.flat);
    forall j | 0 <= j < |p.flat| ensures p.flat[j] in ds && KeyOf(p.flat[j]) !in reg {
      if j > 0 { assert p.flat[j] == q.flat[j - 1]; assert q.flat[j - 1] in tl; }
    }
    forall j, j' | 0 <= j < j' < |p.flat| ensures KeyOf(p.flat[j]) != KeyOf(p.flat[j']) {
      assert p.flat[j'] == q.flat[j' - 1];
      if j > 0 { assert p.flat[j] == q.flat[j - 1]; }
    }
    forall i | 0 <= i < |ds| && KeyOf(ds[i]) !in reg ensures ds[i] in p.flat {
      if i > 0 {
        assert ds[i] == tl[i - 1];
        if KeyOf(ds[i]) == k { assert q.reg[k] == ds[i] && q.reg[k] == d; }
      }
    }
  }

  // ---------------------------------------------------------------------
  // Grouping by target and environment digest

  /** The build dicts of one entry of a product map. */
  datatype Group = Group(ident: string, digest: string, dicts: seq<BuildDict>)

  /** `unique_products_by_target[ident][digest]`. */
  type Slots = map<string, map<string, seq<BuildDict>>>

  datatype Collected = Collected(byOutput: Registry, byTarget: Slots)

  const Empty := Collected(map[], map[])

  predicate Has(s: Slots, t: string, e: string)
  {
    t in s && e in s[t]
  }

  /** The digest a group is filed under: the environment's digest, or
      `top` for a target evaluated without one. */
  function DigestOf(ops: EnvOps, env: Option<Env>): (d: string)
    ensures env.None? ==> d == "top"
    ensures env.Some? ==> d == ops.digest(env.value)
  {
    match env case None => "top" case Some(e) => ops.digest(e)
  }

  /** All build dicts of a list of products, product by product. */
  function DictsOf(ps: seq<Product>, relpath: (string, string) -> string): (ds: seq<BuildDict>)
    ensures |ps| > 0 ==> ds == NinjaDicts(ps[0], relpath) + DictsOf(ps[1..], relpath)
    ensures forall i :: 0 <= i < |ps| ==> PrimaryDict(ps[i]) in ds
  {
    if |ps| == 0 then [] else
      var rest := DictsOf(ps[1..], relpath);
      assert forall i :: 1 <= i < |ps| ==> ps[i] == ps[1..][i - 1];
      NinjaDicts(ps[0], relpath) + rest
  }

  /** The group of one product-map entry. */
  function GroupOf(ops: EnvOps, relpath: (string, string) -> string, entry: (Key, seq<Product>)): (g: Group)
    ensures g.ident == Ident(entry.0.0)
    ensures g.digest == DigestOf(ops, entry.0.1)
    ensures g.dicts == DictsOf(entry.1, relpath)
  {
    Group(Ident(entry.0.0), DigestOf(ops, entry.0.1), DictsOf(entry.1, relpath))
  }

  /** `slots[t][e] = flat`, creating the inner map on first use. */
  function File(s: Slots, t: string, e: string, flat: seq<BuildDict>): (r: Slots)
    ensures Has(r, t, e) && r[t][e] == flat
    ensures forall t' :: t' in r <==> t' in s || t' == t
    ensures forall t' :: t' in s && t' != t ==> r[t'] == s[t']
    ensures forall e' :: e' in r[t] <==> e' == e || (t in s && e' in s[t])
    ensures forall e' :: e' != e && t in s && e' in s[t] ==> r[t][e'] == s[t][e']
  {
    var emap := if t in s then s[t] else map[];
    s[t := emap[e := flat]]
  }

  /** One group of the first pass: its new dicts, when there are any, are
      filed under its target and digest, replacing what was filed there. */
  function CollectGroup(c: Collected, g: Group): Result<Collected, OutputError>
  {
    match Register(c.byOutput, g.dicts)
    case Failure(e) => Failure(e)
    case Success(p) =>
      if p.flat == [] then Success(Collected(p.reg, c.byTarget))
      else Success(Collected(p.reg, File(c.byTarget, g.ident, g.digest, p.flat)))
  }

  /** Filing fails exactly on a conflict. */
  lemma {:induction false} CollectGroupFails(c: Collected, g: Group)
    ensures CollectGroup(c, g).Success? <==> Consistent(c.byOutput, g.dicts)
    ensures CollectGroup(c, g).Failure? ==>
      exists i :: 0 <= i < |g.dicts| && CollectGroup(c, g).error == Conflict(KeyOf(g.dicts[i]))
  {
    RegisterConsistent(c.byOutput, g.dicts);
  }

  /** A group has a new dict when one of its keys is not yet registered. */
  predicate Contributes(c: Collected, g: Group)
  {
    exists i :: 0 <= i < |g.dicts| && KeyOf(g.dicts[i]) !in c.byOutput
  }

  /** A successful filing registers the group's dicts. */
  lemma {:induction false} CollectGroupRegisters(c: Collected, g: Group)
    requires CollectGroup(c, g).Success?
    ensures RegistryFrom(c.byOutput, g.dicts, CollectGroup(c, g).value.byOutput)
  {
    RegisterRecords(c.byOutput, g.dicts);
  }

  /** A group contributes exactly when its pass keeps a dict. */
  lemma {:induction false} ContributesKeeps(c: Collected, g: Group)
    requires Register(c.byOutput, g.dicts).Success?
    ensures Contributes(c, g) <==> Register(c.byOutput, g.dicts).value.flat != []
  {
    RegisterRecords(c.byOutput, g.dicts);
    var p := Register(c.byOutput, g.dicts).value;
    if p.flat != [] {
      var i :| 0 <= i < |g.dicts| && g.dicts[i] == p.flat[0];
    }
    if Contributes(c, g) {
      var i :| 0 <= i < |g.dicts| && KeyOf(g.dicts[i]) !in c.byOutput;
      assert g.dicts[i] in p.flat;
    }
  }

  /** A group that contributes a new dict is filed, with exactly its new
      dicts, each key once. */
  lemma {:induction false} CollectGroupNew(c: Collected, g: Group)
    requires CollectGroup(c, g).Success? && Contributes(c, g)
    ensures var r := CollectGroup(c, g).value;
      && Has(r.byTarget, g.ident, g.digest)
      && KeptFrom(c.byOutput, g.dicts, Pass(r.byOutput, r.byTarget[g.ident][g.digest]))
  {
    RegisterRecords(c.byOutput, g.dicts);
    var p := Register(c.byOutput, g.dicts).value;
    var i :| 0 <= i < |g.dicts| && KeyOf(g.dicts[i]) !in c.byOutput;
    assert g.dicts[i] in p.flat;
  }

  /** A group whose every key is registered is not filed at all. */
  lemma {:induction false} CollectGroupStale(c: Collected, g: Group)
    requires CollectGroup(c, g).Success? && !Contributes(c, g)
    ensures CollectGroup(c, g).value.byTarget == c.byTarget
  {
    ContributesKeeps(c, g);
  }

  /** What the collected state keeps throughout the first pass: every filed
      dict is the registered dict for its key, every slot is non-empty, and
      no key is filed twice, within a slot or across slots. */
  ghost predicate Inv(c: Collected)
  {
    && (forall t :: t in c.byTarget ==> c.byTarget[t] != map[])
    && (forall t, e :: Has(c.byTarget, t, e) ==> c.byTarget[t][e] != [] && DistinctKeys(c.byTarget[t][e]))
    && (forall t, e, i :: Has(c.byTarget, t, e) && 0 <= i < |c.byTarget[t][e]| ==>
          KeyOf(c.byTarget[t][e][i]) in c.byOutput && c.byOutput[KeyOf(c.byTarget[t][e][i])] == c.byTarget[t][e][i])
    && (forall t, e, t', e', i, j ::
          Has(c.byTarget, t, e) && Has(c.byTarget, t', e') && (t, e) != (t', e')
          && 0 <= i < |c.byTarget[t][e]| && 0 <= j < |c.byTarget[t'][e']| ==>
          KeyOf(c.byTarget[t][e][i]) != KeyOf(c.byTarget[t'][e'][j]))
  }

  lemma {:induction false} CollectGroupInv(c: Collected, g: Group)
    requires Inv(c) && CollectGroup(c, g).Success?
    ensures Inv(CollectGroup(c, g).value)
  {
    var r := CollectGroup(c, g).value;
    var p := Register(c.byOutput, g.dicts).value;
    RegisterRecords(c.byOutput, g.dicts);
    if p.flat != [] {
      var s := r.byTarget;
      assert s == File(c.byTarget, g.ident, g.digest, p.flat);
      FiledInv(c, g, p, r);
    }
  }

  lemma {:induction false} FiledInv(c: Collected, g: Group, p: Pass, r: Collected)
    requires Inv(c) && RegisteredFrom(c.byOutput, g.dicts, p) && p.flat != []
    requires r == Collected(p.reg, File(c.byTarget, g.ident, g.digest, p.flat))
    ensures Inv(r)
  {
    FiledRegistered(c, g, p, r);
    FiledDisjoint(c, g, p, r);
  }

  lemma {:induction false} FiledRegistered(c: Collected, g: Group, p: Pass, r: Collected)
    requires Inv(c) && RegisteredFrom(c.byOutput, g.dicts, p) && p.flat != []
    requires r == Collected(p.reg, File(c.byTarget, g.ident, g.digest, p.flat))
    ensures forall t, e, i :: Has(r.byTarget, t, e) && 0 <= i < |r.byTarget[t][e]| ==>
      KeyOf(r.byTarget[t][e][i]) in r.byOutput && r.byOutput[KeyOf(r.byTarget[t][e][i])] == r.byTarget[t][e][i]
  {
    var s := r.byTarget;
    forall t, e, i | Has(s, t, e) && 0 <= i < |s[t][e]|
      ensures KeyOf(s[t][e][i]) in r.byOutput && r.byOutput[KeyOf(s[t][e][i])] == s[t][e][i]
    {
      if (t, e) != (g.ident, g.digest) {
        assert s[t][e] == c.byTarget[t][e];
      } else {
        assert s[t][e][i] in g.dicts;
      }
    }
  }

  lemma {:induction false} FiledDisjoint(c: Collected, g: Group, p: Pass, r: Collected)
    requires Inv(c) && RegisteredFrom(c.byOutput, g.dicts, p) && p.flat != []
    requires r == Collected(p.reg, File(c.byTarget, g.ident, g.digest, p.flat))
    ensures forall t, e, t', e', i, j ::
      Has(r.byTarget, t, e) && Has(r.byTarget, t', e') && (t, e) != (t', e')
      && 0 <= i < |r.byTarget[t][e]| && 0 <= j < |r.byTarget[t'][e']| ==>
      KeyOf(r.byTarget[t][e][i]) != KeyOf(r.byTarget[t'][e'][j])
  {
    var s := r.byTarget;
    forall t, e, t', e', i, j |
        Has(s, t, e) && Has(s, t', e') && (t, e) != (t', e')
        && 0 <= i < |s[t][e]| && 0 <= j < |s[t'][e']|
      ensures KeyOf(s[t][e][i]) != KeyOf(s[t'][e'][j])
    {
      if (t, e) == (g.ident, g.digest) {
        assert KeyOf(s[t][e][i]) !in c.byOutput;
        assert s[t'][e'] == c.byTarget[t'][e'];
      } else if (t', e') == (g.ident, g.digest) {
        assert KeyOf(s[t'][e'][j]) !in c.byOutput;
        assert s[t][e] == c.byTarget[t][e];
      } else {
        assert s[t][e] == c.byTarget[t][e];
        assert s[t'][e'] == c.byTarget[t'][e'];
      }
    }
  }

  /** The groups of a product map, one per entry in the map's order. */
  function GroupsOf(ops: EnvOps, relpath: (string, string) -> string, pm: ProductMap): (gs: seq<Group>)
    ensures |gs| == |pm|
    ensures forall i :: 0 <= i < |pm| ==> gs[i] == GroupOf(ops, relpath, pm[i])
  {
    if |pm| == 0 then [] else [GroupOf(ops, relpath, pm[0])] + GroupsOf(ops, relpath, pm[1..])
  }

  /** The first pass over the groups, in order, stopping at a conflict. */
  function CollectAll(c: Collected, gs: seq<Group>): Result<Collected, OutputError>
    decreases |gs|
  {
    if |gs| == 0 then Success(c)
    else
      match CollectGroup(c, gs[0])
      case Failure(e) => Failure(e)
      case Success(c') => CollectAll(c', gs[1..])
  }

  /** The first pass keeps the invariant. */
  lemma {:induction false} CollectAllInv(c: Collected, gs: seq<Group>)
    requires CollectAll(c, gs).Success?
    ensures Inv(c) ==> Inv(CollectAll(c, gs).value)
    decreases |gs|
  {
    if |gs| > 0 {
      if Inv(c) { CollectGroupInv(c, gs[0]); }
      CollectAllInv(CollectGroup(c, gs[0]).value, gs[1..]);
    }
  }

  /** Every dict of every group ends up registered, and a dict that clashes
      with an earlier registration makes the pass fail. */
  lemma {:induction false} CollectAllRegisters(c: Collected, gs: seq<Group>, n: nat, i: nat)
    requires n < |gs| && i < |gs[n].dicts|
    requires CollectAll(c, gs).Success?
    ensures var k := KeyOf(gs[n].dicts[i]);
      k in CollectAll(c, gs).value.byOutput && CollectAll(c, gs).value.byOutput[k] == gs[n].dicts[i]
    decreases |gs|
  {
    var c' := CollectGroup(c, gs[0]).value;
    CollectGroupRegisters(c, gs[0]);
    CollectAllKeeps(c', gs[1..]);
    if n > 0 {
      assert gs[n] == gs[1..][n - 1];
      CollectAllRegisters(c', gs[1..], n - 1, i);
    }
  }

  lemma {:induction false} CollectAllKeeps(c: Collected, gs: seq<Group>)
    requires CollectAll(c, gs).Success?
    ensures forall k :: k in c.byOutput ==>
      (k in CollectAll(c, gs).value.byOutput && CollectAll(c, gs).value.byOutput[k] == c.byOutput[k])
    decreases |gs|
  {
    if |gs| > 0 {
      CollectGroupRegisters(c, gs[0]);
      CollectAllKeeps(CollectGroup(c, gs[0]).value, gs[1..]);
    }
  }

  /** Both product passes' first half: every concrete target evaluated
      without an environment, in order, sharing one memo table, and the
      groups of its product map collected. An evaluation error ends the
      pass. */
  function CollectTargets(h: Hooks, relpath: (string, string) -> string, ts: seq<Target>,
                          c: Collected, memo: Memos, fuel: nat): (out: (Result<Collected, OutputError>, Memos))
    ensures MemoGrows(memo, out.1)
    ensures MemoOk(memo) ==> MemoOk(out.1)
    ensures Inv(c) && out.0.Success? ==> Inv(out.0.value)
    ensures |ts| == 0 ==> out == (Success(c), memo)
    decreases |ts|
  {
    if |ts| == 0 then (Success(c), memo)
    else
      var ev := Evaluate(h, ts[0], None, memo, fuel);
      match ev.0
      case Failure(e) => (Failure(EvalFailed(e)), ev.1)
      case Success(r) =>
        match CollectAll(c, GroupsOf(h.ops, relpath, r.products))
        case Failure(e) => (Failure(e), ev.1)
        case Success(c') =>
          CollectAllInv(c, GroupsOf(h.ops, relpath, r.products));
          var rest := CollectTargets(h, relpath, ts[1..], c', ev.1, fuel);
          MemoGrowsTrans(memo, ev.1, rest.1);
          rest
  }

  // ---------------------------------------------------------------------
  // Second product pass: emission in sorted order

  /** One call on the Ninja writer. */
  datatype Call =
    | Comment(text: string)
    | Newline
    | RuleCall(name: string, decl: NinjaSyntax.RuleDecl)
    | BuildCall(args: NinjaSyntax.BuildArgs)

  /** The `build` arguments among a list of calls, in order. */
  function BuildsIn(calls: seq<Call>): seq<NinjaSyntax.BuildArgs>
    decreases |calls|
  {
    if |calls| == 0 then [] else BuildOf(calls[0]) + BuildsIn(calls[1..])
  }

  function BuildOf(c: Call): seq<NinjaSyntax.BuildArgs>
  {
    if c.BuildCall? then [c.args] else []
  }

  /** The comment texts among a list of calls, in order. */
  function CommentsIn(calls: seq<Call>): seq<string>
    decreases |calls|
  {
    if |calls| == 0 then [] else CommentOf(calls[0]) + CommentsIn(calls[1..])
  }

  function CommentOf(c: Call): seq<string>
  {
    if c.Comment? then [c.text] else []
  }

  /** The rule declarations among a list of calls, in order. */
  function RulesIn(calls: seq<Call>): seq<(string, NinjaSyntax.RuleDecl)>
    decreases |calls|
  {
    if |calls| == 0 then [] else RuleOf(calls[0]) + RulesIn(calls[1..])
  }

  function RuleOf(c: Call): seq<(string, NinjaSyntax.RuleDecl)>
  {
    if c.RuleCall? then [(c.name, c.decl)] else []
  }

  lemma {:induction false} FiltersAppend(a: seq<Call>, b: seq<Call>)
    ensures BuildsIn(a + b) == BuildsIn(a) + BuildsIn(b)
    ensures CommentsIn(a + b) == CommentsIn(a) + CommentsIn(b)
    ensures RulesIn(a + b) == RulesIn(a) + RulesIn(b)
  {
    BuildsAppend(a, b);
    CommentsAppend(a, b);
    RulesAppend(a, b);
  }

  lemma {:induction false} BuildsAppend(a: seq<Call>, b: seq<Call>)
    ensures BuildsIn(a + b) == BuildsIn(a) + BuildsIn(b)
    decreases |a|
  {
    if |a| == 0 {
      assert a + b == b;
    } else {
      var ab := a + b;
      assert ab[0] == a[0] && ab[1..] == a[1..] + b;
      calc {
        BuildsIn(ab);
        BuildOf(a[0]) + BuildsIn(a[1..] + b);
        { BuildsAppend(a[1..], b); }
        BuildOf(a[0]) + (BuildsIn(a[1..]) + BuildsIn(b));
        (BuildOf(a[0]) + BuildsIn(a[1..])) + BuildsIn(b);
      }
    }
  }

  lemma {:induction false} CommentsAppend(a: seq<Call>, b: seq<Call>)
    ensures CommentsIn(a + b) == CommentsIn(a) + CommentsIn(b)
    decreases |a|
  {
    if |a| == 0 {
      assert a + b == b;
    } else {
      var ab := a + b;
      assert ab[0] == a[0] && ab[1..] == a[1..] + b;
      calc {
        CommentsIn(ab);
        CommentOf(a[0]) + CommentsIn(a[1..] + b);
        { CommentsAppend(a[1..], b); }
        CommentOf(a[0]) + (CommentsIn(a[1..]) + CommentsIn(b));
        (CommentOf(a[0]) + CommentsIn(a[1..])) + CommentsIn(b);
      }
    }
  }

  lemma {:induction false} RulesAppend(a: seq<Call>, b: seq<Call>)
    ensures RulesIn(a + b) == RulesIn(a) + RulesIn(b)
    decreases |a|
  {
    if |a| == 0 {
      assert a + b == b;
    } else {
      var ab := a + b;
      assert ab[0] == a[0] && ab[1..] == a[1..] + b;
      calc {
        RulesIn(ab);
        RuleOf(a[0]) + RulesIn(a[1..] + b);
        { RulesAppend(a[1..], b); }
        RuleOf(a[0]) + (RulesIn(a[1..]) + RulesIn(b));
        (RuleOf(a[0]) + RulesIn(a[1..])) + RulesIn(b);
      }
    }
  }

  /** The writer arguments of a list of build dicts. */
  function ArgsOf(ds: seq<BuildDict>): (r: seq<NinjaSyntax.BuildArgs>)
    ensures |r| == |ds|
    ensures forall i :: 0 <= i < |ds| ==> r[i] == BuildArgsOf(ds[i])
  {
    seq(|ds|, i requires 0 <= i < |ds| => BuildArgsOf(ds[i]))
  }

  function BuildCalls(ds: seq<BuildDict>): (r: seq<Call>)
    ensures |r| == |ds|
    ensures forall i :: 0 <= i < |ds| ==> r[i] == BuildCall(BuildArgsOf(ds[i]))
  {
    seq(|ds|, i requires 0 <= i < |ds| => BuildCall(BuildArgsOf(ds[i])))
  }

  /** One `writer.build` call per argument list, in order. */
  function CallsOf(args: seq<NinjaSyntax.BuildArgs>): (r: seq<Call>)
    ensures |r| == |args|
    ensures forall i :: 0 <= i < |args| ==> r[i] == BuildCall(args[i])
  {
    seq(|args|, i requires 0 <= i < |args| => BuildCall(args[i]))
  }

  lemma {:induction false} CallsOfFilter(args: seq<NinjaSyntax.BuildArgs>)
    ensures BuildsIn(CallsOf(args)) == args
    ensures CommentsIn(CallsOf(args)) == [] && RulesIn(CallsOf(args)) == []
    decreases |args|
  {
    if |args| > 0 {
      CallsOfFilter(args[1..]);
      assert CallsOf(args)[1..] == CallsOf(args[1..]);
      assert args == [args[0]] + args[1..];
    }
  }

  /** `writer.build(**p)` for each dict writes exactly those dicts' builds,
      and no comment or rule. */
  lemma {:induction false} BuildCallsFilter(ds: seq<BuildDict>)
    ensures BuildsIn(BuildCalls(ds)) == ArgsOf(ds)
    ensures CommentsIn(BuildCalls(ds)) == [] && RulesIn(BuildCalls(ds)) == []
  {
    CallsOfFilter(ArgsOf(ds));
    assert BuildCalls(ds) == CallsOf(ArgsOf(ds));
  }

  // The rule section

  /** `writer.rule(name = name, **rule)` then a blank line, for each entry. */
  function RuleCalls(rules: seq<(string, NinjaSyntax.RuleDecl)>): seq<Call>
    decreases |rules|
  {
    if |rules| == 0 then [] else [RuleCall(rules[0].0, rules[0].1), Newline] + RuleCalls(rules[1..])
  }

  /** The rules of the project, sorted by name. */
  function RuleSection(p: Project): seq<Call>
  {
    RuleCalls(Sort(p.ninjaRules, ByKey<NinjaSyntax.RuleDecl>()))
  }

  lemma {:induction false} RuleCallsFilter(rules: seq<(string, NinjaSyntax.RuleDecl)>)
    ensures RulesIn(RuleCalls(rules)) == rules
    ensures BuildsIn(RuleCalls(rules)) == [] && CommentsIn(RuleCalls(rules)) == []
    decreases |rules|
  {
    if |rules| > 0 {
      RuleCallsFilter(rules[1..]);
      FiltersAppend([RuleCall(rules[0].0, rules[0].1), Newline], RuleCalls(rules[1..]));
      assert rules == [rules[0]] + rules[1..];
    }
  }

  /** The rule section declares every rule of the project once, in the order
      of their names, and writes no build or comment. */
  lemma {:induction false} RuleSectionSorted(p: Project)
    ensures var rs := RulesIn(RuleSection(p));
      && multiset(rs) == multiset(p.ninjaRules)
      && (forall i, j :: 0 <= i < j < |rs| ==> StrLe(rs[i].0, rs[j].0))
    ensures BuildsIn(RuleSection(p)) == [] && CommentsIn(RuleSection(p)) == []
  {
    RuleCallsFilter(Sort(p.ninjaRules, ByKey<NinjaSyntax.RuleDecl>()));
  }

  // The product section

  /** Strict lexicographic order on (target ident, env digest) pairs. */
  predicate PairLt(a: (string, string), b: (string, string))
  {
    (StrLe(a.0, b.0) && a.0 != b.0) || (a.0 == b.0 && StrLe(a.1, b.1) && a.1 != b.1)
  }

  predicate LexSorted(xs: seq<(string, string)>)
  {
    forall i, j :: 0 <= i < j < |xs| ==> PairLt(xs[i], xs[j])
  }

  /** The slots `(t, e)` for the digests `eds`, in that order. */
  function Pairs(t: string, eds: seq<string>): (r: seq<(string, string)>)
    ensures |r| == |eds|
    ensures forall i :: 0 <= i < |eds| ==> r[i] == (t, eds[i])
    decreases |eds|
  {
    if |eds| == 0 then [] else [(t, eds[0])] + Pairs(t, eds[1..])
  }

  lemma {:induction false} PairsSpec(t: string, eds: seq<string>)
    requires StrictlySorted(eds)
    ensures forall k :: k in Pairs(t, eds) <==> k.0 == t && k.1 in eds
    ensures LexSorted(Pairs(t, eds))
  {
    var r := Pairs(t, eds);
    forall e | e in eds ensures (t, e) in r { var i :| 0 <= i < |eds| && eds[i] == e; assert r[i] == (t, e); }
    forall i, j | 0 <= i < j < |r| ensures PairLt(r[i], r[j]) {
      assert r[i] == (t, eds[i]) && r[j] == (t, eds[j]);
    }
  }

  /** The slots of one target, in digest order. */
  function Block(s: Slots, t: string): (r: seq<(string, string)>)
    requires t in s
    ensures forall k :: k in r <==> k.0 == t && k.1 in s[t]
    ensures LexSorted(r)
  {
    PairsSpec(t, SortedOfSet(s[t].Keys));
    Pairs(t, SortedOfSet(s[t].Keys))
  }

  /** The slots of the targets `ts`, target by target. */
  function OrderOf(s: Slots, ts: seq<string>): seq<(string, string)>
    requires forall t :: t in ts ==> t in s
    decreases |ts|
  {
    if |ts| == 0 then [] else Block(s, ts[0]) + OrderOf(s, ts[1..])
  }

  /** The order in which the second pass visits the slots: by target ident,
      then by env digest. */
  function Order(s: Slots): seq<(string, string)>
  {
    OrderOf(s, SortedOfSet(s.Keys))
  }

  lemma {:induction false} OrderOfSpec(s: Slots, ts: seq<string>)
    requires forall t :: t in ts ==> t in s
    requires StrictlySorted(ts)
    ensures forall k :: k in OrderOf(s, ts) <==> k.0 in ts && Has(s, k.0, k.1)
    ensures LexSorted(OrderOf(s, ts))
    decreases |ts|
  {
    if |ts| > 0 {
      var b := Block(s, ts[0]);
      var tl := ts[1..];
      assert StrictlySorted(tl) by {
        forall i, j | 0 <= i < j < |tl| ensures StrLe(tl[i], tl[j]) && tl[i] != tl[j] {
          assert tl[i] == ts[i + 1] && tl[j] == ts[j + 1];
        }
      }
      OrderOfSpec(s, tl);
      var rest := OrderOf(s, tl);
      assert forall k :: k in ts <==> k == ts[0] || k in tl;
      forall y | y in rest ensures StrLe(ts[0], y.0) && ts[0] != y.0 {
        var m :| 0 <= m < |tl| && tl[m] == y.0;
        assert ts[m + 1] == y.0;
      }
      LexConcat(b, rest, ts[0]);
    }
  }

  lemma {:induction false} LexConcat(b: seq<(string, string)>, rest: seq<(string, string)>, t: string)
    requires LexSorted(b) && LexSorted(rest)
    requires forall x :: x in b ==> x.0 == t
    requires forall y :: y in rest ==> StrLe(t, y.0) && t != y.0
    ensures LexSorted(b + rest)
  {
    var all := b + rest;
    forall i, j | 0 <= i < j < |all| ensures PairLt(all[i], all[j]) {
      if j < |b| {
        assert all[i] == b[i] && all[j] == b[j];
      } else if i >= |b| {
        assert all[i] == rest[i - |b|] && all[j] == rest[j - |b|];
      } else {
        assert all[i] == b[i] && all[j] == rest[j - |b|];
        assert all[i] in b && all[j] in rest;
      }
    }
  }

  /** The second pass visits every slot once, in strictly increasing
      (target ident, env digest) order. */
  lemma {:induction false} OrderSpec(s: Slots)
    ensures forall k :: k in Order(s) <==> Has(s, k.0, k.1)
    ensures LexSorted(Order(s))
    ensures AllFiled(s, Order(s)) && NoRepeats(Order(s))
  {
    OrderOfSpec(s, SortedOfSet(s.Keys));
    var o := Order(s);
    assert forall i :: 0 <= i < |o| ==> o[i] in o;
    forall i, j | 0 <= i < j < |o| ensures o[i] != o[j] {
      assert PairLt(o[i], o[j]);
    }
  }

  /** Every slot named in `order` exists. */
  predicate AllFiled(s: Slots, order: seq<(string, string)>)
  {
    forall i :: 0 <= i < |order| ==> Has(s, order[i].0, order[i].1)
  }

  /** The dicts of the slots in `order`, slot by slot. */
  function Emitted(s: Slots, order: seq<(string, string)>): seq<BuildDict>
    requires AllFiled(s, order)
    decreases |order|
  {
    if |order| == 0 then [] else s[order[0].0][order[0].1] + Emitted(s, order[1..])
  }

  lemma {:induction false} EmittedAppend(s: Slots, a: seq<(string, string)>, b: seq<(string, string)>)
    requires AllFiled(s, a) && AllFiled(s, b)
    ensures AllFiled(s, a + b)
    ensures Emitted(s, a + b) == Emitted(s, a) + Emitted(s, b)
    decreases |a|
  {
    var ab := a + b;
    assert forall i :: 0 <= i < |ab| ==> ab[i] == if i < |a| then a[i] else b[i - |a|];
    if |a| == 0 {
      assert ab == b;
    } else {
      assert ab[0] == a[0] && ab[1..] == a[1..] + b;
      EmittedAppend(s, a[1..], b);
    }
  }

  /** Every emitted dict sits at some position of some slot of `order`. */
  lemma {:induction false} EmittedFrom(s: Slots, order: seq<(string, string)>, x: BuildDict)
    requires AllFiled(s, order)
    requires x in Emitted(s, order)
    ensures exists m, j :: 0 <= m < |order| && 0 <= j < |s[order[m].0][order[m].1]| && x == s[order[m].0][order[m].1][j]
    decreases |order|
  {
    var first := s[order[0].0][order[0].1];
    if x in first {
      var j :| 0 <= j < |first| && first[j] == x;
      assert 0 < |order| && x == s[order[0].0][order[0].1][j];
    } else {
      var tl := order[1..];
      EmittedFrom(s, tl, x);
      var m, j :| 0 <= m < |tl| && 0 <= j < |s[tl[m].0][tl[m].1]| && x == s[tl[m].0][tl[m].1][j];
      assert tl[m] == order[m + 1];
    }
  }

  predicate NoRepeats(order: seq<(string, string)>)
  {
    forall i, j :: 0 <= i < j < |order| ==> order[i] != order[j]
  }

  lemma {:induction false} DistinctConcat(a: seq<BuildDict>, b: seq<BuildDict>)
    requires DistinctKeys(a) && DistinctKeys(b)
    requires forall i, j :: 0 <= i < |a| && 0 <= j < |b| ==> KeyOf(a[i]) != KeyOf(b[j])
    ensures DistinctKeys(a + b)
  {
    var all := a + b;
    forall i, j | 0 <= i < j < |all| ensures KeyOf(all[i]) != KeyOf(all[j]) {
      if j < |a| {
        assert all[i] == a[i] && all[j] == a[j];
      } else if i >= |a| {
        assert all[i] == b[i - |a|] && all[j] == b[j - |a|];
      } else {
        assert all[i] == a[i] && all[j] == b[j - |a|];
      }
    }
  }

  /** A dict of the first slot and a dict of a later slot have different keys. */
  lemma {:induction false} FirstSlotApart(c: Collected, order: seq<(string, string)>, i: nat, y: BuildDict)
    requires Inv(c) && AllFiled(c.byTarget, order) && NoRepeats(order) && |order| > 0
    requires i < |c.byTarget[order[0].0][order[0].1]|
    requires y in Emitted(c.byTarget, order[1..])
    ensures KeyOf(c.byTarget[order[0].0][order[0].1][i]) != KeyOf(y)
  {
    var s := c.byTarget;
    var tl := order[1..];
    EmittedFrom(s, tl, y);
    var m, q :| 0 <= m < |tl| && 0 <= q < |s[tl[m].0][tl[m].1]| && y == s[tl[m].0][tl[m].1][q];
    assert tl[m] == order[m + 1];
  }

  /** Under the first pass's invariant, the dicts of distinct slots, taken
      in any order, have pairwise distinct output keys. */
  lemma {:induction false} EmittedDistinct(c: Collected, order: seq<(string, string)>)
    requires Inv(c)
    requires AllFiled(c.byTarget, order)
    requires NoRepeats(order)
    ensures DistinctKeys(Emitted(c.byTarget, order))
    decreases |order|
  {
    if |order| > 0 {
      var s := c.byTarget;
      var tl := order[1..];
      assert NoRepeats(tl) by {
        forall i, j | 0 <= i < j < |tl| ensures tl[i] != tl[j] { assert tl[i] == order[i + 1] && tl[j] == order[j + 1]; }
      }
      EmittedDistinct(c, tl);
      var a := s[order[0].0][order[0].1];
      var b := Emitted(s, tl);
      forall i, j | 0 <= i < |a| && 0 <= j < |b| ensures KeyOf(a[i]) != KeyOf(b[j]) {
        FirstSlotApart(c, order, i, b[j]);
      }
      DistinctConcat(a, b);
    }
  }

  lemma {:induction false} ArgsOfAppend(a: seq<BuildDict>, b: seq<BuildDict>)
    ensures ArgsOf(a + b) == ArgsOf(a) + ArgsOf(b)
  {
    assert forall i :: 0 <= i < |a| + |b| ==> (a + b)[i] == if i < |a| then a[i] else b[i - |a|];
  }

  function TargetComment(ti: string): string
  {
    "---- target " + ti
  }

  function TargetDigestComment(ti: string, ed: string): string
  {
    "---- target " + ti + " @ " + ed
  }

  /** One slot: its digest comment when the target has several, its
      builds, then a blank line. */
  function GroupCalls(ti: string, ed: string, ds: seq<BuildDict>, many: bool): seq<Call>
  {
    (if many then [Comment(TargetDigestComment(ti, ed))] else []) + BuildCalls(ds) + [Newline]
  }

  function EnvCalls(ti: string, emap: map<string, seq<BuildDict>>, eds: seq<string>, many: bool): seq<Call>
    requires forall i :: 0 <= i < |eds| ==> eds[i] in emap
    decreases |eds|
  {
    if |eds| == 0 then []
    else GroupCalls(ti, eds[0], emap[eds[0]], many) + EnvCalls(ti, emap, eds[1..], many)
  }

  /** The calls for one target: a plain comment when it has exactly one
      digest, then its slots in digest order. */
  function TargetCalls(ti: string, emap: map<string, seq<BuildDict>>): seq<Call>
  {
    var eds := SortedOfSet(emap.Keys);
    (if |emap| == 1 then [Comment(TargetComment(ti))] else []) + EnvCalls(ti, emap, eds, |emap| > 1)
  }

  function TargetsCalls(s: Slots, ts: seq<string>): seq<Call>
    requires forall i :: 0 <= i < |ts| ==> ts[i] in s
    decreases |ts|
  {
    if |ts| == 0 then [] else TargetCalls(ts[0], s[ts[0]]) + TargetsCalls(s, ts[1..])
  }

  /** The second pass: every target in ident order. */
  function ProductCalls(s: Slots): seq<Call>
  {
    TargetsCalls(s, SortedOfSet(s.Keys))
  }

  lemma {:induction false} GroupCallsFilter(ti: string, ed: string, ds: seq<BuildDict>, many: bool)
    ensures BuildsIn(GroupCalls(ti, ed, ds, many)) == ArgsOf(ds)
    ensures CommentsIn(GroupCalls(ti, ed, ds, many)) == if many then [TargetDigestComment(ti, ed)] else []
  {
    var head: seq<Call> := if many then [Comment(TargetDigestComment(ti, ed))] else [];
    assert GroupCalls(ti, ed, ds, many) == head + BuildCalls(ds) + [Newline];
    BuildCallsFilter(ds);
    GroupBuilds(head, ds);
    GroupComments(head, ds);
  }

  lemma {:induction false} GroupBuilds(head: seq<Call>, ds: seq<BuildDict>)
    requires BuildsIn(head) == [] && BuildsIn(BuildCalls(ds)) == ArgsOf(ds)
    ensures BuildsIn(head + BuildCalls(ds) + [Newline]) == ArgsOf(ds)
  {
    BuildsThree(head, BuildCalls(ds), [Newline]);
    assert BuildsIn([Newline]) == [];
  }

  lemma {:induction false} GroupComments(head: seq<Call>, ds: seq<BuildDict>)
    requires CommentsIn(BuildCalls(ds)) == []
    ensures CommentsIn(head + BuildCalls(ds) + [Newline]) == CommentsIn(head)
  {
    CommentsThree(head, BuildCalls(ds), [Newline]);
    assert CommentsIn([Newline]) == [];
  }

  lemma {:induction false} CommentsThree(a: seq<Call>, b: seq<Call>, c: seq<Call>)
    ensures CommentsIn(a + b + c) == CommentsIn(a) + CommentsIn(b) + CommentsIn(c)
  {
    CommentsAppend(a, b);
    CommentsAppend(a + b, c);
  }

  lemma {:induction false} EnvCallsBuilds(s: Slots, ti: string, eds: seq<string>, many: bool)
    requires ti in s && forall i :: 0 <= i < |eds| ==> eds[i] in s[ti]
    ensures AllFiled(s, Pairs(ti, eds))
    ensures BuildsIn(EnvCalls(ti, s[ti], eds, many)) == ArgsOf(Emitted(s, Pairs(ti, eds)))
    decreases |eds|
  {
    if |eds| > 0 {
      EnvCallsBuilds(s, ti, eds[1..], many);
      GroupCallsFilter(ti, eds[0], s[ti][eds[0]], many);
      FiltersAppend(GroupCalls(ti, eds[0], s[ti][eds[0]], many), EnvCalls(ti, s[ti], eds[1..], many));
      ArgsOfAppend(s[ti][eds[0]], Emitted(s, Pairs(ti, eds[1..])));
      assert Pairs(ti, eds)[1..] == Pairs(ti, eds[1..]);
    }
  }

  lemma {:induction false} TargetCallsBuilds(s: Slots, t: string)
    requires t in s
    ensures AllFiled(s, Block(s, t))
    ensures BuildsIn(TargetCalls(t, s[t])) == ArgsOf(Emitted(s, Block(s, t)))
  {
    var eds := SortedOfSet(s[t].Keys);
    EnvCallsBuilds(s, t, eds, |s[t]| > 1);
    var head: seq<Call> := if |s[t]| == 1 then [Comment(TargetComment(t))] else [];
    FiltersAppend(head, EnvCalls(t, s[t], eds, |s[t]| > 1));
  }

  lemma {:induction false} TargetsCallsBuilds(s: Slots, ts: seq<string>)
    requires forall i :: 0 <= i < |ts| ==> ts[i] in s
    ensures AllFiled(s, OrderOf(s, ts))
    ensures BuildsIn(TargetsCalls(s, ts)) == ArgsOf(Emitted(s, OrderOf(s, ts)))
    decreases |ts|
  {
    if |ts| > 0 {
      var t := ts[0];
      var b := Block(s, t);
      var rest := OrderOf(s, ts[1..]);
      TargetsCallsBuilds(s, ts[1..]);
      TargetCallsBuilds(s, t);
      BuildsAppend(TargetCalls(t, s[t]), TargetsCalls(s, ts[1..]));
      EmittedAppend(s, b, rest);
      ArgsOfAppend(Emitted(s, b), Emitted(s, rest));
    }
  }

  /** The builds of the second pass are the filed dicts, slot by slot in
      (target ident, env digest) order. */
  lemma {:induction false} ProductCallsBuilds(s: Slots)
    ensures AllFiled(s, Order(s))
    ensures BuildsIn(ProductCalls(s)) == ArgsOf(Emitted(s, Order(s)))
  {
    TargetsCallsBuilds(s, SortedOfSet(s.Keys));
  }

  /** After the first pass, no two builds of the second pass write the same
      set of outputs. */
  lemma {:induction false} ProductCallsDistinct(c: Collected)
    requires Inv(c)
    ensures var bs := BuildsIn(ProductCalls(c.byTarget));
      forall i, j :: 0 <= i < j < |bs| ==> (set x | x in bs[i].outputs) != (set x | x in bs[j].outputs)
  {
    var s := c.byTarget;
    ProductCallsBuilds(s);
    OrderSpec(s);
    EmittedDistinct(c, Order(s));
    var ds := Emitted(s, Order(s));
    var bs := BuildsIn(ProductCalls(s));
    forall i, j | 0 <= i < j < |bs| ensures (set x | x in bs[i].outputs) != (set x | x in bs[j].outputs) {
      assert bs[i].outputs == ds[i].outputs && bs[j].outputs == ds[j].outputs;
      assert KeyOf(ds[i]) == (set x | x in bs[i].outputs);
      assert KeyOf(ds[j]) == (set x | x in bs[j].outputs);
    }
  }

  /** The per-digest comments of a target's slots, in digest order. */
  function DigestComments(ti: string, eds: seq<string>): (r: seq<string>)
    ensures |r| == |eds|
    ensures forall i :: 0 <= i < |eds| ==> r[i] == TargetDigestComment(ti, eds[i])
    decreases |eds|
  {
    if |eds| == 0 then [] else [TargetDigestComment(ti, eds[0])] + DigestComments(ti, eds[1..])
  }

  lemma {:induction false} EnvCallsComments(ti: string, emap: map<string, seq<BuildDict>>, eds: seq<string>, many: bool)
    requires forall i :: 0 <= i < |eds| ==> eds[i] in emap
    ensures CommentsIn(EnvCalls(ti, emap, eds, many)) == if many then DigestComments(ti, eds) else []
    decreases |eds|
  {
    if |eds| > 0 {
      EnvCallsComments(ti, emap, eds[1..], many);
      GroupCallsFilter(ti, eds[0], emap[eds[0]], many);
      CommentsAppend(GroupCalls(ti, eds[0], emap[eds[0]], many), EnvCalls(ti, emap, eds[1..], many));
    }
  }

  /** A target filed under exactly one digest gets one plain comment; a
      target filed under several gets one comment naming each digest, in
      digest order. */
  lemma {:induction false} TargetComments(ti: string, emap: map<string, seq<BuildDict>>)
    ensures CommentsIn(TargetCalls(ti, emap)) ==
      if |emap| == 1 then [TargetComment(ti)] else DigestComments(ti, SortedOfSet(emap.Keys))
  {
    var eds := SortedOfSet(emap.Keys);
    EnvCallsComments(ti, emap, eds, |emap| > 1);
    var head: seq<Call> := if |emap| == 1 then [Comment(TargetComment(ti))] else [];
    CommentsAppend(head, EnvCalls(ti, emap, eds, |emap| > 1));
    if |emap| == 0 {
      assert emap.Keys == {};
    }
  }

  // ---------------------------------------------------------------------
  // The whole file

  const RegenerateRule := "cobble_generate_ninja"

  /** The rule that rebuilds the build file when a project file changes. */
  function RegenerateDecl(p: Project): NinjaSyntax.RuleDecl
  {
    NinjaSyntax.CommandRule("./cobble init --reinit " + p.root, "(cobbling something together)")
  }

  /** `build build.ninja: cobble_generate_ninja | <project files>`. */
  function RegenerateBuild(p: Project): NinjaSyntax.BuildArgs
  {
    NinjaSyntax.BuildArgs(["build.ninja"], RegenerateRule, [], ProjectFiles(p), [], [], [], None)
  }

  /** The header: the generated-file banner, the project root (read back
      when the project is reloaded), then the regeneration rule and build. */
  function Header(p: Project): seq<Call>
  {
    [ Comment("Generated using 'cobble init', do NOT edit by hand"),
      Comment("project_path=" + p.root),
      Newline,
      Comment("Automatic regeneration"),
      RuleCall(RegenerateRule, RegenerateDecl(p)),
      BuildCall(RegenerateBuild(p)),
      Newline ]
  }

  lemma {:induction false} EmptyInv()
    ensures Inv(Empty)
  {
  }

  /** The first product pass over the concrete targets of the project. */
  function CollectProject(h: Hooks, relpath: (string, string) -> string, p: Project,
                          memo: Memos, fuel: nat): (out: (Result<Collected, OutputError>, Memos))
    ensures MemoGrows(memo, out.1)
    ensures MemoOk(memo) ==> MemoOk(out.1)
    ensures out.0.Success? ==> Inv(out.0.value)
  {
    EmptyInv();
    CollectTargets(h, relpath, ConcreteTargets(p), Empty, memo, fuel)
  }

  /** `write_ninja_files` without the file handling: the writer calls, or
      the error that ends generation. What the calls are is stated about
      `FileCalls` and `CollectProject`. */
  function WriteNinja(h: Hooks, relpath: (string, string) -> string, p: Project,
                      memo: Memos, fuel: nat): (Result<seq<Call>, OutputError>, Memos)
  {
    var col := CollectProject(h, relpath, p, memo, fuel);
    match col.0
    case Failure(e) => (Failure(e), col.1)
    case Success(c) => (Success(FileCalls(p, c)), col.1)
  }

  /** The calls of a generated file, given the outcome of the first pass. */
  function FileCalls(p: Project, c: Collected): seq<Call>
  {
    Header(p) + RuleSection(p) + ProductCalls(c.byTarget)
  }

  /** The rules of a generated file: the regeneration rule, then the
      project's rules sorted by name. */
  lemma {:induction false} FileRules(p: Project, c: Collected)
    ensures var rs := RulesIn(FileCalls(p, c));
      && |rs| == |p.ninjaRules| + 1 && rs[0] == (RegenerateRule, RegenerateDecl(p))
      && multiset(rs[1..]) == multiset(p.ninjaRules)
      && (forall i, j :: 1 <= i < j < |rs| ==> StrLe(rs[i].0, rs[j].0))
  {
    var hd := Header(p);
    var rules := RuleSection(p);
    var prods := ProductCalls(c.byTarget);
    RuleSectionSorted(p);
    HeaderFilters(p);
    ProductCallsNoRules(c.byTarget);
    RulesAppend(hd, rules);
    RulesAppend(hd + rules, prods);
    var rs := RulesIn(FileCalls(p, c));
    assert rs == [(RegenerateRule, RegenerateDecl(p))] + RulesIn(rules);
    assert rs[1..] == RulesIn(rules);
  }

  /** The builds of a generated file: the regeneration build, then the
      filed dicts slot by slot in (target ident, env digest) order, no two
      of them writing the same set of outputs. */
  lemma {:induction false} FileBuilds(p: Project, c: Collected)
    requires Inv(c)
    ensures var bs := BuildsIn(FileCalls(p, c));
      && |bs| >= 1 && bs[0] == RegenerateBuild(p)
      && AllFiled(c.byTarget, Order(c.byTarget)) && LexSorted(Order(c.byTarget))
      && bs[1..] == ArgsOf(Emitted(c.byTarget, Order(c.byTarget)))
      && (forall i, j :: 1 <= i < j < |bs| ==> (set x | x in bs[i].outputs) != (set x | x in bs[j].outputs))
  {
    var s := c.byTarget;
    FileBuildsSplit(p, s);
    ProductCallsBuilds(s);
    ProductCallsDistinct(c);
    OrderSpec(s);
    var bs := BuildsIn(FileCalls(p, c));
    var pb := BuildsIn(ProductCalls(s));
    assert bs[1..] == pb;
    forall i, j | 1 <= i < j < |bs| ensures (set x | x in bs[i].outputs) != (set x | x in bs[j].outputs) {
      assert bs[i] == pb[i - 1] && bs[j] == pb[j - 1];
    }
  }

  lemma {:induction false} FileBuildsSplit(p: Project, s: Slots)
    ensures BuildsIn(Header(p) + RuleSection(p) + ProductCalls(s)) == [RegenerateBuild(p)] + BuildsIn(ProductCalls(s))
  {
    var rb := RegenerateBuild(p);
    HeaderBuilds(p);
    RuleSectionNoBuilds(p);
    BuildsThree(Header(p), RuleSection(p), ProductCalls(s));
    assert [rb] + [] == [rb];
  }

  lemma {:induction false} RuleSectionNoBuilds(p: Project)
    ensures BuildsIn(RuleSection(p)) == []
  {
    RuleCallsFilter(Sort(p.ninjaRules, ByKey<NinjaSyntax.RuleDecl>()));
  }

  lemma {:induction false} BuildsThree(a: seq<Call>, b: seq<Call>, c: seq<Call>)
    ensures BuildsIn(a + b + c) == BuildsIn(a) + BuildsIn(b) + BuildsIn(c)
  {
    BuildsAppend(a, b);
    BuildsAppend(a + b, c);
  }

  lemma {:induction false} ConsBuilds(x: Call, rest: seq<Call>)
    ensures BuildsIn([x] + rest) == BuildOf(x) + BuildsIn(rest)
  {
    assert ([x] + rest)[0] == x && ([x] + rest)[1..] == rest;
  }

  lemma {:induction false} ConsRules(x: Call, rest: seq<Call>)
    ensures RulesIn([x] + rest) == RuleOf(x) + RulesIn(rest)
  {
    assert ([x] + rest)[0] == x && ([x] + rest)[1..] == rest;
  }

  lemma {:induction false} HeaderFilters(p: Project)
    ensures RulesIn(Header(p)) == [(RegenerateRule, RegenerateDecl(p))]
    ensures BuildsIn(Header(p)) == [RegenerateBuild(p)]
  {
    HeaderRules(p);
    HeaderBuilds(p);
  }

  lemma {:induction false} HeaderRules(p: Project)
    ensures RulesIn(Header(p)) == [(RegenerateRule, RegenerateDecl(p))]
  {
    var hd := Header(p);
    var t6 := [hd[6]];
    var t5 := [hd[5]] + t6;
    var t4 := [hd[4]] + t5;
    var t3 := [hd[3]] + t4;
    var t2 := [hd[2]] + t3;
    var t1 := [hd[1]] + t2;
    assert hd == [hd[0]] + t1;
    assert t6 == [hd[6]] + [];
    ConsRules(hd[6], []);
    ConsRules(hd[5], t6);
    ConsRules(hd[4], t5);
    ConsRules(hd[3], t4);
    ConsRules(hd[2], t3);
    ConsRules(hd[1], t2);
    ConsRules(hd[0], t1);
  }

  lemma {:induction false} HeaderBuilds(p: Project)
    ensures BuildsIn(Header(p)) == [RegenerateBuild(p)]
  {
    var hd := Header(p);
    var t6 := [hd[6]];
    var t5 := [hd[5]] + t6;
    var t4 := [hd[4]] + t5;
    var t3 := [hd[3]] + t4;
    var t2 := [hd[2]] + t3;
    var t1 := [hd[1]] + t2;
    assert hd == [hd[0]] + t1;
    assert t6 == [hd[6]] + [];
    ConsBuilds(hd[6], []);
    ConsBuilds(hd[5], t6);
    ConsBuilds(hd[4], t5);
    ConsBuilds(hd[3], t4);
    ConsBuilds(hd[2], t3);
    ConsBuilds(hd[1], t2);
    ConsBuilds(hd[0], t1);
  }

  /** The second pass declares no rule. */
  lemma {:induction false} ProductCallsNoRules(s: Slots)
    ensures RulesIn(ProductCalls(s)) == []
  {
    TargetsNoRules(s, SortedOfSet(s.Keys));
  }

  lemma {:induction false} TargetsNoRules(s: Slots, ts: seq<string>)
    requires forall i :: 0 <= i < |ts| ==> ts[i] in s
    ensures RulesIn(TargetsCalls(s, ts)) == []
    decreases |ts|
  {
    if |ts| > 0 {
      var t := ts[0];
      TargetsNoRules(s, ts[1..]);
      EnvNoRules(t, s[t], SortedOfSet(s[t].Keys), |s[t]| > 1);
      var head: seq<Call> := if |s[t]| == 1 then [Comment(TargetComment(t))] else [];
      RulesAppend(head, EnvCalls(t, s[t], SortedOfSet(s[t].Keys), |s[t]| > 1));
      RulesAppend(TargetCalls(t, s[t]), TargetsCalls(s, ts[1..]));
    }
  }

  lemma {:induction false} EnvNoRules(ti: string, emap: map<string, seq<BuildDict>>, eds: seq<string>, many: bool)
    requires forall i :: 0 <= i < |eds| ==> eds[i] in emap
    ensures RulesIn(EnvCalls(ti, emap, eds, many)) == []
    decreases |eds|
  {
    if |eds| > 0 {
      var ds := emap[eds[0]];
      var head: seq<Call> := if many then [Comment(TargetDigestComment(ti, eds[0]))] else [];
      EnvNoRules(ti, emap, eds[1..], many);
      BuildCallsFilter(ds);
      RulesAppend(head, BuildCalls(ds));
      RulesAppend(head + BuildCalls(ds), [Newline]);
      RulesAppend(GroupCalls(ti, eds[0], ds, many), EnvCalls(ti, emap, eds[1..], many));
    }
  }
}
