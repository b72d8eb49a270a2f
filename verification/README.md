# cobble-build, modelled in Dafny

Cobble is a build-file generator. A project tree holds packages. Each package
holds targets, and targets depend on one another by identifier
(`alias//package:name`). Evaluating the concrete targets in their
configuration environments yields a graph of build products. The generator
writes those products, with the Ninja rules they need, into one `build.ninja`.

This project models the generator's core as immutable datatypes and pure
functions. It proves what the code promises about them. The modules follow
the program's files:

| module | models |
|---|---|
| `Targets`, `Evaluation` | `src/cobble/target/__init__.py`: target identifiers, the memoised evaluator, rank merging and the topological order of using-deltas |
| `Products` | `src/cobble/target/__init__.py`: the `Product` value object and its lowering to Ninja build dicts |
| `Namespace`, `Paths` | `src/cobble/project.py`: projects, packages, registries, identifier resolution, input/output/link paths |
| `NinjaSyntax` | `src/cobble/ninja_syntax.py`: escaping, `variable`, `rule`, `build` and the line-wrapping loop |
| `Output` | `src/cobble/output.py`: project file collection, de-duplication of build dicts by output set, sorted emission |
| `CTarget` | `src/cobble/target/c.py`: the C rules, compile-rule selection by extension, `c_library` and `c_binary` |
| `Wrappers`, `Strs`, `Dicts`, `Sorting`, `Values`, `Env` | shared vocabulary: `Option`/`Result`, Python string operations, insertion-ordered dicts, a stable sort, Python values, and the abstract environment |

The modelling conventions are:

- **Errors.** A Python `assert` or `raise` in the modelled code becomes a
  `Failure` carrying a named error.
- **Dicts.** Python dicts are association lists with insertion order.
  Updating an existing key keeps its position, as in CPython.
- **Environments.** `Env` is an abstract type. `derive`, `subset_require`,
  `digest`, `rewrite`, key reads and `readout_all` are uninterpreted
  functions in an `EnvOps` record passed as a parameter.
- **Plugin closures.** Closures supplied by plugins are function parameters
  (`Hooks`): a concrete target's `down` lambda and `using_and_products`.
- **Root-package identifiers.** `Hooks.rootAsDot` chooses how the evaluator
  resolves dependency identifiers. When it is false, resolution follows the
  code as written, where a root-package identifier names no package. When it
  is true, resolution uses the corrected lookup described in the root-package
  finding below.
- **Recursion limit.** Evaluation takes a `fuel` argument standing in for
  Python's recursion limit.
- **Writer output.** The Ninja writer's sequence of calls is a list of
  `Call` values. The text each call writes is modelled separately in
  `NinjaSyntax`.

## Model

| member | source | states |
|---|---|---|
| Evaluation.DeriveDown | src/cobble/target/__init__.py:121-131 | a concrete target's down-environment is whatever its own hook makes of the given environment, even none; a non-concrete target derives its `down` delta from the given environment, and fails when it has none |
| Evaluation.EvaluateDownFails | src/cobble/target/__init__.py:121-131 | when the down-environment cannot be derived, a fresh evaluation fails with that error as its cause and a chain of just `(target, env)` |
| Evaluation.EvaluateNeedsEnvironment | src/cobble/target/__init__.py:128-131 | a non-concrete target evaluated without an environment fails, and the failure names only that pair |
| Evaluation.Evaluate | src/cobble/target/__init__.py:174-194 | a key already in the memo is answered from the memo alone; otherwise the result is recorded under `(target, env)` as Done or Failed; a failure's chain ends with this key; the memo only grows and stays consistent |
| Evaluation.Revisit | src/cobble/target/__init__.py:175-186 | a Done entry is returned unchanged; a Visiting entry (the recursion sentinel) becomes a cycle error naming the target ident; a Failed entry is raised again with this key appended to its chain, and the memo records the new error |
| Evaluation.Settle | src/cobble/target/__init__.py:187-194 | a successful body is memoised as Done; a nested evaluation error keeps its cause and gets this key appended; any other failure becomes a new error whose chain is just this key; the memo entry holds that error |
| Evaluation.EvaluateOnce | src/cobble/target/__init__.py:175-179 | after a successful evaluation, evaluating the same (target, env) against any later memo returns the same result and leaves the memo untouched, whatever the fuel, so each pair is evaluated at most once |
| Evaluation.EvaluateFailsAgain | src/cobble/target/__init__.py:174-194 | after a failed evaluation, every later evaluation of the same pair fails again with the same cause |
| Evaluation.CycleRemembered | src/cobble/target/__init__.py:176-185 | re-entering a pair that is still being evaluated fails with a cycle error whose chain is that pair alone, and stores the error in the memo |
| Evaluation.EvalBody | src/cobble/target/__init__.py:196-247 | the non-memoised evaluation grows the memo and keeps it consistent; on success its maps have no duplicate keys and hold `(target, env)` at rank 0 with its products |
| Evaluation.EvalDeps | src/cobble/target/__init__.py:204-207 | on success there is one result per identifier; an error raised by a dependency's evaluation ends with the pair of a target resolved from one of the identifiers and the down-environment; the memo only grows and stays consistent |
| Evaluation.ResolveRootIdent | src/cobble/project.py:91-107 | a dependency on a registered root-package target resolves to that target under the corrected reading, and fails as an unknown package under the code as written |
| Evaluation.RewriteAll | src/cobble/target/__init__.py:204 | the rewritten list has one entry per identifier, each the environment's rewrite of it; it fails exactly when some identifier fails to rewrite |
| Evaluation.Combine | src/cobble/target/__init__.py:211-247 | it succeeds exactly when folding the sorted using-deltas over the first local environment succeeds and the target's own `using_and_products` succeeds; its entry is `(target, env)` with rank 0, its own using-delta and its own products; every other key keeps the merged rank and product entry of the dependencies |
| Evaluation.MergeItems | src/cobble/target/__init__.py:306-318 | each merged key came from the inputs; its rank is one more than the highest incoming rank for that key; its using-delta is that of the last occurrence |
| Evaluation.TopoMerge | src/cobble/target/__init__.py:306-318 | the merged rank map has no duplicate keys |
| Evaluation.TopoMergeLongest | src/cobble/target/__init__.py:311-316 | a key present in any dependency map is in the merge; its rank exceeds its rank in every map that has it, and equals one more than its rank in one of them, so the longest path wins |
| Seqs.FlattenAt | src/cobble/target/__init__.py:216 | `chain` puts item `j` of list `d` right after all the items of the lists before `d` |
| Seqs.FlattenSplit | src/cobble/target/__init__.py:216 | the chained list is the lists before `d`, then list `d`, then the lists after it |
| Seqs.FlattenAppend | src/cobble/target/__init__.py:216 | chaining a concatenation of lists is chaining each part and concatenating the results |
| Seqs.FlattenMembers | src/cobble/target/__init__.py:216 | an item is in the chained list exactly when it is in one of the lists |
| Evaluation.DictOfFlattenLast | src/cobble/target/__init__.py:216 | `dict` of the chained items gives a key the value from the last list that has it |
| Evaluation.MergeProducts | src/cobble/target/__init__.py:216 | the merged product map has no duplicate keys and holds exactly the keys of the dependencies' product maps; a key takes the products from the last dependency whose map has it |
| Evaluation.TopoOrder | src/cobble/target/__init__.py:301-304 | the sort key (descending rank, then target ident, then env digest) is a total preorder |
| Evaluation.TopoSort | src/cobble/target/__init__.py:299-304 | the sorted list is a permutation of the merged entries, ordered by the sort key: ranks never increase along it, entries of equal rank are in ident order, and entries of equal rank and ident are in digest order with a missing digest first |
| Evaluation.FoldUsingsFront | src/cobble/target/__init__.py:220-222 | folding no deltas gives the starting environment; otherwise the first delta is derived over it, a failure there is the result, and the rest are folded over the derived environment |
| Evaluation.FoldUsingsStops | src/cobble/target/__init__.py:220-222 | when the deltas before position `i` fold to `e` and deriving delta `i` over `e` fails, the whole fold fails with that error |
| Evaluation.FoldUsingsAppend | src/cobble/target/__init__.py:222 | folding a concatenation equals folding the second list over the result of the first |
| Evaluation.RankMapOf | src/cobble/target/__init__.py:227-228 | the target rank map has one key per target occurring in the sorted list |
| Evaluation.RankMapLastWins | src/cobble/target/__init__.py:227-228 | a target keeps the rank and environment of its last occurrence in the sorted list |
| Products.NewProduct | src/cobble/target/__init__.py:347-383 | a new product is well formed with nothing exposed or symlinked; it keeps the given environment, dyndep, inputs and rule; its variables are the environment's readout; a pair of outputs splits into outputs and implicit outputs; the implicit and order-only sets are the environment's sets extended by the arguments |
| Products.NewProductLowered | src/cobble/target/__init__.py:429-444 | a fresh product lowers to its primary dict alone, which carries the given outputs, rule and inputs, the environment's implicit and order-only paths joined with the arguments, the readout as variables, and the dyndep |
| Products.Expose | src/cobble/target/__init__.py:385-400 | exposing fails exactly when the path is not among the outputs and implicit outputs, or the name is already exposed; on success only the exposed map changes, the name finds the path, and every other name finds what it found before |
| Products.Symlink | src/cobble/target/__init__.py:402-413 | a symlink fails exactly when its target is not an output, its source is already a symlink, or one of its order-only deps is not yet a symlink source; on success the link is appended and nothing else changes |
| Products.AppendLinkWellFormed | src/cobble/target/__init__.py:402-413 | appending a link that passes those checks keeps the product well formed |
| Products.FindOutput | src/cobble/target/__init__.py:415-418 | the lookup returns nothing exactly for names never exposed, and an exposed name finds one of the product's outputs |
| Products.SortedOfSet | src/cobble/target/__init__.py:441-442 | `sorted` of a set lists each member exactly once in strictly increasing order |
| Products.SortedOfSetUnique | src/cobble/target/__init__.py:441-442 | every strictly sorted listing of a set is that same list |
| Products.PrimaryDict | src/cobble/target/__init__.py:435-444 | the primary dict has the outputs and rule; each optional key appears exactly when its value is non-empty; `implicit` and `order_only` list their sets sorted; the variables are a sorted permutation of the readout |
| Products.Dirname | src/cobble/target/__init__.py:455 | the directory name is a prefix of the path, and a path without `/` has an empty directory |
| Products.SymlinkDict | src/cobble/target/__init__.py:449-457 | a symlink dict outputs its source with the symlink rule; its order-only deps are the product's outputs, implicit outputs and the link's own deps; its one variable is the target's path relative to the source's directory |
| Products.SymlinkDicts | src/cobble/target/__init__.py:446-457 | there is one symlink dict per link, in link order |
| Products.NinjaDicts | src/cobble/target/__init__.py:429-460 | the primary dict comes first, followed by exactly one symlink dict per symlink, each writing that symlink's source |
| Products.SymlinkDictsDistinct | src/cobble/target/__init__.py:446-458 | no two symlink dicts write the same outputs |
| Products.SymlinkDictsOrdered | src/cobble/target/__init__.py:446-458 | every order-only dep of a symlink dict is an output of the product or the output of an earlier symlink dict |
| Products.BuildArgsOf | src/cobble/output.py:124-125 | `writer.build(**dict)` passes the dict's outputs and rule; every optional key is passed as the matching argument when present, and an absent key takes `build`'s `None` default: no paths, no variables, no dyndep |
| Products.PrimaryArgs | src/cobble/target/__init__.py:435-444 | for a product's primary dict the writer receives the product's own outputs, rule, inputs and implicit outputs, and its dyndep file unless that is empty |
| Products.PrimaryArgsSorted | src/cobble/target/__init__.py:435-444 | for a product's primary dict the writer receives the implicit and order-only sets listed once each in sorted order, and the variables as a permutation sorted by name |
| Namespace.NewProject | src/cobble/project.py:9-28 | a new project has no subprojects, packages or environments, and exactly one Ninja rule, the symlink rule `ln -sf $target $out` |
| Namespace.OutPathBase | src/cobble/project.py:45 | an output path is the parts joined under `build_dir/env/alias/digest` |
| Namespace.OutPathShape | src/cobble/project.py:45 | for plain components the output path is that prefix, then the digest, then the parts separated by `/` |
| Namespace.OutPathInjective | src/cobble/project.py:45 | two output paths of a project are equal only for the same digest and the same joined parts |
| Namespace.OutPathNotLinkPath | src/cobble/project.py:45-49 | an output path under `env/` never coincides with a link path under `latest/` |
| Namespace.AddSubproject | src/cobble/project.py:51-55 | registering fails exactly on a duplicate alias; on success the alias finds the new subproject, and every other alias finds what it found before |
| Namespace.AddPackage | src/cobble/project.py:70-75 | registering fails exactly on a duplicate relpath or a package of another project; on success the relpath finds the package, and all other lookups are unchanged |
| Namespace.AddTarget | src/cobble/project.py:164-168 | adding fails exactly on a duplicate name; on success the name finds the target, and other names are unchanged |
| Namespace.DefineEnvironment | src/cobble/project.py:109-117 | defining fails exactly on a duplicate name; on success the name maps to the environment, and other names are unchanged |
| Namespace.MergeRules | src/cobble/project.py:126-137 | merging fails exactly when some rule name is already present with a different value; on success every new rule is present, the old rules are unchanged, and nothing else is added |
| Namespace.AddNinjaRules | src/cobble/project.py:126-137 | the project's rules gain the new ones, keep the old ones, and fail exactly on an incompatible redefinition |
| Namespace.MergeRulesIdempotent | src/cobble/project.py:132-137 | adding the same rules a second time changes nothing |
| Namespace.MergeRulesPresent | src/cobble/project.py:132-137 | adding rules that are all already present with equal values changes nothing |
| Namespace.FindProjectPreorder | src/cobble/project.py:57-68 | for a non-empty alias, `find_project` returns the first project with that alias in a depth-first pre-order walk of the tree |
| Namespace.FirstFoundPreorder | src/cobble/project.py:64-68 | taking the first non-None subproject answer is the first match in the pre-order of the subprojects |
| Namespace.FindLocal | src/cobble/project.py:91-107 | two or more colons fail as too many colons; with fewer, the lookup fails as an unknown package exactly when no package has the package path, and otherwise succeeds exactly when that package has a target with the name, failing with no such target (naming `alias//path`) otherwise; a found target has the name after the colon, or the basename of the package path when there is no colon |
| Namespace.FindLocalFinds | src/cobble/project.py:102-107 | in a project whose relpaths and names are unique, a target with the name in the package at the path is the one found |
| Namespace.FindTargetIn | src/cobble/project.py:83-89 | an identifier without `//` is not absolute, and one that does not split into exactly two parts at `//` is malformed; an empty alias is looked up in this project; a non-empty alias fails with no project exactly when no project in the tree carries it, and is otherwise looked up in the project that does |
| Namespace.FindTargetSound | src/cobble/project.py:77-107 | every target found lies in a package of some project in the tree |
| Namespace.ResolveIn | src/cobble/project.py:86-89 | an identifier with the alias of a project in the tree is resolved inside that project |
| Namespace.ReadColon | src/cobble/project.py:96-98 | with one colon, the package path is the text before it and the target name the text after it |
| Namespace.IdentSplit | src/cobble/target/__init__.py:85-90 | a target's ident is its alias, `//`, then a remainder that contains no further `//` |
| Namespace.IdentRoundTrip | src/cobble/project.py:77-107 | for a registered target outside the root package, resolving its ident finds that same target |
| Namespace.RootIdentUnresolved | src/cobble/project.py:91-107 | for a registered target of the root package (relpath `.`), resolving its ident fails with an unknown package |
| Namespace.IdentRoundTripCorrected | src/cobble/project.py:91-107 | with the root package read as `.`, every registered target's ident resolves to that target |
| Namespace.TwoColonsRejected | src/cobble/project.py:99-100 | `//a:b:c` is rejected for having too many colons |
| Namespace.MakeAbsolute | src/cobble/project.py:182-190 | `:x` becomes `alias//relpath:x`; `//x` becomes `alias//x`; another identifier containing `//` is returned unchanged; anything else fails as an unexpected identifier |
| Namespace.MakeAbsoluteIdempotent | src/cobble/project.py:182-190 | making an absolute identifier absolute again returns it unchanged |
| Namespace.PackageFindTargetAgrees | src/cobble/project.py:192-198 | a package-relative lookup finds a target exactly when the project-level lookup of its absolute form does, and then finds the same one |
| Namespace.FindEnvironment | src/cobble/project.py:119-124 | without `//` the name is looked up in the project's own environments; an identifier that does not split in two is malformed; otherwise it fails with no project when no project carries the alias, and succeeds exactly when that project defines the name, failing with no environment otherwise |
| Namespace.FindDefinedEnvironment | src/cobble/project.py:109-124 | after defining an environment, finding it by its name, or by `alias//name`, gives it back, and every other plain name finds what it found before |
| Namespace.Files | src/cobble/project.py:139-143 | the project's files are `BUILD.conf` under the root, then one `BUILD` per package in registration order |
| Namespace.AllTargets | src/cobble/project.py:145-149 | the target list holds exactly the targets of the given packages, package by package in order: for every package, the targets of the packages before it, then its own targets, then those of the packages after it |
| Namespace.ConcreteTargets | src/cobble/project.py:151-153 | the concrete targets are exactly the project's targets that are concrete, kept in the order of the target list, package by package |
| NinjaSyntax.EscapePathIsCharwise | src/cobble/ninja_syntax.py:13-17 | the three chained replacements equal one left-to-right pass that maps `$ ` to `$$$ `, a space to `$ `, `:` to `$:` and leaves every other character alone |
| NinjaSyntax.EscapePathRoundTrip | src/cobble/ninja_syntax.py:13-17 | for a path without `$`, reading the escaped word back gives the path |
| NinjaSyntax.EscapePathMarker | src/cobble/ninja_syntax.py:105-122 | a path escapes to one of the two section markers only if it is that marker, so an escaped path never reads as a separator by accident |
| NinjaSyntax.Escape | src/cobble/ninja_syntax.py:202-207 | escaping fails exactly on a newline; otherwise unescaping `$$` gives the string back |
| NinjaSyntax.EscapeRoundTrip | src/cobble/ninja_syntax.py:202-207 | doubling every `$` is undone by reading `$$` as `$` |
| Seqs.Filter | src/cobble/ninja_syntax.py:66 | `filter` keeps exactly the items the predicate holds for, in their order |
| Seqs.FilterAppend | src/cobble/project.py:151-153 | filtering a concatenation is concatenating the filtered parts |
| Seqs.FirstWhere | src/cobble/project.py:68 | `next(filter(...), None)` gives an item of the list that matches, and gives nothing exactly when no item matches; alias, relpath and name lookups are all this search |
| Seqs.FirstWhereAppend | src/cobble/project.py:68 | searching a concatenation finds the first part's match if it has one, otherwise the second part's |
| NinjaSyntax.KeepTruthy | src/cobble/ninja_syntax.py:66 | `filter(None, …)` keeps exactly the truthy items, in their order |
| NinjaSyntax.JoinValues | src/cobble/ninja_syntax.py:66 | `' '.join` succeeds exactly when every item is a string, and then gives the strings separated by single spaces |
| NinjaSyntax.Variable | src/cobble/ninja_syntax.py:63-69 | a variable fails exactly when a truthy non-string value reaches the join, writes nothing exactly when every value is falsy, and otherwise writes the line `key = ` followed by the truthy values joined by spaces |
| NinjaSyntax.VariableWritten | src/cobble/ninja_syntax.py:63-69 | a list of non-empty strings is written as wrapped chunks that, joined by single spaces, give back `key = x1 x2 …` |
| NinjaSyntax.VariableScalar | src/cobble/ninja_syntax.py:63-69 | a non-empty string is written as the line `key = s`; `None` and `False` write nothing |
| NinjaSyntax.JoinTruthyNonEmpty | src/cobble/ninja_syntax.py:66-69 | joining non-empty strings gives the empty string only for an empty list |
| NinjaSyntax.DollarsBefore | src/cobble/ninja_syntax.py:34-41 | the count is the run of `$` ending just before the index, never reaching index 0, so it is at most max(i-1, 0) |
| NinjaSyntax.CountDollarsBeforeIndex | src/cobble/ninja_syntax.py:34-41 | the loop computes that count |
| NinjaSyntax.RFindEligible | src/cobble/ninja_syntax.py:170-176 | the backward search returns an eligible space (one after an even run of `$`) at or before its start, with no eligible space between the two, or -1 |
| NinjaSyntax.FindEligible | src/cobble/ninja_syntax.py:178-185 | the forward search returns the first eligible space after its start, or -1 when there is none |
| NinjaSyntax.BreakPoint | src/cobble/ninja_syntax.py:165-188 | the break is the rightmost eligible space within the width, else the first eligible space beyond it, and -1 exactly when the text has no eligible space |
| NinjaSyntax.LineChunks | src/cobble/ninja_syntax.py:162-196 | the wrapping loop ends; re-joining the chunks with single spaces gives the original text; every break was at an eligible space; the last chunk fits or cannot be broken |
| NinjaSyntax.LineUnbroken | src/cobble/ninja_syntax.py:162-196 | a line that fits, or has no eligible space, is written on one line after its indentation |
| NinjaSyntax.Variables | src/cobble/ninja_syntax.py:84-93 | a list of variables fails exactly when one of them fails, and the output starts with the first variable's text |
| NinjaSyntax.Rule | src/cobble/ninja_syntax.py:78-93 | a rule starts with the line `rule NAME` and fails exactly when one of its nine variables fails |
| NinjaSyntax.RuleWritten | src/cobble/ninja_syntax.py:78-93 | a rule with only a command, a description and the generator flag is written as `rule NAME`, the indented `command` and `description` lines, and `generator = 1` exactly when it is a generator |
| NinjaSyntax.Build | src/cobble/ninja_syntax.py:95-137 | a build starts with its build line and fails only when a variable fails |
| NinjaSyntax.MapEscape | src/cobble/ninja_syntax.py:105-106 | every path is escaped in place |
| NinjaSyntax.BuildInputsRoundTrip | src/cobble/ninja_syntax.py:106-126 | splitting the input words at the implicit and order-only markers gives back the escaped inputs, implicit deps and order-only deps; each marker is written only when its section is non-empty |
| NinjaSyntax.BuildOutputsRoundTrip | src/cobble/ninja_syntax.py:105-112 | splitting the output words at the implicit-output marker gives back the escaped outputs and implicit outputs |
| CTarget.NinjaRules | src/cobble/target/c.py:204-231 | exactly five rules are declared, `compile_c_obj`, `compile_cxx_obj`, `assemble_obj_pp`, `link_c_program` and `archive_c_library`, under distinct names; each is the declaration of that rule's command and description; the three compile rules set `depfile = $out.d` and `deps = gcc`, and the other two set neither |
| CTarget.DeclDeps | src/cobble/target/c.py:204-231 | a compile rule's declaration sets `depfile = $out.d` and `deps = gcc`; the link and archive declarations set neither |
| CTarget.RenderMentions | src/cobble/target/c.py:204-231 | every variable a command reads appears as `$name` in the command text |
| CTarget.LinkReadsKept | src/cobble/target/c.py:59-60 | the link command reads only the keys kept for linking and the edge variables (`in`, `out`, `depfile`), and each key it reads appears as `$name` in the rendered command text |
| CTarget.ArchiveReadsKept | src/cobble/target/c.py:61 | the archive command reads only the keys kept for archiving and the edge variables, and each appears as `$name` in the rendered command text |
| CTarget.CompileReadsKept | src/cobble/target/c.py:58 | a compile command reads only the common compile keys, its tool and flags, and the edge variables, and each appears as `$name` in the rendered command text |
| CTarget.FileType | src/cobble/target/c.py:180-185 | `.c` maps to `compile_c_obj` with the keys `cc` and `c_flags`, `.cc` and `.cpp` to `compile_cxx_obj` with `cxx` and `cxx_flags`, `.S` to `assemble_obj_pp` with `aspp` and `aspp_flags`, and nothing else has a rule; each rule reads only its keys and the common compile keys |
| CTarget.CompileObject | src/cobble/target/c.py:188-202 | compiling fails exactly on an unknown extension; otherwise it yields one product with the rule for the extension, input `[source]` and the single output `basename(source).o`, in the environment cut down to the common compile keys and the extension's keys, which are all the rule reads |
| CTarget.ObjectPathsDistinct | src/cobble/target/c.py:196-199 | two object paths of a package coincide only for the same environment digest and the same source basename |
| CTarget.CompileAll | src/cobble/target/c.py:130 | compiling every source succeeds exactly when every source has a known extension; the first unknown one is reported |
| CTarget.ObjFiles | src/cobble/target/c.py:132 | with single-output products, the object files are their outputs, in order |
| CTarget.ObjFilesOfSources | src/cobble/target/c.py:130-132 | the object files are the object paths of the sources, in source order |
| CTarget.LinkSrcs | src/cobble/target/c.py:150-153 | with whole-archive on, the link sources are the outputs wrapped in `-Wl,-whole-archive` and `-Wl,-no-whole-archive`; otherwise they are the outputs |
| CTarget.Archive | src/cobble/target/c.py:135-153 | archive mode fails exactly when the archive environment cannot be derived; otherwise it appends one `archive_c_library` product whose output is the library and whose inputs are the object files |
| CTarget.LibraryIn | src/cobble/target/c.py:126-170 | a compile failure is passed on; in archive mode the result is the archive; otherwise the objects are returned as they are and the using-delta names the object files |
| CTarget.WholeArchiveIgnored | src/cobble/target/c.py:150-168 | in the library as written, the using-delta's link sources always equal its outputs, whatever the whole-archive flag says |
| CTarget.ArchiveAsWritten | src/cobble/target/c.py:160-168 | as written, an archive's using-delta puts the bare library into both keys |
| CTarget.WholeArchiveHonoured | src/cobble/target/c.py:150-168 | in the corrected library, with whole-archive on, the link sources are the wrapped library |
| CTarget.Program | src/cobble/target/c.py:84-96 | the program is one `link_c_program` product; its single output is exposed under the target name and symlinked from the link path |
| CTarget.Binary | src/cobble/target/c.py:71-106 | a binary passes on compile failures and fails when the link environment cannot be derived; otherwise its products are the objects followed by the program, and its using-delta names the link path as an implicit dependency |
| CTarget.BinaryProducts | src/cobble/target/c.py:105 | a binary's products are one compile product per source, then exactly one link product |
| Output.AddFirst | src/cobble/output.py:14-15 | only the first project recorded under an alias contributes its files, and earlier entries are unchanged |
| Output.SubprojectFilesIsFold | src/cobble/output.py:11-16 | the recursive collection is a fold of that step over the projects in post-order |
| Output.AddFirstAllGet | src/cobble/output.py:11-16 | each alias ends up with the files of the first project in the walk that carries it |
| Output.ProjectFiles | src/cobble/output.py:18-20 | the project file list is sorted and is a permutation of the collected files |
| Output.ProjectFilesMembers | src/cobble/output.py:9-20 | a file is listed exactly when it belongs to the first post-order project of some alias |
| Output.KeyOf | src/cobble/output.py:88 | a dict's key is the set of its outputs |
| Output.RegisterConsistent | src/cobble/output.py:85-95 | registering a group's dicts fails exactly when a dict's key is already registered to a different dict, and the conflict names such a key |
| Output.RegisterRecords | src/cobble/output.py:85-95 | after registering, every dict is the one registered under its key; the group keeps exactly the dicts whose key was new, once each, in the order they came, each taken at the first dict with its key; earlier registrations are unchanged |
| Output.DigestOf | src/cobble/output.py:79 | a missing environment is filed under `top`, any other under its digest |
| Output.DictsOf | src/cobble/output.py:85-87 | a group's dicts are the Ninja dicts of its products in order, and include every primary dict |
| Output.GroupOf | src/cobble/output.py:77-79 | a product-map entry becomes a group with the target's ident, the environment digest and the products' dicts |
| Output.File | src/cobble/output.py:98 | filing sets exactly one (ident, digest) slot and leaves every other slot alone |
| Output.CollectGroupFails | src/cobble/output.py:85-95 | collecting a group fails exactly on a conflicting dict |
| Output.CollectGroupRegisters | src/cobble/output.py:88-95 | collecting registers the group's dicts |
| Output.ContributesKeeps | src/cobble/output.py:97 | a group contributes exactly when it brings at least one new key |
| Output.CollectGroupNew | src/cobble/output.py:97-98 | a contributing group is filed under its ident and digest with exactly its new dicts |
| Output.CollectGroupStale | src/cobble/output.py:97-98 | a group that brings nothing new leaves the grouped table unchanged |
| Output.CollectGroupInv | src/cobble/output.py:85-98 | collecting a group preserves the invariant: every filed dict is the registered one for its key, every slot is non-empty, and no key is filed twice |
| Output.GroupsOf | src/cobble/output.py:77 | there is one group per product-map entry, in map order |
| Output.CollectAllInv | src/cobble/output.py:77-98 | collecting all groups preserves that invariant |
| Output.CollectAllRegisters | src/cobble/output.py:88-95 | after a successful pass, every dict of every group is registered under its key |
| Output.CollectAllKeeps | src/cobble/output.py:89-94 | a registered dict is never replaced, so the first registration wins |
| Output.CollectTargets | src/cobble/output.py:69-98 | evaluating the concrete targets one by one grows the shared memo and preserves the invariant |
| Output.CollectProject | src/cobble/output.py:64-98 | the first pass over a project starts from empty tables and, on success, ends with the invariant |
| Output.EmptyInv | src/cobble/output.py:64-65 | the empty tables satisfy the invariant |
| Output.ArgsOf | src/cobble/output.py:124-125 | each dict becomes the build arguments it spreads into |
| Output.BuildCalls | src/cobble/output.py:124-125 | one build call per dict, in order |
| Output.BuildCallsFilter | src/cobble/output.py:124-125 | those calls contain those builds and no comments or rules |
| Output.RuleCallsFilter | src/cobble/output.py:57-59 | the rule calls declare the given rules in order and nothing else |
| Output.RuleSectionSorted | src/cobble/output.py:56-59 | the rule section declares a permutation of the project's rules, sorted by name, and holds no builds or comments |
| Output.Block | src/cobble/output.py:120 | a target's block lists exactly its (ident, digest) slots, in digest order |
| Output.OrderOfSpec | src/cobble/output.py:113-120 | for sorted idents, the emission order lists exactly their slots, sorted by ident then digest |
| Output.OrderSpec | src/cobble/output.py:113-120 | the emission order lists every filed slot exactly once, sorted by ident then digest |
| Output.EmittedDistinct | src/cobble/output.py:93-95 | under the invariant, the dicts emitted in any repetition-free order have distinct output keys |
| Output.ProductCallsDistinct | src/cobble/output.py:93-95 | no two emitted product builds have the same output set |
| Output.ProductCallsBuilds | src/cobble/output.py:113-126 | the product section builds exactly the filed dicts, slot by slot in emission order |
| Output.TargetComments | src/cobble/output.py:113-123 | a target seen in one environment gets a single `---- target` comment; one seen in several gets a comment per digest, in digest order |
| Output.EnvCallsComments | src/cobble/output.py:120-123 | a per-digest comment is written for each environment exactly when the target has several |
| Output.GroupCallsFilter | src/cobble/output.py:120-126 | one environment's calls build its dicts in order, with a digest comment only when the target has several environments |
| Output.HeaderRules | src/cobble/output.py:39-44 | the header declares exactly the regeneration rule |
| Output.HeaderBuilds | src/cobble/output.py:46-50 | the header's one build writes `build.ninja`, depending on the project files |
| Output.FileRules | src/cobble/output.py:38-59 | the file declares the regeneration rule first, then a permutation of the project's rules sorted by name |
| Output.FileBuilds | src/cobble/output.py:46-126 | the file builds `build.ninja` first, then exactly the filed dicts in sorted slot order, no two with the same output set |

## Left out

- `src/cobble/cmd.py`, which runs `ninja` through `subprocess` and prints results, is not part of this model.
- The environment library `cobble.env` is not part of this model. `derive`, `subset_require`, `digest`, `rewrite`, key reads, `without` and `readout_all` are uninterpreted fields of `EnvOps`. No merge behaviour is assumed.
- `os.path.join` is modelled in `Paths`. `os.path.relpath` is a function parameter.
- `os.path.normpath` in the `Package` constructor is not modelled: a package's relpath is taken as already normalised.
- `UsingContext.rewrite_sources` and plugin registration (`target_def`) depend on code outside the model. C targets take their sources already rewritten.
- `Writer.comment` line wrapping uses `textwrap` and is not modelled.
- `Writer.pool`, `include`, `subninja`, `default` and `close` are not used by the modelled code and are left out.
- The temporary-file write and the rename in `write_ninja_files` are file I/O and are left out.
- `dump_environments` and `environments_by_digest` only write environment listings as comments, so they are left out.
- `_transparent` is always true in the shown code, so the branch that clears the merged map is not modelled.
- `_check_local` is a no-op hook and `stats()` is diagnostics; both are left out.
- Python stores one `EvaluationError` object in the memo and mutates it as it propagates. The model stores a copy at each level, with the chain as it stood when that level failed.
- Python's recursion limit is the `fuel` argument of evaluation; running out is the error cause `RecursionLimit`.
- The fourth component of the `_topo_sort` key, the using-delta, is left out. Two distinct entries always differ in target or environment before it, so it never decides the order.
- A missing environment digest sorts first in the `_topo_sort` key. Python would raise if it compared `None` with a string, but dependency results always carry an environment, so this does not arise.
- `Target.__init__`'s `make_absolute` of dependencies and its type assertions are left out. Dependencies are stored already absolute, in the order the frozenset yields them. `Namespace.PackageFindTargetAgrees` shows that resolving a relative identifier through its package agrees with resolving its absolute form.
- `c_binary`'s `down` lambda is the `concreteDown` hook of evaluation. The value of `DEPS_INCLUDE_SYSTEM` is read by the abstract environment, not modelled.
- `_as_iterable`'s four cases appear only through the contracts of `NinjaSyntax.Variable` and `NinjaSyntax.KeepTruthy`.
- Output.WriteNinja: it has no contract of its own. The file it produces is described by `Output.FileRules`, `Output.FileBuilds` and `Output.CollectProject`.
- Evaluation.TopoMerge: its contract states only that keys are unique. The longest-path ranks are in `Evaluation.TopoMergeLongest` and `Evaluation.MergeItems`.
- NinjaSyntax.Variables, NinjaSyntax.Rule, NinjaSyntax.Build: their contracts state the first line and when they fail, not the full text of every variable line. `NinjaSyntax.RuleWritten` gives the full text of a rule that sets only a command, a description and the generator flag.
- Evaluation.RewriteAll: the source calls `rewrite` once on the whole dependency collection. The model assumes that call acts one identifier at a time, keeping the order and any duplicates, and fails when any single identifier fails. `cobble.env` is not part of this model, so nothing here fixes what that call does.
- Output.CollectTargets: its contract states the invariant and the memo properties, not the contents of the collected tables.

## Findings

| source | as written | input that shows it | evidently intended | confidence | as-written member | corrected member |
|---|---|---|---|---|---|---|
| src/cobble/target/c.py:150-168 | `c_library` computes `link_srcs`, with the whole-archive wrapping, but the using-delta sets `c_link_srcs` to `outs` | a library in archive mode with `c_library_whole_archive` true: its users link `lib<name>.a` without `-Wl,-whole-archive` | the using-delta sets `c_link_srcs` to `link_srcs` | not executed | CTarget.WholeArchiveIgnored | CTarget.WholeArchiveHonoured |
| src/cobble/project.py:91-107 | the ident of a root-package target is `alias//:name`, and `find_target` looks that up under the package path `""` | a target `t` in the package with relpath `.`: `find_target(t.ident)` asserts "Reference to unknown package" | an empty package path names the root package `.` | not executed | Namespace.RootIdentUnresolved | Namespace.IdentRoundTripCorrected |
