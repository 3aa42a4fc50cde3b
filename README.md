# Spack contexts: the `Context` descriptor and its crash-safe store

This project models `lib/spack/spack/cmd/context.py`. A *context* is a named
environment descriptor. It has three aligned parts:

- `user_specs`: the requests, one per package name;
- `concretized_order`: the hashes of the resolved DAGs, aligned with a prefix
  of the requests;
- `specs_by_hash`: a cache from DAG hash to resolved DAG.

Contexts are persisted through a three-slot write (`_N` staging, `N`
committed, `.N` rollback) and a `repair` command that cleans up after a crash.

The model has six modules, one per file:

- `Resolution` (resolution.dfy): the resolver machinery the context calls but
  does not implement. This covers parsing a request to its package name,
  concretizing, `dag_hash`, `name in spec`, `spec[name]`, the link/run
  traversal, the two re-concretization helpers and `dump_provenance`. They are
  fields of a `Resolver` value that every operation takes as a parameter.
  `Sound` collects what the context silently relies on: a resolved request's
  root is the package it names, re-concretizing keeps the root's package, and
  DAG hashes do not collide (`HashInjective`).
- `ContextState` (context_state.dfy): the context as a value and each method
  as a function on it. The invariants are:
  - `Wf`: the order is no longer than the requests, and every ordered hash is a
    cache key;
  - `NamesDistinct`: package names are pairwise distinct;
  - `RootsAligned`: position i of the order resolves request i;
  - `KeyedByHash`: every cache entry is stored under its own hash.
  The lemmas state what each operation promises and which invariants it keeps.
- `Projection` (projection.dfy): `_get_environment_specs`, the first-writer-wins
  flattening to one node per package name, with its warnings.
- `ContextObject` (context_object.dfy): the `Context` class. Its fields are
  updated in place by methods with the source's loops. Each method is proved to
  compute the corresponding `ContextState`/`Projection` function on the
  object's value, and to keep the object consistent when it was consistent.
- `DurableStore` (durable_store.dfy): the contexts directory as a map from
  entry name to directory content. It has `write` step by step, `repair`,
  `read`, `context_create`, `dump_to_context_repo`, and the crash-recovery
  lemmas.
- `StoreObject` (store_object.dfy): a `Store` class whose methods change the
  directory in place, each proved against the `DurableStore` function.

Crash recovery follows the code:

- A write stopped after `N` was moved to `.N` is *committed*. Repair moves `_N`
  to `N` rather than rolling back.
- The first such repair leaves `.N` in place, so `read` keeps refusing until a
  second repair deletes `.N`. `DurableStore.Repair`, `StoreObject.Store.Repair`
  and `DurableStore.RepairMidCommit` model and state this as written.
  "## Findings" gives the corrected repair.
- `repair` at line 255 calls `write_paths(context)`. There `context` is the
  module-level command function `context(parser, args, **kwargs)` of line 457,
  not a context, so `context.name` at line 242 raises `AttributeError` and the
  command as written aborts before it touches the directory. The model uses the
  context built on line 254, which is evidently what is meant.

The test file `lib/spack/spack/test/cmd/context.py` is not part of this model.
Its `test_to_dict` expects `specs_by_hash` to survive `from_dict`, but
`from_dict` (lines 179-185) does not restore it. The model follows the code:
`ContextState.DictRoundTrip` restores everything but the cache, and the cache
comes back through `read`.

## Model

| member | source | states |
|---|---|---|
| ContextState.Empty | lib/spack/spack/cmd/context.py:18-28 | `Context(name)` has that name, no requests, an empty cache and empty pinned maps, and is well-formed |
| ContextState.OrderDistinct | lib/spack/spack/cmd/context.py:39-54 | in a consistent context no two positions of the order hold the same hash, so the cache entry `remove` deletes is used by no other position |
| ContextState.FirstIndexOf | lib/spack/spack/cmd/context.py:41-46 | the scan returns the first index whose request names the package, and -1 exactly when no request does |
| ContextState.Add | lib/spack/spack/cmd/context.py:30-37 | `add` succeeds exactly when no request names the same package; otherwise it fails with `DuplicatePackage(name)` |
| ContextState.AddKeepsConsistent | lib/spack/spack/cmd/context.py:30-37 | a successful `add` appends exactly the request, changes nothing else, and keeps names distinct and the order aligned |
| ContextState.AddTwiceFails | lib/spack/spack/cmd/context.py:30-37 | adding a second request for a package just added fails with `DuplicatePackage` |
| ContextState.Delete | lib/spack/spack/cmd/context.py:50-53 | `del xs[k]` removes position k and shifts every later element down by one |
| ContextState.Remove | lib/spack/spack/cmd/context.py:39-49 | `remove` fails with `NotFound(query)` exactly when no request names the package; otherwise one request fewer remains (which one, and what else goes, is stated by `ContextState.RemoveDeletesFirstMatch`) |
| ContextState.RemoveDeletesFirstMatch | lib/spack/spack/cmd/context.py:39-54 | a successful `remove` deletes the first request naming the package; when that position was resolved it also deletes the hash at the same position and exactly that hash's cache entry, otherwise order and cache are unchanged; every other request and hash keeps its relative place, and the name and pinned maps are untouched |
| ContextState.RemoveKeepsConsistent | lib/spack/spack/cmd/context.py:39-54 | after `remove`, the order stays no longer than the requests, stays aligned, and every ordered hash is still cached; no request for the removed package remains |
| ContextState.Insert | lib/spack/spack/cmd/context.py:60-64 | caching DAGs under their hashes adds exactly those hashes as keys |
| ContextState.InsertFacts | lib/spack/spack/cmd/context.py:60-64 | caching DAGs keeps the cache keyed by hash; without hash collisions it keeps every old entry and finds each new DAG under its hash |
| ContextState.Concretize | lib/spack/spack/cmd/context.py:56-65 | `concretize` changes only the order and the cache: it keeps the old order as a prefix and appends one hash per pending request, returning one DAG per pending request; the name, requests and pinned maps are untouched |
| ContextState.ConcretizeResolvesSuffix | lib/spack/spack/cmd/context.py:56-65 | `concretize` resolves exactly the requests past the order, in order; it leaves the existing hashes untouched, returns the new DAGs, and ends with every request resolved |
| ContextState.ConcretizeKeepsConsistent | lib/spack/spack/cmd/context.py:56-65 | `concretize` keeps the context consistent and keeps every cache entry it had |
| ContextState.ConcretizeIdempotent | lib/spack/spack/cmd/context.py:56-65 | a second `concretize` right after the first resolves nothing and changes nothing |
| ContextState.UpgradeSteps | lib/spack/spack/cmd/context.py:103-116 | after k iterations the new order has k hashes, each cached, and the cache has kept all its old keys |
| ContextState.Affected | lib/spack/spack/cmd/context.py:105-107 | the roots selected are exactly those that contain the dependency |
| ContextState.AffectedFirst | lib/spack/spack/cmd/context.py:105-107 | the first root the filter keeps is the first root, in order, that contains the dependency |
| ContextState.AffectedNone | lib/spack/spack/cmd/context.py:105-107 | when no root contains the dependency the filter keeps nothing |
| ContextState.UpgradeStepsExtendCache | lib/spack/spack/cmd/context.py:103-116 | the upgrade loop keeps the cache keyed by hash; without collisions it never changes an entry it had |
| ContextState.UpgradeStepKeepsCache | lib/spack/spack/cmd/context.py:103-116 | one iteration keeps the order built so far and every cache entry |
| ContextState.UpgradeStepsAt | lib/spack/spack/cmd/context.py:103-116 | once the loop has passed position i, that position holds the hash of the upgraded root (cached under it) when the root contains the dependency, and its old hash otherwise |
| ContextState.UpgradeStepsOrder | lib/spack/spack/cmd/context.py:103-116 | the same, for every position the loop has passed |
| ContextState.UpgradeStepsDeps | lib/spack/spack/cmd/context.py:103-116 | the dependency nodes collected are those of the upgraded affected roots, in order |
| ContextState.UpgradeStepsKeys | lib/spack/spack/cmd/context.py:103-116 | the upgrade loop adds to the cache exactly the hashes of the affected roots' upgrades |
| ContextState.PreviewsStep | lib/spack/spack/cmd/context.py:107-111 | one dry-run iteration reports the root and its dependency node exactly when the root contains the dependency |
| ContextState.UpgradeDependency | lib/spack/spack/cmd/context.py:85-121 | `upgrade_dependency` changes only the order and the cache: it keeps the order's length, never loses a cache key and leaves a well-formed context; the name, requests and pinned maps are untouched; a dry run changes nothing and returns no node, and only a dry run reports previews |
| ContextState.UpgradeReturnsFirstAffected | lib/spack/spack/cmd/context.py:118-121 | `upgrade_dependency` returns no node exactly when no root contains the dependency; otherwise it returns the dependency node of the upgrade of the first root, in order, that contains the dependency |
| ContextState.UpgradeKeepsUnaffected | lib/spack/spack/cmd/context.py:85-121 | a dry run changes nothing and returns nothing; otherwise the order keeps its length, unaffected roots keep their hash, each affected root is replaced by its upgrade cached under the upgrade's hash, old entries are kept, and the cache gains exactly the hashes of the affected roots' upgrades |
| ContextState.UpgradeKeepsConsistent | lib/spack/spack/cmd/context.py:85-121 | `upgrade_dependency` keeps the context consistent, with or without dry run |
| ContextState.ResetOsAndCompiler | lib/spack/spack/cmd/context.py:123-132 | `reset_os_and_compiler` keeps the requests, the name, the pinned maps and the order's length |
| ContextState.ResetKeys | lib/spack/spack/cmd/context.py:124-132 | the cache `reset_os_and_compiler` installs has exactly the hashes of the new order as keys |
| ContextState.ResetEntries | lib/spack/spack/cmd/context.py:126-130 | without hash collisions, the new cache maps position i's hash to root i re-concretized with the compiler |
| ContextState.ResetReplacesCache | lib/spack/spack/cmd/context.py:123-132 | after `reset_os_and_compiler` position i holds the hash of root i re-concretized with the compiler; the cache's keys are exactly the new ordered hashes (old entries dropped), and without hash collisions each new hash maps to that re-concretized root; the context stays consistent |
| ContextState.ToDict | lib/spack/spack/cmd/context.py:166-176 | `to_dict` keeps everything but the cache: loading the dict under the context's name gives back the context with an empty cache |
| ContextState.FromDict | lib/spack/spack/cmd/context.py:178-185 | `from_dict` names the context, copies the four dict fields in unchanged and leaves the cache empty |
| ContextState.DictRoundTrip | lib/spack/spack/cmd/context.py:166-185 | `from_dict(name, to_dict(c))` restores name, requests, order and pinned maps with an empty cache, and `to_dict` of a loaded context is the dict it was loaded from |
| Projection.Walk | lib/spack/spack/cmd/context.py:138-140 | the nodes of the roots' link/run traversals, root after root; a single root walks as its own traversal |
| Projection.WalkMembers | lib/spack/spack/cmd/context.py:138-140 | a node is walked exactly when it is in the link/run traversal of some root |
| Projection.Visit | lib/spack/spack/cmd/context.py:141-146 | one iteration adds the node's name to the chosen names and never replaces a node already chosen; a new name keeps the node with no warning, a name already chosen appends one warning pairing the kept node with this one |
| Projection.Flatten | lib/spack/spack/cmd/context.py:136-146 | the loop over all walked nodes; every chosen node is stored under its own package name |
| Projection.EnvironmentSpecs | lib/spack/spack/cmd/context.py:134-148 | `_get_environment_specs` chooses exactly one node for each package name met in the walk of the ordered roots, stored under that name |
| Projection.FlattenKeys | lib/spack/spack/cmd/context.py:134-148 | exactly one node is kept per package name walked, stored under its own name |
| Projection.FlattenChoosesFirst | lib/spack/spack/cmd/context.py:134-148 | the node kept for a name is the first node of that name in the walk |
| Projection.FlattenWarnings | lib/spack/spack/cmd/context.py:141-146 | there are as many warnings as walked nodes minus kept names, and every warning pairs a walked node with the node kept for its name |
| Projection.FlattenWarnsLater | lib/spack/spack/cmd/context.py:141-144 | each walked node preceded by a node of the same name gets its own warning, numbered by the repeats before it, naming the kept node and then this node |
| Projection.FlattenWarnsLast | lib/spack/spack/cmd/context.py:141-144 | the same for the last node walked: the warning appended last names the kept node and that node |
| Projection.SharedNodeWarns | lib/spack/spack/cmd/context.py:141-144 | the same node met twice (shared by two roots) is still warned about, once |
| Projection.EarlierBuildWins | lib/spack/spack/cmd/context.py:134-148 | of two builds of one library, the one walked first is kept and one warning names both |
| Projection.EarliestRootWins | lib/spack/spack/cmd/context.py:134-148 | a node whose name appears in no earlier root and not earlier in its own root is the one kept for that name |
| ContextObject.Context.constructor | lib/spack/spack/cmd/context.py:18-28 | a new context has its name and empty requests, order, cache and pinned maps |
| ContextObject.Context.FromDict | lib/spack/spack/cmd/context.py:178-185 | `from_dict` copies the four dict fields into a new context with an empty cache |
| ContextObject.Context.FindName | lib/spack/spack/cmd/context.py:41-46 | the loop finds the first request naming the package, or -1 |
| ContextObject.Context.Add | lib/spack/spack/cmd/context.py:30-37 | the method does what `ContextState.Add` computes; a failed add changes nothing, and consistency is kept |
| ContextObject.Context.Remove | lib/spack/spack/cmd/context.py:39-54 | the method does what `ContextState.Remove` computes; a failed remove changes nothing, and consistency is kept |
| ContextObject.Context.Concretize | lib/spack/spack/cmd/context.py:56-65 | the loop appends the hashes and caches the DAGs that `ContextState.Concretize` computes, and returns the new DAGs |
| ContextObject.Context.List | lib/spack/spack/cmd/context.py:72-82 | one line per request, in order, carrying its resolved DAG exactly when its aligned hash is present and non-empty |
| ContextObject.Context.UpgradeDependency | lib/spack/spack/cmd/context.py:85-121 | the loop produces the state, the returned node and the dry-run previews that `ContextState.UpgradeDependency` computes, and keeps consistency |
| ContextObject.Context.ResetOsAndCompiler | lib/spack/spack/cmd/context.py:123-132 | the loop builds the order and the cache that `ContextState.ResetOsAndCompiler` computes, and keeps consistency |
| ContextObject.Context.EnvironmentSpecs | lib/spack/spack/cmd/context.py:134-148 | the nested loops produce the kept nodes and the warnings of `Projection.EnvironmentSpecs` |
| DurableStore.DumpToContextRepo | lib/spack/spack/cmd/context.py:329-332 | the package's definition is added when the repository has none for that package; existing definitions are never overwritten |
| DurableStore.DumpIdempotent | lib/spack/spack/cmd/context.py:329-332 | dumping the same node twice equals dumping it once |
| DurableStore.DumpAll | lib/spack/spack/cmd/context.py:319-321 | dumping a sequence of nodes in turn only adds definitions, each for the package of one of the nodes |
| DurableStore.DumpAllKeys | lib/spack/spack/cmd/context.py:319-321 | dumping all nodes adds one definition per package name and keeps every existing definition |
| DurableStore.DumpAllFirst | lib/spack/spack/cmd/context.py:319-321 | a package new to the repository gets the definition of its first node |
| DurableStore.WritePaths | lib/spack/spack/cmd/context.py:241-245 | `_N`, `N` and `.N` are three different entries, `N` being the context's own directory |
| DurableStore.Move | lib/spack/spack/cmd/context.py:235-237 | a move onto an absent destination renames the source entry to the destination and leaves every other entry alone |
| DurableStore.Discard | lib/spack/spack/cmd/context.py:238-239 | the guarded `rmtree` removes the entry if present and leaves every other entry alone |
| DurableStore.Staged | lib/spack/spack/cmd/context.py:221-233 | the staged directory holds the context's metadata and cache, which load back as the context; its repository is the new one when given, else the committed directory's, else none |
| DurableStore.WriteUpTo | lib/spack/spack/cmd/context.py:215-239 | the directory after each step of `write`: entries other than `N` are kept; after steps 1-2 `_N` holds the staged directory; after step 2 an existing `N` is parked in `.N`; from step 3 `_N` is gone and `N` holds the staged directory; after step 4 `.N` is gone |
| DurableStore.Write | lib/spack/spack/cmd/context.py:215-219 | `write` fails with `PartialWriteState` exactly when `_N` or `.N` exists |
| DurableStore.WriteCommits | lib/spack/spack/cmd/context.py:215-239 | a complete write leaves `N` holding the new metadata, cache and repository, with `_N` and `.N` absent and every other entry unchanged |
| DurableStore.Repair | lib/spack/spack/cmd/context.py:247-268 | `repair` never leaves `_N`; it fails exactly when `.N` exists with neither `N` nor `_N`; it changes nothing when neither `_N` nor `.N` exists |
| DurableStore.Read | lib/spack/spack/cmd/context.py:280-294 | `read` fails while `_N` or `.N` exists, or when `N` is missing; otherwise it returns the stored metadata with the stored cache |
| DurableStore.Create | lib/spack/spack/cmd/context.py:296-300 | `context_create` fails with `ContextAlreadyExists` when `N` exists and is otherwise a write of the empty context |
| DurableStore.WriteThenRead | lib/spack/spack/cmd/context.py:280-294 | reading back a written context gives the same context, cache included |
| DurableStore.CreateThenRead | lib/spack/spack/cmd/context.py:296-300 | a created context reads back as the empty context of that name, with no repository |
| DurableStore.RepairBeforeCommit | lib/spack/spack/cmd/context.py:247-268 | a write stopped before `N` was parked or replaced is rolled back by one repair to exactly the earlier directory |
| DurableStore.RepairAfterCommit | lib/spack/spack/cmd/context.py:247-268 | a write stopped after the move of `_N` to `N` is completed by one repair |
| DurableStore.RepairMidCommit | lib/spack/spack/cmd/context.py:255-262 | a write stopped right after `N` became `.N` is completed by one repair, but `.N` survives it and `read` refuses; a second repair leaves the complete write |
| DurableStore.CrashRecovery | lib/spack/spack/cmd/context.py:215-268 | after a crash at any step, repairing until `.N` is gone leaves the new content if the write had committed and the old content otherwise, and `read` returns the new or the old context accordingly |
| DurableStore.RepairCompleting | lib/spack/spack/cmd/context.py:247-268 | the corrected repair leaves neither `_N` nor `.N` |
| DurableStore.CompletingRepairRecovers | lib/spack/spack/cmd/context.py:247-268 | with the corrected repair, one repair after a crash at any step leaves the new content if the write had committed and the old content otherwise |
| StoreObject.Store.Write | lib/spack/spack/cmd/context.py:215-239 | the stepwise write leaves what `DurableStore.Write` computes; the directory after each step is the crash state `WriteUpTo` describes; a refused write changes nothing |
| StoreObject.Store.Repair | lib/spack/spack/cmd/context.py:247-268 | the stepwise repair leaves what `DurableStore.Repair` computes, and changes nothing when it fails |
| StoreObject.Store.Read | lib/spack/spack/cmd/context.py:280-294 | `read` returns a new context object holding what `DurableStore.Read` computes, or the error |
| StoreObject.Store.Create | lib/spack/spack/cmd/context.py:296-300 | `context_create` leaves what `DurableStore.Create` computes, and changes nothing when refused |

## Left out

- Request parsing, concretization, `dag_hash`, traversal, `copy` and the bodies of the helpers at lines 193-213 are library internals. They are uninterpreted fields of `Resolver`. Properties that need resolver behaviour assume `Sound` or `HashInjective` explicitly.
- ContextState.Remove: the source raises `KeyError` on an ordered hash missing from the cache; the model requires `Wf` instead. `List`, `UpgradeDependency`, `ResetOsAndCompiler` and `EnvironmentSpecs` are treated the same way.
- ContextObject.Context.List: the printed text and the `include_deps` tree are not modelled. Each line is a request with its optional DAG. Under `Wf` the order is never longer than the requests, so `izip_longest`'s padding of missing requests never occurs.
- Projection.EnvironmentSpecs: returns the map of kept nodes rather than `list(package_to_spec.values())`, so the order of that list is not modelled. The warning text is a pair of nodes.
- JSON/YAML serialization (`store_specs_by_hash`, `syaml`, `sjson`) is not modelled. A directory holds the metadata, the cache and the repository as values, and a DAG is assumed to come back from `Spec.from_dict` unchanged.
- `path` and `repo_path` are not modelled as functions. A context's directory is the entry `N` of the contexts directory, and its `repo/` is the `repo` part of that entry.
- Step 1 of `write` (mkdir and populate `_N`) is one step. A crash inside it leaves a partial `_N`, which repair deletes just as it deletes a complete one.
- `if new_repo:` is modelled as "a repository is given"; Python truthiness of a repository object is not.
- `if compiler:` in the helper at line 201 treats an empty compiler string like `None`. The compiler is an `Option<string>` handed to the uninterpreted `reset`, so that `reset(g, Some(""))` equals `reset(g, None)` is not stated.
- Resolver failures are not modelled: every `Resolver` field is total. In the source, `Spec.concretize` can raise in the middle of the loop of `concretize`, leaving the earlier pending requests resolved and cached, and `spec[dep_name]` at lines 110 and 115 can raise `KeyError`. The model has no error path for either.
- Failures of the filesystem itself are not modelled: permissions, a full disk, a crash during `repair`. The one failure modelled is `repair` finding `.N` with neither `N` nor `_N`, where `shutil.move` raises; it becomes `MissingStagedCopy`.
- A missing `context.yaml` in `read` raises an I/O error in the source; the model returns `ContextNotFound`.
- `install`, `context_install` and `context_stage` are installer I/O. `context_install` binds `contexts` at line 325 and then passes `context`, the command function of line 457, to `prepare_repository` at line 326, where `context.repo_path()` fails.
- `get_modules` is not modelled: module-file generation and existence checks are external.
- `prepare_repository` is not modelled: it makes temporary directories, copies trees and changes the global repository path. Its result is the `newRepo` value given to `write`.
- Of `context_concretize`, only the loop that dumps the new DAGs' nodes into the repository (lines 319-321) is modelled, by `DurableStore.DumpAll`. `DumpAll` takes any sequence of nodes; that it is given the full traversals of the DAGs `concretize` returned is not stated.
- The other command wrappers, `setup_parser` and the dispatch table are not modelled. What each wrapper composes:
  - `context_add` (302-306) and `context_remove` (308-312) run one `add`/`remove` per parsed spec and then `write`. A failing spec aborts the command before `write`, so nothing is stored even when earlier specs succeeded. The model has the single operation and `write`, not the loop over specs.
  - `context_relocate` (353-357) is `read`, `prepare_repository`, `reset_os_and_compiler` and `write`.
  - `context_list` (359-363) is `read` and `list`, with no write.
  - `context_list_modules` (372-375) is `read` and `get_modules`, with no write; `get_modules` is not modelled (above).
  - `context_upgrade_dependency` (377-383) is `read`, `prepare_repository` and `upgrade_dependency`; it dumps the returned node and writes only when `not args.dry_run and new_dep` holds. The model records which node is returned (`UpgradeReturnsFirstAffected`), but not the dump or the conditional write.
- Only the text of `tty` messages is left out, not what they report: the `tty.warn` of lines 142-144 is the `warnings` of `Projection.Flat`, and the dry-run `tty.msg` of lines 109-110 is the `previews` of `ContextState.UpgradeOutcome`. The `tty.info` lines of `repair` are left out. `tty.die` becomes an error result with the state unchanged.
- `common_libs` and `common_bins` are carried through `to_dict`/`from_dict` and never changed by any operation, as in the source.

## Findings

| source | as written | input that shows it | evidently intended | confidence | as-written member | corrected member |
|---|---|---|---|---|---|---|
| lib/spack/spack/cmd/context.py:256-258 | when `.N` exists and `N` does not, `repair` moves `_N` to `N` but leaves `.N`, so the next `read` still fails with `PartialWriteState` and a second `repair` is needed | a context `N` that exists is written again, and the process stops right after `N` was moved to `.N`; then `repair N`, then `read N` | one repair finishes the interrupted write and deletes `.N`, so a single repair always leaves a readable context; the branch already reports "Previous update completed" | medium, not executed | DurableStore.RepairMidCommit | DurableStore.RepairCompleting |

`DurableStore.CompletingRepairRecovers` proves the intended property of the
corrected repair: one repair after a crash at any step gives the new or the
old content. `DurableStore.Repair` and `StoreObject.Store.Repair` keep the
behaviour as written, so the model still matches what the command does.
