/**
  The persistence protocol of lib/spack/spack/cmd/context.py: a context named
  N lives in the directory N of the contexts directory, and every write goes
  through the three sibling slots `_N` (staging), `N` (committed) and `.N`
  (rollback).  A crash can stop a write after any of its four steps; `repair`
  inspects which slots exist and completes or discards the write.

  The contexts directory is a map from entry name to directory content; a
  directory's content is the value of its three parts (metadata, full specs,
  package repository), not their bytes.
*/
module DurableStore {
  import opened Resolution
  import opened ContextState
  import opened Projection

  // ---------------------------------------------------------------------
  // The context's package repository
  // ---------------------------------------------------------------------

  /** A package repository: one package-definition directory per package name. */
  type Repo = map<Name, Source>

  /** `dump_to_context_repo(spec, repo)`: copy the node's package definition
      into the repository unless a directory for that package is already
      there.  An existing definition is never overwritten. */
  function DumpToContextRepo(rs: Resolver, n: Node, repo: Repo): (r: Repo)
    ensures r.Keys == repo.Keys + {rs.nodeName(n)}
    ensures forall p :: p in repo ==> r[p] == repo[p]
    ensures rs.nodeName(n) !in repo ==> r[rs.nodeName(n)] == rs.provenance(n)
  {
    if rs.nodeName(n) in repo then repo else repo[rs.nodeName(n) := rs.provenance(n)]
  }

  /** The loop of `context_concretize` that dumps every node of the new roots. */
  function DumpAll(rs: Resolver, ns: seq<Node>, repo: Repo): (r: Repo)
    ensures repo.Keys <= r.Keys <= repo.Keys + (set n | n in ns :: rs.nodeName(n))
    decreases |ns|
  {
    if ns == [] then repo
    else DumpToContextRepo(rs, ns[|ns| - 1], DumpAll(rs, ns[..|ns| - 1], repo))
  }

  /** Dumping a sequence of nodes adds a definition for each of their package
      names and keeps every definition already there. */
  lemma {:induction false} DumpAllKeys(rs: Resolver, ns: seq<Node>, repo: Repo)
    ensures var r := DumpAll(rs, ns, repo);
      && r.Keys == repo.Keys + (set n | n in ns :: rs.nodeName(n))
      && (forall p :: p in repo ==> r[p] == repo[p])
    decreases |ns|
  {
    if ns != [] {
      var init := ns[..|ns| - 1];
      var last := ns[|ns| - 1];
      DumpAllKeys(rs, init, repo);
      assert ns == init + [last];
      assert (set n | n in ns :: rs.nodeName(n)) == (set n | n in init :: rs.nodeName(n)) + {rs.nodeName(last)};
    }
  }

  /** A package new to the repository gets the definition of its first node;
      later nodes of the same package change nothing. */
  lemma {:induction false} DumpAllFirst(rs: Resolver, ns: seq<Node>, repo: Repo, i: nat)
    requires i < |ns| && rs.nodeName(ns[i]) !in repo && FirstOfName(rs, ns, i)
    ensures var r := DumpAll(rs, ns, repo);
      rs.nodeName(ns[i]) in r && r[rs.nodeName(ns[i])] == rs.provenance(ns[i])
    decreases |ns|
  {
    var init := ns[..|ns| - 1];
    var last := ns[|ns| - 1];
    var name := rs.nodeName(ns[i]);
    DumpAllKeys(rs, init, repo);
    var r0 := DumpAll(rs, init, repo);
    if i < |ns| - 1 {
      assert init[i] == ns[i];
      assert forall j :: 0 <= j < i ==> init[j] == ns[j];
      assert FirstOfName(rs, init, i);
      DumpAllFirst(rs, init, repo, i);
      assert name in r0;
    } else {
      assert name !in r0;
    }
  }

  /** Dumping the same node twice is the same as dumping it once. */
  lemma DumpIdempotent(rs: Resolver, n: Node, repo: Repo)
    ensures DumpToContextRepo(rs, n, DumpToContextRepo(rs, n, repo)) == DumpToContextRepo(rs, n, repo)
  {
  }

  // ---------------------------------------------------------------------
  // The contexts directory
  // ---------------------------------------------------------------------

  /** One context directory: `context.yaml` (the metadata), `full_specs.json`
      (the cache of resolved DAGs) and, when present, `repo/`. */
  datatype Dir = Dir(meta: Meta, fullSpecs: map<Hash, Graph>, repo: Option<Repo>)

  /** The contexts directory: entry name to directory. */
  type Fs = map<string, Dir>

  /** The three slots of a context. */
  datatype Slots = Slots(tmpNew: string, dest: string, tmpOld: string)

  /** `write_paths`: the staging slot `_N`, the committed slot `N` and the
      rollback slot `.N`, three different entries. */
  function WritePaths(name: string): (p: Slots)
    ensures p.dest == name
    ensures p.tmpNew != p.dest && p.dest != p.tmpOld && p.tmpNew != p.tmpOld
  {
    assert ("_" + name)[0] != ("." + name)[0];
    Slots("_" + name, name, "." + name)
  }

  /** Two directories with the same entries holding the same content are
      the same directory. */
  lemma SameEntries(a: Fs, b: Fs)
    requires a.Keys == b.Keys && forall x :: x in a ==> a[x] == b[x]
    ensures a == b
  {
  }

  /** `shutil.move(src, dst)` onto an absent destination: a rename. */
  function Move(fs: Fs, src: string, dst: string): (r: Fs)
    requires src in fs && dst !in fs
    ensures r.Keys == fs.Keys - {src} + {dst}
    ensures r[dst] == fs[src]
    ensures forall x :: x in fs && x != src && x != dst ==> r[x] == fs[x]
  {
    fs[dst := fs[src]] - {src}
  }

  /** Remove an entry if it exists (`rmtree` guarded by `os.path.exists`). */
  function Discard(fs: Fs, x: string): (r: Fs)
    ensures r.Keys == fs.Keys - {x}
    ensures forall y :: y in r ==> r[y] == fs[y]
  {
    if x in fs then fs - {x} else fs
  }

  /** What `write` stages: the metadata and the cache of the context and,
      for `repo/`, the new repository when one is given, otherwise a copy of
      the repository the committed directory has. */
  function Staged(fs: Fs, s: State, newRepo: Option<Repo>): (d: Dir)
    ensures FromDict(s.name, d.meta).(specsByHash := d.fullSpecs) == s
    ensures newRepo.None? && s.name in fs ==> d.repo == fs[s.name].repo
    ensures newRepo.None? && s.name !in fs ==> d.repo == None
    ensures newRepo.Some? ==> d.repo == newRepo
  {
    Dir(ToDict(s), s.specsByHash,
      if newRepo.Some? then newRepo else if s.name in fs then fs[s.name].repo else None)
  }

  /** The directory after the first k steps of `write` (k = 4 is a complete
      write): 1. populate `_N`; 2. if `N` exists, move it to `.N`; 3. move `_N`
      to `N`; 4. if `.N` exists, delete it. */
  function WriteUpTo(fs: Fs, s: State, newRepo: Option<Repo>, k: nat): (r: Fs)
    requires k <= 4
    requires WritePaths(s.name).tmpNew !in fs && WritePaths(s.name).tmpOld !in fs
    ensures var p := WritePaths(s.name);
      forall x :: x in fs && x != p.dest ==> x in r && r[x] == fs[x]
    ensures var p := WritePaths(s.name);
      && (1 <= k <= 2 ==> p.tmpNew in r && r[p.tmpNew] == Staged(fs, s, newRepo))
      && (k == 2 && p.dest in fs ==> p.dest !in r && p.tmpOld in r && r[p.tmpOld] == fs[p.dest])
      && (3 <= k ==> p.tmpNew !in r && p.dest in r && r[p.dest] == Staged(fs, s, newRepo))
      && (k == 4 ==> p.tmpOld !in r)
  {
    var p := WritePaths(s.name);
    var fs1 := fs[p.tmpNew := Staged(fs, s, newRepo)];
    var fs2 := if p.dest in fs1 then Move(fs1, p.dest, p.tmpOld) else fs1;
    var fs3 := Move(fs2, p.tmpNew, p.dest);
    var fs4 := Discard(fs3, p.tmpOld);
    if k == 0 then fs else if k == 1 then fs1 else if k == 2 then fs2 else if k == 3 then fs3 else fs4
  }

  /** `write(context, new_repo)`: refused while a staging or rollback slot
      is left over from an earlier crash, otherwise all four steps. */
  function Write(fs: Fs, s: State, newRepo: Option<Repo>): (r: Result<Fs>)
    ensures r.Err? <==> WritePaths(s.name).tmpNew in fs || WritePaths(s.name).tmpOld in fs
    ensures r.Err? ==> r.error == PartialWriteState
  {
    var p := WritePaths(s.name);
    if p.tmpNew in fs || p.tmpOld in fs then Err(PartialWriteState)
    else Ok(WriteUpTo(fs, s, newRepo, 4))
  }

  /** A complete write leaves `N` holding the staged directory, neither
      `_N` nor `.N`, and every other entry as it was. */
  lemma WriteCommits(fs: Fs, s: State, newRepo: Option<Repo>)
    requires Write(fs, s, newRepo).Ok?
    ensures Write(fs, s, newRepo).value == fs[s.name := Staged(fs, s, newRepo)]
    ensures var p := WritePaths(s.name);
      p.tmpNew !in Write(fs, s, newRepo).value && p.tmpOld !in Write(fs, s, newRepo).value
  {
    var p := WritePaths(s.name);
    var r := Write(fs, s, newRepo).value;
    var want := fs[s.name := Staged(fs, s, newRepo)];
    assert r.Keys == want.Keys;
    forall x | x in r ensures r[x] == want[x] {
    }
  }

  /** `repair(context_name)`:
      - `.N` and no `N`: move `_N` to `N` (the move fails when `_N` is
        missing too); `.N` stays;
      - `.N` and `N`: delete `.N`;
      - afterwards, delete `_N` if it exists.
      The slots are those of the context built at line 254.  Line 255 passes
      `context`, which there is the module-level command function of line
      457, to `write_paths`; its `.name` lookup fails, so as written `repair`
      aborts before touching the directory. */
  function Repair(fs: Fs, name: string): (r: Result<Fs>)
    ensures var p := WritePaths(name);
      r.Err? <==> p.tmpOld in fs && p.dest !in fs && p.tmpNew !in fs
    ensures r.Err? ==> r.error == MissingStagedCopy
    ensures r.Ok? ==> WritePaths(name).tmpNew !in r.value
    ensures var p := WritePaths(name);
      p.tmpNew !in fs && p.tmpOld !in fs ==> r == Ok(fs)
  {
    var p := WritePaths(name);
    if p.tmpOld in fs then
      if p.dest !in fs then
        if p.tmpNew in fs then Ok(Discard(Move(fs, p.tmpNew, p.dest), p.tmpNew))
        else Err(MissingStagedCopy)
      else Ok(Discard(fs - {p.tmpOld}, p.tmpNew))
    else Ok(Discard(fs, p.tmpNew))
  }

  /** `read(context_name)`: refused while a staging or rollback slot exists;
      otherwise the context built from the metadata with the cache restored
      from the full specs. */
  function Read(fs: Fs, name: string): (r: Result<State>)
    ensures var p := WritePaths(name);
      && (r.Err? <==> p.tmpNew in fs || p.tmpOld in fs || p.dest !in fs)
      && (r.Err? && (p.tmpNew in fs || p.tmpOld in fs) ==> r.error == PartialWriteState)
      && (r.Ok? ==> r.value.name == name && ToDict(r.value) == fs[p.dest].meta
                    && r.value.specsByHash == fs[p.dest].fullSpecs)
  {
    var p := WritePaths(name);
    if p.tmpNew in fs || p.tmpOld in fs then Err(PartialWriteState)
    else if p.dest !in fs then Err(ContextNotFound(name))
    else Ok(ContextState.FromDict(name, fs[p.dest].meta).(specsByHash := fs[p.dest].fullSpecs))
  }

  /** `context_create`: refused when the context directory exists, otherwise
      the write of an empty context. */
  function Create(fs: Fs, name: string): (r: Result<Fs>)
    ensures name in fs ==> r == Err(ContextAlreadyExists(name))
    ensures name !in fs ==> r == Write(fs, Empty(name), None)
  {
    if WritePaths(name).dest in fs then Err(ContextAlreadyExists(name))
    else Write(fs, Empty(name), None)
  }

  /** Writing a context and reading it back gives the same context, cache
      included. */
  lemma WriteThenRead(fs: Fs, s: State, newRepo: Option<Repo>)
    requires Write(fs, s, newRepo).Ok?
    ensures Read(Write(fs, s, newRepo).value, s.name) == Ok(s)
  {
    WriteCommits(fs, s, newRepo);
    DictRoundTrip(s, s.name, ToDict(s));
  }

  /** A created context reads back as the empty context of that name, with
      no repository. */
  lemma CreateThenRead(fs: Fs, name: string)
    requires Create(fs, name).Ok?
    ensures Read(Create(fs, name).value, name) == Ok(Empty(name))
    ensures Create(fs, name).value[name].repo == None
  {
    WriteThenRead(fs, Empty(name), None);
    WriteCommits(fs, Empty(name), None);
  }

  // ---------------------------------------------------------------------
  // Crash recovery
  // ---------------------------------------------------------------------

  /** Whether a write stopped after k steps had committed: the move of `_N`
      to `N` ran, or `N` was already parked in `.N` so that repair finishes
      the move. */
  predicate Committed(fs: Fs, name: string, k: nat) {
    k >= 3 || (k == 2 && name in fs)
  }

  /** A write that stopped before committing is rolled back by one repair:
      the directory is exactly as before the write. */
  lemma RepairBeforeCommit(fs: Fs, s: State, newRepo: Option<Repo>, k: nat)
    requires Write(fs, s, newRepo).Ok? && k <= 4 && !Committed(fs, s.name, k)
    ensures Repair(WriteUpTo(fs, s, newRepo, k), s.name) == Ok(fs)
  {
    var p := WritePaths(s.name);
    if k > 0 {
      var c := WriteUpTo(fs, s, newRepo, k);
      assert c == fs[p.tmpNew := Staged(fs, s, newRepo)];
      var r := Repair(c, s.name).value;
      assert r == c - {p.tmpNew};
      SameEntries(r, fs);
    }
  }

  /** A write that stopped after `_N` became `N` is completed by one repair:
      the directory is as after a complete write. */
  lemma RepairAfterCommit(fs: Fs, s: State, newRepo: Option<Repo>, k: nat)
    requires Write(fs, s, newRepo).Ok? && 3 <= k <= 4
    ensures Repair(WriteUpTo(fs, s, newRepo, k), s.name) == Write(fs, s, newRepo)
  {
    WriteCommits(fs, s, newRepo);
    var p := WritePaths(s.name);
    var c := WriteUpTo(fs, s, newRepo, k);
    var want := Write(fs, s, newRepo).value;
    var r := Repair(c, s.name).value;
    assert r.Keys == want.Keys;
  }

  /** A write that stopped right after `N` was parked in `.N` is completed by
      the first repair, but `.N` survives it, so the context still cannot be
      read; a second repair deletes `.N` and leaves the complete write. */
  lemma RepairMidCommit(fs: Fs, s: State, newRepo: Option<Repo>)
    requires Write(fs, s, newRepo).Ok? && s.name in fs
    ensures var once := Repair(WriteUpTo(fs, s, newRepo, 2), s.name);
      && once == Ok(Write(fs, s, newRepo).value[WritePaths(s.name).tmpOld := fs[s.name]])
      && Read(once.value, s.name) == Err(PartialWriteState)
      && Repair(once.value, s.name) == Write(fs, s, newRepo)
  {
    WriteCommits(fs, s, newRepo);
    var p := WritePaths(s.name);
    var c := WriteUpTo(fs, s, newRepo, 2);
    var once := Repair(c, s.name).value;
    var want := Write(fs, s, newRepo).value[p.tmpOld := fs[s.name]];
    assert once == Move(c, p.tmpNew, p.dest);
    SameEntries(once, want);
    var twice := Repair(once, s.name).value;
    assert twice == once - {p.tmpOld};
    SameEntries(twice, Write(fs, s, newRepo).value);
  }

  /** Crash at any step, repair until no rollback slot is left (at most
      twice), and the context reads as the new one if the write had
      committed and as before the write otherwise. */
  lemma CrashRecovery(fs: Fs, s: State, newRepo: Option<Repo>, k: nat)
    requires Write(fs, s, newRepo).Ok? && k <= 4
    ensures var once := Repair(WriteUpTo(fs, s, newRepo, k), s.name);
      && once.Ok?
      && var settled := if WritePaths(s.name).tmpOld in once.value then Repair(once.value, s.name) else once;
      && settled == (if Committed(fs, s.name, k) then Write(fs, s, newRepo) else Ok(fs))
      && Read(settled.value, s.name) == (if Committed(fs, s.name, k) then Ok(s) else Read(fs, s.name))
  {
    var p := WritePaths(s.name);
    WriteThenRead(fs, s, newRepo);
    WriteCommits(fs, s, newRepo);
    if !Committed(fs, s.name, k) {
      RepairBeforeCommit(fs, s, newRepo, k);
    } else if k >= 3 {
      RepairAfterCommit(fs, s, newRepo, k);
    } else {
      RepairMidCommit(fs, s, newRepo);
    }
  }

  // ---------------------------------------------------------------------
  // The repair the protocol calls for
  // ---------------------------------------------------------------------

  /** Repair as it is evidently meant to work: when `.N` exists and `N` does
      not, the move of `_N` to `N` finishes the write and `.N` is deleted as
      well, so a single repair always leaves a readable directory. */
  function RepairCompleting(fs: Fs, name: string): (r: Result<Fs>)
    ensures var p := WritePaths(name);
      r.Err? <==> p.tmpOld in fs && p.dest !in fs && p.tmpNew !in fs
    ensures r.Ok? ==> WritePaths(name).tmpNew !in r.value && WritePaths(name).tmpOld !in r.value
  {
    var p := WritePaths(name);
    if p.tmpOld in fs then
      if p.dest !in fs then
        if p.tmpNew in fs then Ok(Discard(Move(fs, p.tmpNew, p.dest) - {p.tmpOld}, p.tmpNew))
        else Err(MissingStagedCopy)
      else Ok(Discard(fs - {p.tmpOld}, p.tmpNew))
    else Ok(Discard(fs, p.tmpNew))
  }

  /** Crash at any step and repair once: the context reads as the new one if
      the write had committed and as before the write otherwise. */
  lemma CompletingRepairRecovers(fs: Fs, s: State, newRepo: Option<Repo>, k: nat)
    requires Write(fs, s, newRepo).Ok? && k <= 4
    ensures var r := RepairCompleting(WriteUpTo(fs, s, newRepo, k), s.name);
      r == (if Committed(fs, s.name, k) then Write(fs, s, newRepo) else Ok(fs))
  {
    var p := WritePaths(s.name);
    var c := WriteUpTo(fs, s, newRepo, k);
    WriteCommits(fs, s, newRepo);
    if !Committed(fs, s.name, k) {
      RepairBeforeCommit(fs, s, newRepo, k);
      var r := RepairCompleting(c, s.name).value;
      assert r.Keys == fs.Keys;
    } else {
      var want := Write(fs, s, newRepo).value;
      var r := RepairCompleting(c, s.name).value;
      assert r.Keys == want.Keys;
    }
  }
}
