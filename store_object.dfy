/**
  The contexts directory as the commands drive it: `write`, `repair`,
  `read` and `context_create` changing the directory in place, each proved
  to do what the function of the same name in module DurableStore computes.
*/
module StoreObject {
  import opened Resolution
  import opened ContextState
  import opened ContextObject
  import opened DurableStore

  /** The contexts directory, changed in place by `write`, `repair` and
      `context_create`. */
  class Store {
    var fs: Fs

    constructor (fs: Fs)
      ensures this.fs == fs
    {
      this.fs := fs;
    }

    /** `write(context, new_repo)`, step by step; `trace` holds the directory
        before the write and after each of its four steps, which are the
        states a crash can leave behind. */
    method Write(c: Context, newRepo: Option<Repo>) returns (err: Option<Error>, ghost trace: seq<Fs>)
      modifies this
      ensures var r := DurableStore.Write(old(fs), c.Value(), newRepo);
        && (r.Ok? ==> err.None? && fs == r.value)
        && (r.Err? ==> err == Some(r.error) && fs == old(fs))
      ensures err.None? ==>
        && |trace| == 5
        && forall k :: 0 <= k <= 4 ==> trace[k] == WriteUpTo(old(fs), c.Value(), newRepo, k)
    {
      var p := WritePaths(c.name);
      var fs0 := fs;
      if p.tmpNew in fs0 || p.tmpOld in fs0 {
        err := Some(PartialWriteState);
        trace := [];
        return;
      }
      ghost var s := c.Value();
      var repo := if newRepo.Some? then newRepo else if p.dest in fs0 then fs0[p.dest].repo else None;
      var fs1 := fs0[p.tmpNew := Dir(ToDict(c.Value()), c.specsByHash, repo)];
      var fs2 := fs1;
      if p.dest in fs2 {
        fs2 := Move(fs2, p.dest, p.tmpOld);
      }
      var fs3 := Move(fs2, p.tmpNew, p.dest);
      var fs4 := fs3;
      if p.tmpOld in fs4 {
        fs4 := fs4 - {p.tmpOld};
      }
      trace := [fs0, fs1, fs2, fs3, fs4];
      assert fs1 == WriteUpTo(fs0, s, newRepo, 1);
      assert fs2 == WriteUpTo(fs0, s, newRepo, 2);
      assert fs3 == WriteUpTo(fs0, s, newRepo, 3);
      assert fs4 == WriteUpTo(fs0, s, newRepo, 4);
      fs := fs4;
      err := None;
    }

    /** `repair(context_name)` */
    method Repair(name: string) returns (err: Option<Error>)
      modifies this
      ensures var r := DurableStore.Repair(old(fs), name);
        && (r.Ok? ==> err.None? && fs == r.value)
        && (r.Err? ==> err == Some(r.error) && fs == old(fs))
    {
      var p := WritePaths(name);
      if p.tmpOld in fs {
        if p.dest !in fs {
          if p.tmpNew !in fs {
            err := Some(MissingStagedCopy);
            return;
          }
          fs := Move(fs, p.tmpNew, p.dest);
        } else {
          fs := fs - {p.tmpOld};
        }
      }
      if p.tmpNew in fs {
        fs := fs - {p.tmpNew};
      }
      err := None;
    }

    /** `read(context_name)`: a new context object, or the reason there is
        none. */
    method Read(name: string) returns (c: Context?, err: Option<Error>)
      ensures var r := DurableStore.Read(fs, name);
        && (r.Ok? ==> c != null && fresh(c) && err.None? && c.Value() == r.value)
        && (r.Err? ==> c == null && err == Some(r.error))
    {
      var p := WritePaths(name);
      if p.tmpNew in fs || p.tmpOld in fs {
        c, err := null, Some(PartialWriteState);
        return;
      }
      if p.dest !in fs {
        c, err := null, Some(ContextNotFound(name));
        return;
      }
      c := new Context.FromDict(name, fs[p.dest].meta);
      c.specsByHash := fs[p.dest].fullSpecs;
      err := None;
    }

    /** `context_create` */
    method Create(name: string) returns (err: Option<Error>)
      modifies this
      ensures var r := DurableStore.Create(old(fs), name);
        && (r.Ok? ==> err.None? && fs == r.value)
        && (r.Err? ==> err == Some(r.error) && fs == old(fs))
    {
      var c := new Context(name);
      if WritePaths(name).dest in fs {
        err := Some(ContextAlreadyExists(name));
        return;
      }
      ghost var trace;
      err, trace := Write(c, None);
    }
  }
}
