/**
  The `Context` class of lib/spack/spack/cmd/context.py: the requests, the
  resolved order and the hash-indexed cache as fields that its methods update
  in place.  Each method is proved to compute what the corresponding function
  of module ContextState (or Projection) computes on the value of the object,
  and to keep the object consistent when it was.
*/
module ContextObject {
  import opened Resolution
  import opened ContextState
  import opened Projection

  /** One entry of `Context.list`: a request and, when it is resolved, its DAG. */
  datatype Line = Line(request: Request, resolved: Option<Graph>)

  class Context {
    const name: string
    var userSpecs: seq<Request>
    var concretizedOrder: seq<Hash>
    var specsByHash: map<Hash, Graph>
    var commonLibs: map<Name, Hash>
    var commonBins: map<Name, Hash>

    /** The object as a value. */
    function Value(): State
      reads this
    {
      State(name, userSpecs, concretizedOrder, specsByHash, commonLibs, commonBins)
    }

    /** `Context(name)` */
    constructor (name: string)
      ensures Value() == Empty(name)
    {
      this.name := name;
      userSpecs, concretizedOrder, specsByHash := [], [], map[];
      commonLibs, commonBins := map[], map[];
    }

    /** `Context.from_dict(name, d)`: the metadata copied in, the cache empty. */
    constructor FromDict(name: string, d: Meta)
      ensures Value() == ContextState.FromDict(name, d)
    {
      this.name := name;
      userSpecs, concretizedOrder, specsByHash := d.userSpecs, d.concretizedOrder, map[];
      commonLibs, commonBins := d.commonLibs, d.commonBins;
    }

    /** The scan of `user_specs` that `add` and `remove` perform: the index of
        the first request naming package n, or -1. */
    method FindName(rs: Resolver, n: Name) returns (k: int)
      ensures k == FirstIndexOf(rs, userSpecs, n)
    {
      k := -1;
      var i := 0;
      while i < |userSpecs|
        invariant 0 <= i <= |userSpecs|
        invariant forall j :: 0 <= j < i ==> rs.nameOf(userSpecs[j]) != n
      {
        if rs.nameOf(userSpecs[i]) == n {
          k := i;
          return;
        }
        i := i + 1;
      }
    }

    /** `Context.add` */
    method Add(rs: Resolver, u: Request) returns (err: Option<Error>)
      modifies this
      ensures var r := ContextState.Add(rs, old(Value()), u);
        && (r.Ok? ==> err.None? && Value() == r.value)
        && (r.Err? ==> err == Some(r.error) && Value() == old(Value()))
      ensures old(Consistent(rs, Value())) ==> Consistent(rs, Value())
    {
      ghost var s0 := Value();
      var k := FindName(rs, rs.nameOf(u));
      if k >= 0 {
        err := Some(DuplicatePackage(rs.nameOf(u)));
        return;
      }
      userSpecs := userSpecs + [u];
      err := None;
      if Consistent(rs, s0) {
        AddKeepsConsistent(rs, s0, u);
      }
    }

    /** `Context.remove` */
    method Remove(rs: Resolver, q: Request) returns (err: Option<Error>)
      requires Wf(Value())
      modifies this
      ensures var r := ContextState.Remove(rs, old(Value()), q);
        && (r.Ok? ==> err.None? && Value() == r.value)
        && (r.Err? ==> err == Some(r.error) && Value() == old(Value()))
      ensures old(Consistent(rs, Value())) ==> Consistent(rs, Value())
    {
      ghost var s0 := Value();
      var k := FindName(rs, rs.nameOf(q));
      if k < 0 {
        err := Some(NotFound(q));
        return;
      }
      userSpecs := userSpecs[..k] + userSpecs[k + 1..];
      if k < |concretizedOrder| {
        var h := concretizedOrder[k];
        concretizedOrder := concretizedOrder[..k] + concretizedOrder[k + 1..];
        specsByHash := specsByHash - {h};
      }
      err := None;
      if Consistent(rs, s0) {
        RemoveKeepsConsistent(rs, s0, q);
      }
    }

    /** `Context.concretize` */
    method Concretize(rs: Resolver) returns (newSpecs: seq<Graph>)
      modifies this
      ensures var c := ContextState.Concretize(rs, old(Value()));
        Value() == c.state && newSpecs == c.newSpecs
      ensures Sound(rs) && old(Consistent(rs, Value())) ==> Consistent(rs, Value())
    {
      ghost var s0 := Value();
      var n := |concretizedOrder|;
      var pending := if n <= |userSpecs| then userSpecs[n..] else [];
      newSpecs := [];
      var i := 0;
      while i < |pending|
        invariant 0 <= i <= |pending|
        invariant userSpecs == s0.userSpecs && commonLibs == s0.commonLibs && commonBins == s0.commonBins
        invariant newSpecs == ResolveAll(rs, pending[..i])
        invariant concretizedOrder == s0.concretizedOrder + Hashes(rs, newSpecs)
        invariant specsByHash == Insert(rs, s0.specsByHash, newSpecs)
      {
        var spec := rs.resolve(pending[i]);
        assert pending[..i + 1] == pending[..i] + [pending[i]];
        ResolveAllSnoc(rs, pending[..i], pending[i]);
        HashesSnoc(rs, newSpecs, spec);
        InsertSnoc(rs, s0.specsByHash, newSpecs, spec);
        newSpecs := newSpecs + [spec];
        specsByHash := specsByHash[rs.hash(spec) := spec];
        concretizedOrder := concretizedOrder + [rs.hash(spec)];
        i := i + 1;
      }
      assert pending[..i] == pending;
      if Sound(rs) && Consistent(rs, s0) {
        ConcretizeKeepsConsistent(rs, s0);
      }
    }

    /** `Context.list`: each request with its resolution, when it has one
        (a position is shown as resolved when its hash is non-empty, as the
        source tests the hash for truth). */
    method List() returns (lines: seq<Line>)
      requires Wf(Value())
      ensures |lines| == |userSpecs|
      ensures forall i :: 0 <= i < |lines| ==> lines[i].request == userSpecs[i]
      ensures forall i :: 0 <= i < |lines| ==>
        lines[i].resolved ==
          if i < |concretizedOrder| && concretizedOrder[i] != "" then Some(specsByHash[concretizedOrder[i]]) else None
    {
      lines := [];
      var i := 0;
      while i < |userSpecs|
        invariant 0 <= i <= |userSpecs|
        invariant |lines| == i
        invariant forall j :: 0 <= j < i ==> lines[j].request == userSpecs[j]
        invariant forall j :: 0 <= j < i ==>
          lines[j].resolved ==
            if j < |concretizedOrder| && concretizedOrder[j] != "" then Some(specsByHash[concretizedOrder[j]]) else None
      {
        var resolved := None;
        if i < |concretizedOrder| && concretizedOrder[i] != "" {
          resolved := Some(specsByHash[concretizedOrder[i]]);
        }
        lines := lines + [Line(userSpecs[i], resolved)];
        i := i + 1;
      }
    }

    /** `Context.upgrade_dependency` */
    method UpgradeDependency(rs: Resolver, dep: Name, dryRun: bool) returns (newDep: Option<Node>, previews: seq<(Node, Graph)>)
      requires Wf(Value())
      modifies this
      ensures var r := ContextState.UpgradeDependency(rs, old(Value()), dep, dryRun);
        Value() == r.state && newDep == r.newDep && previews == r.previews
      ensures Sound(rs) && old(Consistent(rs, Value())) ==> Consistent(rs, Value())
    {
      ghost var s0 := Value();
      ghost var roots := Roots(s0);
      var order, cache := concretizedOrder, specsByHash;
      var newOrder: seq<Hash> := [];
      var newDeps: seq<Node> := [];
      previews := [];
      var i := 0;
      while i < |order|
        invariant 0 <= i <= |order|
        invariant unchanged(this)
        invariant !dryRun ==> UpgradeSteps(rs, s0, dep, i) == Upgraded(newOrder, cache, newDeps) && previews == []
        invariant dryRun ==> cache == s0.specsByHash && previews == Previews(rs, Affected(rs, roots[..i], dep), dep)
      {
        var h := order[i];
        var spec := cache[h];
        if dryRun {
          assert spec == roots[i];
          PreviewsStep(rs, roots, i, dep);
        }
        if rs.contains(spec, dep) {
          if dryRun {
            previews := previews + [(rs.lookup(spec, dep), spec)];
          } else {
            var newSpec := rs.upgrade(spec, dep);
            newOrder := newOrder + [rs.hash(newSpec)];
            cache := cache[rs.hash(newSpec) := newSpec];
            newDeps := newDeps + [rs.lookup(newSpec, dep)];
          }
        } else {
          newOrder := newOrder + [h];
        }
        assert dryRun ==> previews == Previews(rs, Affected(rs, roots[..i + 1], dep), dep);
        i := i + 1;
      }
      assert roots[..i] == roots;
      if !dryRun {
        concretizedOrder, specsByHash := newOrder, cache;
        newDep := if |newDeps| > 0 then Some(newDeps[0]) else None;
      } else {
        newDep := None;
      }
      if Sound(rs) && Consistent(rs, s0) {
        UpgradeKeepsConsistent(rs, s0, dep, dryRun);
      }
    }

    /** `Context.reset_os_and_compiler` */
    method ResetOsAndCompiler(rs: Resolver, compiler: Option<string>)
      requires Wf(Value())
      modifies this
      ensures Value() == ContextState.ResetOsAndCompiler(rs, old(Value()), compiler)
      ensures Sound(rs) && old(Consistent(rs, Value())) ==> Consistent(rs, Value())
    {
      ghost var s0 := Value();
      ghost var all := ResetAll(rs, s0, compiler);
      var order, cache := concretizedOrder, specsByHash;
      var newOrder: seq<Hash> := [];
      var newSpecsByHash: map<Hash, Graph> := map[];
      ghost var gs: seq<Graph> := [];
      var i := 0;
      while i < |order|
        invariant 0 <= i <= |order|
        invariant unchanged(this)
        invariant gs == all[..i]
        invariant newOrder == Hashes(rs, gs)
        invariant newSpecsByHash == Insert(rs, map[], gs)
      {
        var spec := cache[order[i]];
        var newSpec := rs.reset(spec, compiler);
        newOrder := newOrder + [rs.hash(newSpec)];
        newSpecsByHash := newSpecsByHash[rs.hash(newSpec) := newSpec];
        SliceSnoc(all, i + 1);
        HashesSnoc(rs, gs, newSpec);
        InsertSnoc(rs, map[], gs, newSpec);
        gs := gs + [newSpec];
        i := i + 1;
      }
      assert gs == all;
      concretizedOrder := newOrder;
      specsByHash := newSpecsByHash;
      assert Value() == s0.(concretizedOrder := newOrder, specsByHash := newSpecsByHash);
      ResetReplacesCache(rs, s0, compiler);
    }

    /** `Context._get_environment_specs`: the nested loop over the roots and
        their link/run nodes, with the warnings it prints. */
    method EnvironmentSpecs(rs: Resolver) returns (f: Flat)
      requires Wf(Value())
      ensures f == Projection.EnvironmentSpecs(rs, Value())
    {
      ghost var roots := Roots(Value());
      f := Flat(map[], []);
      var i := 0;
      while i < |concretizedOrder|
        invariant 0 <= i <= |concretizedOrder|
        invariant f == Flatten(rs, Walk(rs, roots[..i]))
      {
        var spec := specsByHash[concretizedOrder[i]];
        var deps := rs.linkRun(spec);
        ghost var before := Walk(rs, roots[..i]);
        assert before + deps[..0] == before;
        var j := 0;
        while j < |deps|
          invariant 0 <= j <= |deps|
          invariant f == Flatten(rs, before + deps[..j])
        {
          var dep := deps[j];
          FlattenStep(rs, before, deps, j);
          if rs.nodeName(dep) in f.chosen {
            f := f.(warnings := f.warnings + [(f.chosen[rs.nodeName(dep)], dep)]);
          } else {
            f := f.(chosen := f.chosen[rs.nodeName(dep) := dep]);
          }
          j := j + 1;
        }
        assert spec == roots[i] && deps[..j] == deps;
        WalkStep(rs, roots, i);
        i := i + 1;
      }
      assert roots[..i] == roots;
    }
  }
}
