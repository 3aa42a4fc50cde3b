/**
  The state of one context (`Context` in lib/spack/spack/cmd/context.py) as a
  value, its consistency invariants, and the reconciliation operations as
  functions on that value.  The `Context` class in context_object.dfy performs
  the same operations in place and is proved to agree with these functions;
  the lemmas here state what the operations promise.
*/
module ContextState {
  import opened Resolution

  /** The errors the context commands abort with (`tty.die`). */
  datatype Error =
    | DuplicatePackage(name: Name)
    | NotFound(query: Request)
    | PartialWriteState
    | ContextNotFound(context: string)
    | ContextAlreadyExists(context: string)
    | MissingStagedCopy

  datatype Result<+T> = Ok(value: T) | Err(error: Error)

  /**
    `user_specs` are the requests in the order the user added them;
    `concretizedOrder` holds the hash of the resolution of each of the first
    |concretizedOrder| requests; `specsByHash` caches resolved DAGs by hash and
    may keep entries no position refers to any more.  `commonLibs` and
    `commonBins` are stored and nothing else.
  */
  datatype State = State(
    name: string,
    userSpecs: seq<Request>,
    concretizedOrder: seq<Hash>,
    specsByHash: map<Hash, Graph>,
    commonLibs: map<Name, Hash>,
    commonBins: map<Name, Hash>)

  /** `Context(name)`: a context with nothing in it. */
  function Empty(name: string): (e: State)
    ensures e.name == name && Wf(e)
    ensures |e.userSpecs| == 0 && e.specsByHash == map[]
    ensures e.commonLibs == map[] && e.commonBins == map[]
  {
    State(name, [], [], map[], map[], map[])
  }

  // ---------------------------------------------------------------------
  // Invariants
  // ---------------------------------------------------------------------

  /** Prefix alignment in its structural form: the resolved order is no longer
      than the requests, and every hash in it is a key of the cache. */
  ghost predicate Wf(s: State) {
    && |s.concretizedOrder| <= |s.userSpecs|
    && forall i :: 0 <= i < |s.concretizedOrder| ==> s.concretizedOrder[i] in s.specsByHash
  }

  /** At most one request per package name. */
  ghost predicate NamesDistinct(rs: Resolver, reqs: seq<Request>) {
    forall i, j :: 0 <= i < j < |reqs| ==> rs.nameOf(reqs[i]) != rs.nameOf(reqs[j])
  }

  /** Position i of the order resolves request i: its DAG's root is the
      package request i names. */
  ghost predicate RootsAligned(rs: Resolver, s: State)
    requires Wf(s)
  {
    forall i :: 0 <= i < |s.concretizedOrder| ==>
      rs.rootName(s.specsByHash[s.concretizedOrder[i]]) == rs.nameOf(s.userSpecs[i])
  }

  /** Every cache entry is stored under its own hash. */
  ghost predicate KeyedByHash(rs: Resolver, m: map<Hash, Graph>) {
    forall h :: h in m ==> rs.hash(m[h]) == h
  }

  ghost predicate Consistent(rs: Resolver, s: State) {
    && Wf(s)
    && NamesDistinct(rs, s.userSpecs)
    && RootsAligned(rs, s)
    && KeyedByHash(rs, s.specsByHash)
  }

  /** A consistent context never refers to one resolution from two positions,
      which is what lets `remove` drop the cache entry of the position it
      deletes. */
  lemma OrderDistinct(rs: Resolver, s: State, i: nat, j: nat)
    requires Consistent(rs, s)
    requires i < j < |s.concretizedOrder|
    ensures s.concretizedOrder[i] != s.concretizedOrder[j]
  {
    assert rs.rootName(s.specsByHash[s.concretizedOrder[i]]) == rs.nameOf(s.userSpecs[i]);
    assert rs.rootName(s.specsByHash[s.concretizedOrder[j]]) == rs.nameOf(s.userSpecs[j]);
    assert rs.nameOf(s.userSpecs[i]) != rs.nameOf(s.userSpecs[j]);
  }

  // ---------------------------------------------------------------------
  // Helpers on sequences and the cache
  // ---------------------------------------------------------------------

  /** `del xs[k]` */
  function Delete<T>(xs: seq<T>, k: nat): (r: seq<T>)
    requires k < |xs|
    ensures |r| == |xs| - 1
    ensures forall i :: 0 <= i < k ==> r[i] == xs[i]
    ensures forall i :: k <= i < |r| ==> r[i] == xs[i + 1]
  {
    xs[..k] + xs[k + 1..]
  }

  function Hashes(rs: Resolver, gs: seq<Graph>): seq<Hash> {
    seq(|gs|, i requires 0 <= i < |gs| => rs.hash(gs[i]))
  }

  function HashSet(rs: Resolver, gs: seq<Graph>): set<Hash> {
    set g | g in gs :: rs.hash(g)
  }

  /** `m[g.dag_hash()] = g` for each g of gs in turn. */
  function Insert(rs: Resolver, m: map<Hash, Graph>, gs: seq<Graph>): (r: map<Hash, Graph>)
    ensures r.Keys == m.Keys + HashSet(rs, gs)
    decreases |gs|
  {
    if gs == [] then m
    else
      var last := gs[|gs| - 1];
      assert gs == gs[..|gs| - 1] + [last];
      assert HashSet(rs, gs) == HashSet(rs, gs[..|gs| - 1]) + {rs.hash(last)};
      Insert(rs, m, gs[..|gs| - 1])[rs.hash(last) := last]
  }

  /** Inserting DAGs under their own hashes keeps the cache keyed by hash;
      when hashes do not collide it only adds entries and every inserted DAG
      is found under its hash. */
  lemma {:induction false} InsertFacts(rs: Resolver, m: map<Hash, Graph>, gs: seq<Graph>)
    requires KeyedByHash(rs, m)
    ensures KeyedByHash(rs, Insert(rs, m, gs))
    ensures HashInjective(rs) ==> forall h :: h in m ==> Insert(rs, m, gs)[h] == m[h]
    ensures HashInjective(rs) ==> forall i :: 0 <= i < |gs| ==> Insert(rs, m, gs)[rs.hash(gs[i])] == gs[i]
    decreases |gs|
  {
    if gs != [] {
      var init := gs[..|gs| - 1];
      InsertFacts(rs, m, init);
      if HashInjective(rs) {
        forall i | 0 <= i < |gs| ensures Insert(rs, m, gs)[rs.hash(gs[i])] == gs[i] {
          if i < |gs| - 1 {
            assert init[i] == gs[i];
          }
        }
      }
    }
  }

  lemma SliceSnoc<T>(xs: seq<T>, k: nat)
    requires 0 < k <= |xs|
    ensures xs[..k] == xs[..k - 1] + [xs[k - 1]]
  {
  }

  lemma HashesSnoc(rs: Resolver, gs: seq<Graph>, g: Graph)
    ensures Hashes(rs, gs + [g]) == Hashes(rs, gs) + [rs.hash(g)]
  {
  }

  lemma InsertSnoc(rs: Resolver, m: map<Hash, Graph>, gs: seq<Graph>, g: Graph)
    ensures Insert(rs, m, gs + [g]) == Insert(rs, m, gs)[rs.hash(g) := g]
  {
    assert (gs + [g])[..|gs|] == gs;
  }

  /** The DAGs the order refers to, in order. */
  function Roots(s: State): (r: seq<Graph>)
    requires Wf(s)
    ensures |r| == |s.concretizedOrder|
  {
    seq(|s.concretizedOrder|, i requires 0 <= i < |s.concretizedOrder| => s.specsByHash[s.concretizedOrder[i]])
  }

  // ---------------------------------------------------------------------
  // add / remove
  // ---------------------------------------------------------------------

  /** Index of the first request naming package n, or -1. */
  function FirstIndexOf(rs: Resolver, reqs: seq<Request>, n: Name): (k: int)
    ensures -1 <= k < |reqs|
    ensures k == -1 <==> forall i :: 0 <= i < |reqs| ==> rs.nameOf(reqs[i]) != n
    ensures 0 <= k ==> rs.nameOf(reqs[k]) == n && forall i :: 0 <= i < k ==> rs.nameOf(reqs[i]) != n
    decreases |reqs|
  {
    if |reqs| == 0 then -1
    else if rs.nameOf(reqs[0]) == n then 0
    else
      var k := FirstIndexOf(rs, reqs[1..], n);
      if k < 0 then -1 else k + 1
  }

  /** `Context.add`: append the request unless one for the same package exists. */
  function Add(rs: Resolver, s: State, u: Request): (r: Result<State>)
    ensures r.Ok? <==> forall i :: 0 <= i < |s.userSpecs| ==> rs.nameOf(s.userSpecs[i]) != rs.nameOf(u)
    ensures r.Err? ==> r.error == DuplicatePackage(rs.nameOf(u))
  {
    if FirstIndexOf(rs, s.userSpecs, rs.nameOf(u)) >= 0 then Err(DuplicatePackage(rs.nameOf(u)))
    else Ok(s.(userSpecs := s.userSpecs + [u]))
  }

  /** A successful add appends exactly the request, touches nothing else, and
      keeps the context consistent (in particular names stay distinct). */
  lemma AddKeepsConsistent(rs: Resolver, s: State, u: Request)
    requires Consistent(rs, s)
    ensures Add(rs, s, u).Ok? ==>
      && Add(rs, s, u).value.userSpecs == s.userSpecs + [u]
      && Add(rs, s, u).value == s.(userSpecs := s.userSpecs + [u])
      && Consistent(rs, Add(rs, s, u).value)
  {
    if Add(rs, s, u).Ok? {
      var t := Add(rs, s, u).value;
      assert forall i :: 0 <= i < |s.userSpecs| ==> t.userSpecs[i] == s.userSpecs[i];
    }
  }

  /** Adding a request for a package already present fails and changes nothing
      observable: the failed call produces no new state. */
  lemma AddTwiceFails(rs: Resolver, s: State, u: Request, v: Request)
    requires Add(rs, s, u).Ok?
    requires rs.nameOf(v) == rs.nameOf(u)
    ensures Add(rs, Add(rs, s, u).value, v) == Err(DuplicatePackage(rs.nameOf(u)))
  {
    var t := Add(rs, s, u).value;
    assert t.userSpecs[|s.userSpecs|] == u;
  }

  /** `Context.remove`: delete the first request naming the queried package;
      when it was resolved, delete its hash and its cache entry as well. */
  function Remove(rs: Resolver, s: State, q: Request): (r: Result<State>)
    requires Wf(s)
    ensures r.Err? <==> forall i :: 0 <= i < |s.userSpecs| ==> rs.nameOf(s.userSpecs[i]) != rs.nameOf(q)
    ensures r.Err? ==> r.error == NotFound(q)
    ensures r.Ok? ==> |r.value.userSpecs| == |s.userSpecs| - 1
  {
    var k := FirstIndexOf(rs, s.userSpecs, rs.nameOf(q));
    if k < 0 then Err(NotFound(q))
    else if k < |s.concretizedOrder| then
      Ok(s.(userSpecs := Delete(s.userSpecs, k),
            concretizedOrder := Delete(s.concretizedOrder, k),
            specsByHash := s.specsByHash - {s.concretizedOrder[k]}))
    else
      Ok(s.(userSpecs := Delete(s.userSpecs, k)))
  }

  /** What remove deletes: the first request naming the queried package and,
      when that request was resolved, the hash at the same position and its
      cache entry.  Every other request, hash and cache entry keeps its place,
      and the name and pinned maps are untouched. */
  lemma RemoveDeletesFirstMatch(rs: Resolver, s: State, q: Request)
    requires Wf(s)
    ensures var r := Remove(rs, s, q); var k := FirstIndexOf(rs, s.userSpecs, rs.nameOf(q));
      r.Ok? ==>
        && 0 <= k && rs.nameOf(s.userSpecs[k]) == rs.nameOf(q)
        && r.value.userSpecs == Delete(s.userSpecs, k)
        && (k < |s.concretizedOrder| ==>
              && r.value.concretizedOrder == Delete(s.concretizedOrder, k)
              && r.value.specsByHash == s.specsByHash - {s.concretizedOrder[k]})
        && (k >= |s.concretizedOrder| ==>
              r.value.concretizedOrder == s.concretizedOrder && r.value.specsByHash == s.specsByHash)
        && r.value.name == s.name && r.value.commonLibs == s.commonLibs && r.value.commonBins == s.commonBins
  {
  }

  /** Remove keeps the prefix alignment: both sequences lose the same position,
      every hash still in the order is still a cache key, and the package
      removed is no longer requested at all. */
  lemma RemoveKeepsConsistent(rs: Resolver, s: State, q: Request)
    requires Consistent(rs, s)
    ensures Remove(rs, s, q).Ok? ==>
      && Consistent(rs, Remove(rs, s, q).value)
      && forall i :: 0 <= i < |Remove(rs, s, q).value.userSpecs| ==>
           rs.nameOf(Remove(rs, s, q).value.userSpecs[i]) != rs.nameOf(q)
  {
    var k := FirstIndexOf(rs, s.userSpecs, rs.nameOf(q));
    if k >= 0 {
      var t := Remove(rs, s, q).value;
      assert Wf(t) by {
        if k < |s.concretizedOrder| {
          forall i | 0 <= i < |t.concretizedOrder| ensures t.concretizedOrder[i] in t.specsByHash {
            var j := if i < k then i else i + 1;
            assert t.concretizedOrder[i] == s.concretizedOrder[j];
            if j < k { OrderDistinct(rs, s, j, k); } else { OrderDistinct(rs, s, k, j); }
          }
        }
      }
      forall i | 0 <= i < |t.concretizedOrder|
        ensures rs.rootName(t.specsByHash[t.concretizedOrder[i]]) == rs.nameOf(t.userSpecs[i])
      {
        var j := if i < k then i else i + 1;
        assert t.userSpecs[i] == s.userSpecs[j];
      }
      forall i, j | 0 <= i < j < |t.userSpecs| ensures rs.nameOf(t.userSpecs[i]) != rs.nameOf(t.userSpecs[j]) {
        var i' := if i < k then i else i + 1;
        var j' := if j < k then j else j + 1;
        assert t.userSpecs[i] == s.userSpecs[i'] && t.userSpecs[j] == s.userSpecs[j'];
      }
      forall i | 0 <= i < |t.userSpecs| ensures rs.nameOf(t.userSpecs[i]) != rs.nameOf(q) {
        var i' := if i < k then i else i + 1;
        assert t.userSpecs[i] == s.userSpecs[i'];
      }
    }
  }

  // ---------------------------------------------------------------------
  // concretize
  // ---------------------------------------------------------------------

  /** `user_specs[len(concretized_order):]` (an empty slice when the order is
      the longer one). */
  function Pending(s: State): seq<Request> {
    if |s.concretizedOrder| <= |s.userSpecs| then s.userSpecs[|s.concretizedOrder|..] else []
  }

  function ResolveAll(rs: Resolver, reqs: seq<Request>): seq<Graph> {
    seq(|reqs|, i requires 0 <= i < |reqs| => rs.resolve(reqs[i]))
  }

  lemma ResolveAllSnoc(rs: Resolver, reqs: seq<Request>, u: Request)
    ensures ResolveAll(rs, reqs + [u]) == ResolveAll(rs, reqs) + [rs.resolve(u)]
  {
  }

  datatype Concretized = Concretized(state: State, newSpecs: seq<Graph>)

  /** `Context.concretize`: resolve the pending requests in order, append their
      hashes to the order and cache them; return the new DAGs. */
  function Concretize(rs: Resolver, s: State): (c: Concretized)
    ensures c.state == s.(concretizedOrder := c.state.concretizedOrder, specsByHash := c.state.specsByHash)
    ensures |c.state.concretizedOrder| == |s.concretizedOrder| + |c.newSpecs|
    ensures c.state.concretizedOrder[..|s.concretizedOrder|] == s.concretizedOrder
    ensures |c.newSpecs| == |Pending(s)|
  {
    var gs := ResolveAll(rs, Pending(s));
    Concretized(
      s.(concretizedOrder := s.concretizedOrder + Hashes(rs, gs),
         specsByHash := Insert(rs, s.specsByHash, gs)),
      gs)
  }

  /** Concretize resolves exactly the pending suffix, in order, leaves the
      existing hashes untouched and ends with every request resolved. */
  lemma ConcretizeResolvesSuffix(rs: Resolver, s: State)
    requires Wf(s)
    ensures var c := Concretize(rs, s); var n := |s.concretizedOrder|;
      && c.state.userSpecs == s.userSpecs
      && |c.state.concretizedOrder| == |s.userSpecs|
      && c.state.concretizedOrder[..n] == s.concretizedOrder
      && |c.newSpecs| == |s.userSpecs| - n
      && (forall i :: 0 <= i < |c.newSpecs| ==>
            c.newSpecs[i] == rs.resolve(s.userSpecs[n + i])
            && c.state.concretizedOrder[n + i] == rs.hash(c.newSpecs[i]))
      && c.state.specsByHash.Keys == s.specsByHash.Keys + HashSet(rs, c.newSpecs)
  {
  }

  /** Concretize keeps the context consistent and keeps every cache entry it
      had (no collision can overwrite one). */
  lemma ConcretizeKeepsConsistent(rs: Resolver, s: State)
    requires Sound(rs) && Consistent(rs, s)
    ensures Consistent(rs, Concretize(rs, s).state)
    ensures forall h :: h in s.specsByHash ==> Concretize(rs, s).state.specsByHash[h] == s.specsByHash[h]
  {
    var gs := ResolveAll(rs, Pending(s));
    var n := |s.concretizedOrder|;
    var order := s.concretizedOrder + Hashes(rs, gs);
    var m := Insert(rs, s.specsByHash, gs);
    InsertFacts(rs, s.specsByHash, gs);
    assert Concretize(rs, s).state == s.(concretizedOrder := order, specsByHash := m);
    assert |order| == |s.userSpecs|;
    forall i | 0 <= i < |order|
      ensures order[i] in m && rs.rootName(m[order[i]]) == rs.nameOf(s.userSpecs[i])
    {
      if i < n {
        assert order[i] == s.concretizedOrder[i];
      } else {
        assert order[i] == rs.hash(gs[i - n]);
        assert m[rs.hash(gs[i - n])] == gs[i - n];
        assert gs[i - n] == rs.resolve(s.userSpecs[i]);
      }
    }
  }

  /** A second concretize right after the first resolves nothing and changes
      nothing. */
  lemma ConcretizeIdempotent(rs: Resolver, s: State)
    requires Wf(s)
    ensures var t := Concretize(rs, s).state;
      Concretize(rs, t) == Concretized(t, [])
  {
    ConcretizeResolvesSuffix(rs, s);
    var t := Concretize(rs, s).state;
    assert Pending(t) == [];
    assert t.concretizedOrder + Hashes(rs, []) == t.concretizedOrder;
  }

  // ---------------------------------------------------------------------
  // upgrade_dependency
  // ---------------------------------------------------------------------

  /** The state of the upgrade loop after k roots: the new order so far, the
      cache as updated so far, and the upgraded dependency nodes so far. */
  datatype Upgraded = Upgraded(order: seq<Hash>, specs: map<Hash, Graph>, newDeps: seq<Node>)

  /** The first k iterations of the loop of `Context.upgrade_dependency`
      without dry run.  Each root is read from the cache as updated so far. */
  function UpgradeSteps(rs: Resolver, s: State, dep: Name, k: nat): (u: Upgraded)
    requires Wf(s) && k <= |s.concretizedOrder|
    ensures |u.order| == k
    ensures s.specsByHash.Keys <= u.specs.Keys
    ensures forall i :: 0 <= i < k ==> u.order[i] in u.specs
    decreases k
  {
    if k == 0 then Upgraded([], s.specsByHash, [])
    else
      var u := UpgradeSteps(rs, s, dep, k - 1);
      var h := s.concretizedOrder[k - 1];
      var g := u.specs[h];
      if rs.contains(g, dep) then
        var g' := rs.upgrade(g, dep);
        Upgraded(u.order + [rs.hash(g')], u.specs[rs.hash(g') := g'], u.newDeps + [rs.lookup(g', dep)])
      else
        Upgraded(u.order + [h], u.specs, u.newDeps)
  }

  /** The roots among gs that contain the dependency, in order. */
  function Affected(rs: Resolver, gs: seq<Graph>, dep: Name): (r: seq<Graph>)
    ensures forall g :: g in r ==> g in gs && rs.contains(g, dep)
    ensures forall g :: g in gs && rs.contains(g, dep) ==> g in r
    decreases |gs|
  {
    if gs == [] then []
    else
      var init := Affected(rs, gs[..|gs| - 1], dep);
      var last := gs[|gs| - 1];
      assert gs == gs[..|gs| - 1] + [last];
      if rs.contains(last, dep) then init + [last] else init
  }

  lemma AffectedSnoc(rs: Resolver, gs: seq<Graph>, g: Graph, dep: Name)
    ensures Affected(rs, gs + [g], dep) == if rs.contains(g, dep) then Affected(rs, gs, dep) + [g] else Affected(rs, gs, dep)
  {
    assert (gs + [g])[..|gs|] == gs;
  }

  /** No root contains the dependency: the filter keeps nothing. */
  lemma {:induction false} AffectedNone(rs: Resolver, gs: seq<Graph>, dep: Name)
    requires forall j :: 0 <= j < |gs| ==> !rs.contains(gs[j], dep)
    ensures Affected(rs, gs, dep) == []
    decreases |gs|
  {
    if gs != [] {
      AffectedNone(rs, gs[..|gs| - 1], dep);
    }
  }

  /** The first root kept by the filter is the first root of gs that
      contains the dependency. */
  lemma {:induction false} AffectedFirst(rs: Resolver, gs: seq<Graph>, dep: Name, i: nat)
    requires i < |gs| && rs.contains(gs[i], dep)
    requires forall j :: 0 <= j < i ==> !rs.contains(gs[j], dep)
    ensures Affected(rs, gs, dep) != [] && Affected(rs, gs, dep)[0] == gs[i]
    decreases |gs|
  {
    var init := gs[..|gs| - 1];
    var last := gs[|gs| - 1];
    assert gs == init + [last];
    AffectedSnoc(rs, init, last, dep);
    if i < |gs| - 1 {
      assert init[i] == gs[i];
      assert forall j :: 0 <= j < i ==> init[j] == gs[j];
      AffectedFirst(rs, init, dep, i);
    } else {
      AffectedNone(rs, init, dep);
    }
  }

  /** The hashes the upgrades of gs are cached under. */
  function UpgradedHashes(rs: Resolver, gs: seq<Graph>, dep: Name): set<Hash> {
    set g | g in gs :: rs.hash(rs.upgrade(g, dep))
  }

  /** The node each affected root's upgraded DAG has for the dependency. */
  function UpgradedDeps(rs: Resolver, gs: seq<Graph>, dep: Name): seq<Node> {
    seq(|gs|, i requires 0 <= i < |gs| => rs.lookup(rs.upgrade(gs[i], dep), dep))
  }

  lemma UpgradedDepsSnoc(rs: Resolver, gs: seq<Graph>, g: Graph, dep: Name)
    ensures UpgradedDeps(rs, gs + [g], dep) == UpgradedDeps(rs, gs, dep) + [rs.lookup(rs.upgrade(g, dep), dep)]
  {
  }

  /** What a dry run reports for each affected root: its dependency node and
      the root. */
  function Previews(rs: Resolver, gs: seq<Graph>, dep: Name): seq<(Node, Graph)> {
    seq(|gs|, i requires 0 <= i < |gs| => (rs.lookup(gs[i], dep), gs[i]))
  }

  lemma PreviewsSnoc(rs: Resolver, gs: seq<Graph>, g: Graph, dep: Name)
    ensures Previews(rs, gs + [g], dep) == Previews(rs, gs, dep) + [(rs.lookup(g, dep), g)]
  {
  }

  /** One iteration of the dry-run loop. */
  lemma PreviewsStep(rs: Resolver, roots: seq<Graph>, i: nat, dep: Name)
    requires i < |roots|
    ensures Previews(rs, Affected(rs, roots[..i + 1], dep), dep) ==
      Previews(rs, Affected(rs, roots[..i], dep), dep) +
        (if rs.contains(roots[i], dep) then [(rs.lookup(roots[i], dep), roots[i])] else [])
  {
    SliceSnoc(roots, i + 1);
    AffectedSnoc(rs, roots[..i], roots[i], dep);
    PreviewsSnoc(rs, Affected(rs, roots[..i], dep), roots[i], dep);
  }

  datatype UpgradeOutcome = UpgradeOutcome(state: State, newDep: Option<Node>, previews: seq<(Node, Graph)>)

  /** `Context.upgrade_dependency(dep_name, dry_run)`.  A dry run reports, for
      each affected root, its dependency node and the root, and changes
      nothing; otherwise the new order replaces the old one and the first
      upgraded dependency node (if any) is returned. */
  function UpgradeDependency(rs: Resolver, s: State, dep: Name, dryRun: bool): (r: UpgradeOutcome)
    requires Wf(s)
    ensures Wf(r.state)
    ensures r.state == s.(concretizedOrder := r.state.concretizedOrder, specsByHash := r.state.specsByHash)
    ensures |r.state.concretizedOrder| == |s.concretizedOrder|
    ensures s.specsByHash.Keys <= r.state.specsByHash.Keys
    ensures dryRun ==> r.state == s && r.newDep.None?
    ensures !dryRun ==> r.previews == []
  {
    if dryRun then
      UpgradeOutcome(s, None, Previews(rs, Affected(rs, Roots(s), dep), dep))
    else
      var u := UpgradeSteps(rs, s, dep, |s.concretizedOrder|);
      UpgradeOutcome(
        s.(concretizedOrder := u.order, specsByHash := u.specs),
        if |u.newDeps| > 0 then Some(u.newDeps[0]) else None,
        [])
  }

  /** The upgrade loop keeps the cache keyed by hash and, hashes being
      collision-free, only adds entries to it. */
  lemma {:induction false} UpgradeStepsExtendCache(rs: Resolver, s: State, dep: Name, k: nat)
    requires HashInjective(rs) && Wf(s) && KeyedByHash(rs, s.specsByHash) && k <= |s.concretizedOrder|
    ensures KeyedByHash(rs, UpgradeSteps(rs, s, dep, k).specs)
    ensures forall h :: h in s.specsByHash ==> UpgradeSteps(rs, s, dep, k).specs[h] == s.specsByHash[h]
    decreases k
  {
    if k > 0 {
      UpgradeStepsExtendCache(rs, s, dep, k - 1);
      var u0 := UpgradeSteps(rs, s, dep, k - 1);
      var g := u0.specs[s.concretizedOrder[k - 1]];
      if rs.contains(g, dep) {
        var g' := rs.upgrade(g, dep);
        var u := UpgradeSteps(rs, s, dep, k);
        assert u.specs == u0.specs[rs.hash(g') := g'];
        forall h | h in s.specsByHash ensures u.specs[h] == s.specsByHash[h] {
          if h == rs.hash(g') {
            assert rs.hash(s.specsByHash[h]) == h;
          }
        }
      }
    }
  }

  /** The loop reads each root as it was before the upgrade began. */
  lemma UpgradeStepsReadsRoot(rs: Resolver, s: State, dep: Name, k: nat)
    requires HashInjective(rs) && Wf(s) && KeyedByHash(rs, s.specsByHash) && k < |s.concretizedOrder|
    ensures UpgradeSteps(rs, s, dep, k).specs[s.concretizedOrder[k]] == Roots(s)[k]
  {
    UpgradeStepsExtendCache(rs, s, dep, k);
  }

  /** One iteration of the loop never changes an entry already cached. */
  lemma UpgradeStepKeepsCache(rs: Resolver, s: State, dep: Name, k: nat)
    requires HashInjective(rs) && Wf(s) && KeyedByHash(rs, s.specsByHash) && k < |s.concretizedOrder|
    ensures var u0 := UpgradeSteps(rs, s, dep, k);
      var u := UpgradeSteps(rs, s, dep, k + 1);
      && u.order[..k] == u0.order
      && forall h :: h in u0.specs ==> h in u.specs && u.specs[h] == u0.specs[h]
  {
    UpgradeStepsExtendCache(rs, s, dep, k);
    var u0 := UpgradeSteps(rs, s, dep, k);
    var g := u0.specs[s.concretizedOrder[k]];
    if rs.contains(g, dep) {
      var g' := rs.upgrade(g, dep);
      forall h | h in u0.specs && h == rs.hash(g') ensures u0.specs[h] == g' {
        assert rs.hash(u0.specs[h]) == h;
      }
    }
  }

  /** What the upgrade loop computes, position by position: a root that
      contains the dependency is replaced by the hash of its upgrade, cached
      under that hash; any other root keeps its hash. */
  lemma {:induction false} UpgradeStepsOrder(rs: Resolver, s: State, dep: Name, k: nat)
    requires HashInjective(rs) && Wf(s) && KeyedByHash(rs, s.specsByHash) && k <= |s.concretizedOrder|
    ensures var u := UpgradeSteps(rs, s, dep, k);
      forall i :: 0 <= i < k ==>
        var g := Roots(s)[i];
        && u.order[i] == (if rs.contains(g, dep) then rs.hash(rs.upgrade(g, dep)) else s.concretizedOrder[i])
        && u.specs[u.order[i]] == (if rs.contains(g, dep) then rs.upgrade(g, dep) else g)
  {
    forall i | 0 <= i < k
      ensures var u := UpgradeSteps(rs, s, dep, k);
        var g := Roots(s)[i];
        && u.order[i] == (if rs.contains(g, dep) then rs.hash(rs.upgrade(g, dep)) else s.concretizedOrder[i])
        && u.specs[u.order[i]] == (if rs.contains(g, dep) then rs.upgrade(g, dep) else g)
    {
      UpgradeStepsAt(rs, s, dep, k, i);
    }
  }

  /** A later iteration that keeps the order so far and the cached entries
      keeps what position i says. */
  lemma CarryPosition(u0: Upgraded, u: Upgraded, i: nat)
    requires i < |u0.order| <= |u.order| && u.order[..|u0.order|] == u0.order
    requires u0.order[i] in u0.specs
    requires forall h :: h in u0.specs ==> h in u.specs && u.specs[h] == u0.specs[h]
    ensures u.order[i] == u0.order[i] && u.specs[u.order[i]] == u0.specs[u0.order[i]]
  {
    assert u.order[..|u0.order|][i] == u0.order[i];
  }

  /** The iteration at position i. */
  lemma UpgradeStepsLast(rs: Resolver, s: State, dep: Name, i: nat)
    requires HashInjective(rs) && Wf(s) && KeyedByHash(rs, s.specsByHash) && i < |s.concretizedOrder|
    ensures var u := UpgradeSteps(rs, s, dep, i + 1);
      var g := Roots(s)[i];
      && u.order[i] == (if rs.contains(g, dep) then rs.hash(rs.upgrade(g, dep)) else s.concretizedOrder[i])
      && u.specs[u.order[i]] == (if rs.contains(g, dep) then rs.upgrade(g, dep) else g)
  {
    UpgradeStepsReadsRoot(rs, s, dep, i);
    var u0 := UpgradeSteps(rs, s, dep, i);
    assert u0.specs[s.concretizedOrder[i]] == Roots(s)[i];
  }

  /** Position i of the new order, once the loop has passed it. */
  lemma {:induction false} UpgradeStepsAt(rs: Resolver, s: State, dep: Name, k: nat, i: nat)
    requires HashInjective(rs) && Wf(s) && KeyedByHash(rs, s.specsByHash) && i < k <= |s.concretizedOrder|
    ensures var u := UpgradeSteps(rs, s, dep, k);
      var g := Roots(s)[i];
      && u.order[i] == (if rs.contains(g, dep) then rs.hash(rs.upgrade(g, dep)) else s.concretizedOrder[i])
      && u.specs[u.order[i]] == (if rs.contains(g, dep) then rs.upgrade(g, dep) else g)
    decreases k
  {
    if k == i + 1 {
      UpgradeStepsLast(rs, s, dep, i);
    } else {
      UpgradeStepsAt(rs, s, dep, k - 1, i);
      UpgradeStepKeepsCache(rs, s, dep, k - 1);
      CarryPosition(UpgradeSteps(rs, s, dep, k - 1), UpgradeSteps(rs, s, dep, k), i);
    }
  }

  /** The upgrade loop adds to the cache exactly the hashes of the affected
      roots' upgrades. */
  lemma {:induction false} UpgradeStepsKeys(rs: Resolver, s: State, dep: Name, k: nat)
    requires HashInjective(rs) && Wf(s) && KeyedByHash(rs, s.specsByHash) && k <= |s.concretizedOrder|
    ensures UpgradeSteps(rs, s, dep, k).specs.Keys ==
      s.specsByHash.Keys + UpgradedHashes(rs, Affected(rs, Roots(s)[..k], dep), dep)
    decreases k
  {
    if k > 0 {
      UpgradeStepsKeys(rs, s, dep, k - 1);
      UpgradeStepsReadsRoot(rs, s, dep, k - 1);
      AffectedHashesStep(rs, Roots(s), k - 1, dep);
    }
  }

  /** The hashes of the filtered upgrades grow by the next root's, when it
      contains the dependency. */
  lemma AffectedHashesStep(rs: Resolver, roots: seq<Graph>, i: nat, dep: Name)
    requires i < |roots|
    ensures UpgradedHashes(rs, Affected(rs, roots[..i + 1], dep), dep) ==
      UpgradedHashes(rs, Affected(rs, roots[..i], dep), dep) +
        (if rs.contains(roots[i], dep) then {rs.hash(rs.upgrade(roots[i], dep))} else {})
  {
    SliceSnoc(roots, i + 1);
    AffectedSnoc(rs, roots[..i], roots[i], dep);
    var a := Affected(rs, roots[..i], dep);
    assert UpgradedHashes(rs, a + [roots[i]], dep) == UpgradedHashes(rs, a, dep) + {rs.hash(rs.upgrade(roots[i], dep))};
  }

  /** The dependency nodes the loop collects are those of the affected roots'
      upgrades, in order. */
  lemma {:induction false} UpgradeStepsDeps(rs: Resolver, s: State, dep: Name, k: nat)
    requires HashInjective(rs) && Wf(s) && KeyedByHash(rs, s.specsByHash) && k <= |s.concretizedOrder|
    ensures UpgradeSteps(rs, s, dep, k).newDeps == UpgradedDeps(rs, Affected(rs, Roots(s)[..k], dep), dep)
    decreases k
  {
    if k > 0 {
      UpgradeStepsDeps(rs, s, dep, k - 1);
      var roots := Roots(s);
      var g := roots[k - 1];
      UpgradeStepsReadsRoot(rs, s, dep, k - 1);
      SliceSnoc(roots, k);
      AffectedSnoc(rs, roots[..k - 1], g, dep);
      UpgradedDepsSnoc(rs, Affected(rs, roots[..k - 1], dep), g, dep);
    }
  }

  /** Root i is the first root that contains the dependency. */
  ghost predicate FirstAffected(rs: Resolver, s: State, dep: Name, i: int)
    requires Wf(s)
  {
    && 0 <= i < |s.concretizedOrder| && rs.contains(Roots(s)[i], dep)
    && forall j :: 0 <= j < i ==> !rs.contains(Roots(s)[j], dep)
  }

  /** The first upgraded dependency is returned exactly when some root
      contains the dependency, and it belongs to the first such root. */
  lemma UpgradeReturnsFirstAffected(rs: Resolver, s: State, dep: Name)
    requires HashInjective(rs) && Wf(s) && KeyedByHash(rs, s.specsByHash)
    ensures var r := UpgradeDependency(rs, s, dep, false);
      var gs := Affected(rs, Roots(s), dep);
      && (r.newDep.None? <==> forall i :: 0 <= i < |s.concretizedOrder| ==> !rs.contains(Roots(s)[i], dep))
      && (r.newDep.Some? ==> r.newDep.value == rs.lookup(rs.upgrade(gs[0], dep), dep))
      && (forall i :: FirstAffected(rs, s, dep, i) ==> r.newDep == Some(rs.lookup(rs.upgrade(Roots(s)[i], dep), dep)))
  {
    var n := |s.concretizedOrder|;
    UpgradeStepsDeps(rs, s, dep, n);
    var gs := Affected(rs, Roots(s), dep);
    assert Roots(s)[..n] == Roots(s);
    forall i | 0 <= i < n && rs.contains(Roots(s)[i], dep) ensures Roots(s)[i] in gs {
      assert Roots(s)[i] in Roots(s);
    }
    if gs != [] {
      assert gs[0] in gs;
    }
    forall i | FirstAffected(rs, s, dep, i)
      ensures UpgradeDependency(rs, s, dep, false).newDep == Some(rs.lookup(rs.upgrade(Roots(s)[i], dep), dep))
    {
      AffectedFirst(rs, Roots(s), dep, i);
    }
  }

  /** Without dry run the order keeps its length, roots without the dependency
      keep their hash, every root with it is replaced by its upgrade, cached
      under the upgrade's hash, and the cache only gains entries.  A dry run
      changes nothing and returns no node. */
  lemma UpgradeKeepsUnaffected(rs: Resolver, s: State, dep: Name, dryRun: bool)
    requires HashInjective(rs) && Wf(s) && KeyedByHash(rs, s.specsByHash)
    ensures var r := UpgradeDependency(rs, s, dep, dryRun);
      && (dryRun ==> r.state == s && r.newDep.None?)
      && r.state.userSpecs == s.userSpecs
      && |r.state.concretizedOrder| == |s.concretizedOrder|
      && (forall i :: 0 <= i < |s.concretizedOrder| && !rs.contains(Roots(s)[i], dep) ==>
            r.state.concretizedOrder[i] == s.concretizedOrder[i])
      && (!dryRun ==> forall i :: 0 <= i < |s.concretizedOrder| && rs.contains(Roots(s)[i], dep) ==>
            && r.state.concretizedOrder[i] == rs.hash(rs.upgrade(Roots(s)[i], dep))
            && r.state.concretizedOrder[i] in r.state.specsByHash
            && r.state.specsByHash[r.state.concretizedOrder[i]] == rs.upgrade(Roots(s)[i], dep))
      && (forall h :: h in s.specsByHash ==> h in r.state.specsByHash && r.state.specsByHash[h] == s.specsByHash[h])
      && (!dryRun ==>
            r.state.specsByHash.Keys == s.specsByHash.Keys + UpgradedHashes(rs, Affected(rs, Roots(s), dep), dep))
  {
    if !dryRun {
      var n := |s.concretizedOrder|;
      UpgradeStepsExtendCache(rs, s, dep, n);
      UpgradeStepsOrder(rs, s, dep, n);
      UpgradeStepsKeys(rs, s, dep, n);
      assert Roots(s)[..n] == Roots(s);
    }
  }

  /** Either way the context stays consistent: every new position resolves
      the same package as before. */
  lemma UpgradeKeepsConsistent(rs: Resolver, s: State, dep: Name, dryRun: bool)
    requires Sound(rs) && Consistent(rs, s)
    ensures Consistent(rs, UpgradeDependency(rs, s, dep, dryRun).state)
  {
    if !dryRun {
      var n := |s.concretizedOrder|;
      UpgradeStepsExtendCache(rs, s, dep, n);
      UpgradeStepsOrder(rs, s, dep, n);
      var t := UpgradeDependency(rs, s, dep, false).state;
      forall i | 0 <= i < n
        ensures rs.rootName(t.specsByHash[t.concretizedOrder[i]]) == rs.nameOf(t.userSpecs[i])
      {
        assert rs.rootName(Roots(s)[i]) == rs.nameOf(s.userSpecs[i]);
      }
    }
  }

  // ---------------------------------------------------------------------
  // reset_os_and_compiler
  // ---------------------------------------------------------------------

  function ResetAll(rs: Resolver, s: State, compiler: Option<string>): seq<Graph>
    requires Wf(s)
  {
    seq(|s.concretizedOrder|, i requires 0 <= i < |s.concretizedOrder| =>
      rs.reset(s.specsByHash[s.concretizedOrder[i]], compiler))
  }

  /** `Context.reset_os_and_compiler`: re-concretize every root and replace the
      order and the cache wholesale. */
  function ResetOsAndCompiler(rs: Resolver, s: State, compiler: Option<string>): (t: State)
    requires Wf(s)
    ensures t.userSpecs == s.userSpecs && t.name == s.name
    ensures t.commonLibs == s.commonLibs && t.commonBins == s.commonBins
    ensures |t.concretizedOrder| == |s.concretizedOrder|
  {
    var gs := ResetAll(rs, s, compiler);
    s.(concretizedOrder := Hashes(rs, gs), specsByHash := Insert(rs, map[], gs))
  }

  /** The new cache's keys are exactly the hashes of the new order. */
  lemma ResetKeys(rs: Resolver, s: State, compiler: Option<string>)
    requires Wf(s)
    ensures var t := ResetOsAndCompiler(rs, s, compiler);
      t.specsByHash.Keys == (set h | h in t.concretizedOrder)
  {
    var gs := ResetAll(rs, s, compiler);
    var t := ResetOsAndCompiler(rs, s, compiler);
    forall h | h in HashSet(rs, gs) ensures h in (set h | h in t.concretizedOrder) {
      var g :| g in gs && rs.hash(g) == h;
      var i :| 0 <= i < |gs| && gs[i] == g;
      assert t.concretizedOrder[i] == h;
    }
    forall h | h in (set h | h in t.concretizedOrder) ensures h in HashSet(rs, gs) {
      var i :| 0 <= i < |t.concretizedOrder| && t.concretizedOrder[i] == h;
      assert gs[i] in gs;
    }
  }

  /** Without hash collisions, the new cache maps position i's hash to root i
      re-concretized with the compiler. */
  lemma ResetEntries(rs: Resolver, s: State, compiler: Option<string>)
    requires Wf(s) && HashInjective(rs)
    ensures var t := ResetOsAndCompiler(rs, s, compiler);
      forall i :: 0 <= i < |t.concretizedOrder| ==>
        t.concretizedOrder[i] in t.specsByHash && t.specsByHash[t.concretizedOrder[i]] == rs.reset(Roots(s)[i], compiler)
  {
    InsertFacts(rs, map[], ResetAll(rs, s, compiler));
  }

  /** Position i of the order now holds the hash of root i re-concretized
      with the compiler, the cache holds exactly the new roots (old entries
      are dropped), each found under its hash when hashes do not collide, and
      the context stays consistent. */
  lemma ResetReplacesCache(rs: Resolver, s: State, compiler: Option<string>)
    requires Wf(s)
    ensures var t := ResetOsAndCompiler(rs, s, compiler);
      && t.userSpecs == s.userSpecs
      && |t.concretizedOrder| == |s.concretizedOrder|
      && (forall i :: 0 <= i < |t.concretizedOrder| ==>
            t.concretizedOrder[i] == rs.hash(rs.reset(Roots(s)[i], compiler)))
      && t.specsByHash.Keys == (set h | h in t.concretizedOrder)
      && (HashInjective(rs) ==> forall i :: 0 <= i < |t.concretizedOrder| ==>
            t.specsByHash[t.concretizedOrder[i]] == rs.reset(Roots(s)[i], compiler))
      && (Sound(rs) && Consistent(rs, s) ==> Consistent(rs, t))
  {
    var t := ResetOsAndCompiler(rs, s, compiler);
    ResetKeys(rs, s, compiler);
    if HashInjective(rs) {
      ResetEntries(rs, s, compiler);
      InsertFacts(rs, map[], ResetAll(rs, s, compiler));
    }
    if Sound(rs) && Consistent(rs, s) {
      forall i | 0 <= i < |t.concretizedOrder|
        ensures rs.rootName(t.specsByHash[t.concretizedOrder[i]]) == rs.nameOf(t.userSpecs[i])
      {
        assert rs.rootName(Roots(s)[i]) == rs.nameOf(s.userSpecs[i]);
      }
    }
  }

  // ---------------------------------------------------------------------
  // to_dict / from_dict
  // ---------------------------------------------------------------------

  /** The metadata written to context.yaml.  The cache is not part of it. */
  datatype Meta = Meta(
    userSpecs: seq<Request>,
    concretizedOrder: seq<Hash>,
    commonLibs: map<Name, Hash>,
    commonBins: map<Name, Hash>)

  function ToDict(s: State): (d: Meta)
    ensures FromDict(s.name, d) == s.(specsByHash := map[])
  {
    Meta(s.userSpecs, s.concretizedOrder, s.commonLibs, s.commonBins)
  }

  /** A fresh context named `name` with the metadata fields copied in and an
      empty cache. */
  function FromDict(name: string, d: Meta): (t: State)
    ensures t.name == name && t.specsByHash == map[]
    ensures Meta(t.userSpecs, t.concretizedOrder, t.commonLibs, t.commonBins) == d
  {
    State(name, d.userSpecs, d.concretizedOrder, map[], d.commonLibs, d.commonBins)
  }

  /** The metadata round trip restores everything but the cache, which is
      persisted separately; and the dictionary of a loaded context is the one
      it was loaded from. */
  lemma DictRoundTrip(s: State, name: string, d: Meta)
    ensures FromDict(s.name, ToDict(s)) == s.(specsByHash := map[])
    ensures ToDict(FromDict(name, d)) == d
  {
  }
}
