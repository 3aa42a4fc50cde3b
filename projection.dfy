/**
  The environment projection (`Context._get_environment_specs`): walk the
  link/run nodes of every resolved root, in the order of the context, and
  keep one node per package name.  The first node seen for a name wins; every
  later node with that name is dropped with a warning, even when it is the
  very same node shared by two roots.
*/
module Projection {
  import opened Resolution
  import opened ContextState

  /** The chosen node per package name and the warnings issued, each warning
      being the pair (node that takes priority, node dropped). */
  datatype Flat = Flat(chosen: map<Name, Node>, warnings: seq<(Node, Node)>)

  /** The link/run nodes of the roots, root after root. */
  function Walk(rs: Resolver, roots: seq<Graph>): (w: seq<Node>)
    ensures |roots| == 1 ==> w == rs.linkRun(roots[0])
    decreases |roots|
  {
    if roots == [] then []
    else Walk(rs, roots[..|roots| - 1]) + rs.linkRun(roots[|roots| - 1])
  }

  /** The walk holds exactly the link/run nodes of the roots. */
  lemma {:induction false} WalkMembers(rs: Resolver, roots: seq<Graph>)
    ensures forall g, n :: g in roots && n in rs.linkRun(g) ==> n in Walk(rs, roots)
    ensures forall n :: n in Walk(rs, roots) ==> exists g :: g in roots && n in rs.linkRun(g)
    decreases |roots|
  {
    if roots != [] {
      var init := roots[..|roots| - 1];
      WalkMembers(rs, init);
      assert roots == init + [roots[|roots| - 1]];
    }
  }

  /** One step of the loop: keep the node if its name is new, warn otherwise. */
  function Visit(rs: Resolver, f: Flat, n: Node): (r: Flat)
    ensures r.chosen.Keys == f.chosen.Keys + {rs.nodeName(n)}
    ensures forall name :: name in f.chosen ==> r.chosen[name] == f.chosen[name]
    ensures rs.nodeName(n) !in f.chosen ==> r.chosen[rs.nodeName(n)] == n && r.warnings == f.warnings
    ensures rs.nodeName(n) in f.chosen ==> r.warnings == f.warnings + [(r.chosen[rs.nodeName(n)], n)]
  {
    var name := rs.nodeName(n);
    if name in f.chosen then Flat(f.chosen, f.warnings + [(f.chosen[name], n)])
    else Flat(f.chosen[name := n], f.warnings)
  }

  /** The loop over all nodes in walk order. */
  function Flatten(rs: Resolver, ns: seq<Node>): (f: Flat)
    ensures forall name :: name in f.chosen ==> rs.nodeName(f.chosen[name]) == name
    decreases |ns|
  {
    if ns == [] then Flat(map[], [])
    else Visit(rs, Flatten(rs, ns[..|ns| - 1]), ns[|ns| - 1])
  }

  function Names(rs: Resolver, ns: seq<Node>): set<Name> {
    set n | n in ns :: rs.nodeName(n)
  }

  /** `_get_environment_specs` on a context value. */
  function EnvironmentSpecs(rs: Resolver, s: State): (f: Flat)
    requires Wf(s)
    ensures f.chosen.Keys == Names(rs, Walk(rs, Roots(s)))
    ensures forall name :: name in f.chosen ==> rs.nodeName(f.chosen[name]) == name
  {
    FlattenKeys(rs, Walk(rs, Roots(s)));
    Flatten(rs, Walk(rs, Roots(s)))
  }

  /** One node per package name: exactly the names walked are chosen, each
      under its own name. */
  lemma {:induction false} FlattenKeys(rs: Resolver, ns: seq<Node>)
    ensures var f := Flatten(rs, ns);
      && f.chosen.Keys == Names(rs, ns)
      && (forall name :: name in f.chosen ==> rs.nodeName(f.chosen[name]) == name)
    decreases |ns|
  {
    if ns != [] {
      var init := ns[..|ns| - 1];
      var last := ns[|ns| - 1];
      FlattenKeys(rs, init);
      assert ns == init + [last];
      assert Names(rs, ns) == Names(rs, init) + {rs.nodeName(last)};
    }
  }

  /** No node before position i has the package name of node i. */
  predicate FirstOfName(rs: Resolver, ns: seq<Node>, i: nat)
    requires i < |ns|
  {
    forall j :: 0 <= j < i ==> rs.nodeName(ns[j]) != rs.nodeName(ns[i])
  }

  /** First writer wins: the node chosen for a name is its first occurrence
      in the walk. */
  lemma {:induction false} FlattenChoosesFirst(rs: Resolver, ns: seq<Node>, i: nat)
    requires i < |ns| && FirstOfName(rs, ns, i)
    ensures var f := Flatten(rs, ns);
      rs.nodeName(ns[i]) in f.chosen && f.chosen[rs.nodeName(ns[i])] == ns[i]
    decreases |ns|
  {
    var init := ns[..|ns| - 1];
    var name := rs.nodeName(ns[i]);
    FlattenKeys(rs, init);
    if i < |ns| - 1 {
      assert init[i] == ns[i];
      assert forall j :: 0 <= j < i ==> init[j] == ns[j];
      assert FirstOfName(rs, init, i);
      FlattenChoosesFirst(rs, init, i);
    } else {
      assert name !in Names(rs, init);
    }
  }

  /** Every node walked is either chosen or warned about, never both: the
      warnings number the walked nodes minus the names, and each pairs a
      walked node with the node chosen for its name.  Which node each warning
      is about is stated by `FlattenWarnsLater`. */
  lemma {:induction false} FlattenWarnings(rs: Resolver, ns: seq<Node>)
    ensures var f := Flatten(rs, ns);
      && |f.warnings| + |f.chosen| == |ns|
      && (forall k :: 0 <= k < |f.warnings| ==>
            && f.warnings[k].1 in ns
            && rs.nodeName(f.warnings[k].1) in f.chosen
            && f.warnings[k].0 == f.chosen[rs.nodeName(f.warnings[k].1)])
    decreases |ns|
  {
    if ns != [] {
      var init := ns[..|ns| - 1];
      var last := ns[|ns| - 1];
      FlattenWarnings(rs, init);
      assert ns == init + [last];
      var f0 := Flatten(rs, init);
      var f := Flatten(rs, ns);
      if rs.nodeName(last) !in f0.chosen {
        assert |f.chosen| == |f0.chosen| + 1 by {
          assert f.chosen.Keys == f0.chosen.Keys + {rs.nodeName(last)};
        }
        forall k | 0 <= k < |f.warnings|
          ensures f.warnings[k].0 == f.chosen[rs.nodeName(f.warnings[k].1)]
        {
          assert rs.nodeName(f.warnings[k].1) != rs.nodeName(last);
        }
      }
    }
  }

  /** Each later occurrence of a name is warned about, in walk order: the
      node at position i, when an earlier node has its name, is the dropped
      half of the warning numbered by the repeats before it, and the other
      half is the node kept for the name. */
  lemma {:induction false} FlattenWarnsLater(rs: Resolver, ns: seq<Node>, i: nat)
    requires i < |ns| && !FirstOfName(rs, ns, i)
    ensures var f := Flatten(rs, ns); var w := i - |Names(rs, ns[..i])|;
      && rs.nodeName(ns[i]) in f.chosen
      && 0 <= w < |f.warnings|
      && f.warnings[w] == (f.chosen[rs.nodeName(ns[i])], ns[i])
    decreases |ns|
  {
    if i == |ns| - 1 {
      FlattenWarnsLast(rs, ns);
    } else {
      var init := ns[..|ns| - 1];
      var j :| 0 <= j < i && rs.nodeName(ns[j]) == rs.nodeName(ns[i]);
      assert init[i] == ns[i] && init[j] == ns[j];
      assert !FirstOfName(rs, init, i);
      assert init[..i] == ns[..i];
      FlattenWarnsLater(rs, init, i);
      assert Flatten(rs, ns) == Visit(rs, Flatten(rs, init), ns[|ns| - 1]);
    }
  }

  /** The last node of the walk, when an earlier node has its name, is the
      dropped half of the warning appended last. */
  lemma FlattenWarnsLast(rs: Resolver, ns: seq<Node>)
    requires 0 < |ns| && !FirstOfName(rs, ns, |ns| - 1)
    ensures var f := Flatten(rs, ns); var i := |ns| - 1; var w := i - |Names(rs, ns[..i])|;
      && rs.nodeName(ns[i]) in f.chosen
      && 0 <= w < |f.warnings|
      && f.warnings[w] == (f.chosen[rs.nodeName(ns[i])], ns[i])
  {
    var i := |ns| - 1;
    var init := ns[..i];
    var name := rs.nodeName(ns[i]);
    var j :| 0 <= j < i && rs.nodeName(ns[j]) == name;
    assert ns[j] == init[j] && init[j] in init;
    assert name in Names(rs, init);
    FlattenKeys(rs, init);
    FlattenWarnings(rs, init);
    assert Flatten(rs, ns) == Visit(rs, Flatten(rs, init), ns[i]);
  }

  /** One step of the inner loop: visiting the next node of a root. */
  lemma FlattenStep(rs: Resolver, before: seq<Node>, deps: seq<Node>, j: nat)
    requires j < |deps|
    ensures Flatten(rs, before + deps[..j + 1]) == Visit(rs, Flatten(rs, before + deps[..j]), deps[j])
  {
    assert (before + deps[..j + 1])[..|before| + j] == before + deps[..j];
  }

  /** One step of the outer loop: the walk grows by the next root's nodes. */
  lemma WalkStep(rs: Resolver, roots: seq<Graph>, i: nat)
    requires i < |roots|
    ensures Walk(rs, roots[..i + 1]) == Walk(rs, roots[..i]) + rs.linkRun(roots[i])
  {
    assert roots[..i + 1][..i] == roots[..i];
  }

  /** A node met again (the same node reached from two roots) is still
      reported, exactly once. */
  lemma SharedNodeWarns(rs: Resolver, n: Node)
    ensures Flatten(rs, [n, n]) == Flat(map[rs.nodeName(n) := n], [(n, n)])
  {
    assert [n, n][..1] == [n];
    assert [n][..0] == [];
    assert Flatten(rs, [n]) == Flat(map[rs.nodeName(n) := n], []);
  }

  /** Two roots needing different builds of one library: the earlier root's
      build is kept and one warning names both builds. */
  lemma EarlierBuildWins(rs: Resolver, a: Node, b: Node)
    requires rs.nodeName(a) == rs.nodeName(b)
    ensures Flatten(rs, [a, b]) == Flat(map[rs.nodeName(a) := a], [(a, b)])
  {
    assert [a, b][..1] == [a];
    assert [a][..0] == [];
    assert Flatten(rs, [a]) == Flat(map[rs.nodeName(a) := a], []);
  }

  /** The walk of a concatenation is the concatenation of the walks. */
  lemma {:induction false} WalkAppend(rs: Resolver, a: seq<Graph>, b: seq<Graph>)
    ensures Walk(rs, a + b) == Walk(rs, a) + Walk(rs, b)
    decreases |b|
  {
    if b != [] {
      var b0 := b[..|b| - 1];
      WalkAppend(rs, a, b0);
      assert (a + b)[..|a + b| - 1] == a + b0;
    } else {
      assert a + b == a;
    }
  }

  /** First writer wins across roots: a node of root i whose name occurs in no
      earlier root, and not earlier in root i, is the node chosen for that
      name. */
  lemma EarliestRootWins(rs: Resolver, roots: seq<Graph>, i: nat, p: nat)
    requires i < |roots| && p < |rs.linkRun(roots[i])|
    requires rs.nodeName(rs.linkRun(roots[i])[p]) !in Names(rs, Walk(rs, roots[..i]))
    requires forall q :: 0 <= q < p ==> rs.nodeName(rs.linkRun(roots[i])[q]) != rs.nodeName(rs.linkRun(roots[i])[p])
    ensures var x := rs.linkRun(roots[i])[p];
      var f := Flatten(rs, Walk(rs, roots));
      rs.nodeName(x) in f.chosen && f.chosen[rs.nodeName(x)] == x
  {
    var deps := rs.linkRun(roots[i]);
    var x := deps[p];
    var before := Walk(rs, roots[..i]);
    WalkAppend(rs, roots[..i], [roots[i]]);
    WalkAppend(rs, roots[..i] + [roots[i]], roots[i + 1..]);
    assert roots == roots[..i] + [roots[i]] + roots[i + 1..];
    assert Walk(rs, [roots[i]]) == deps by {
      assert [roots[i]][..0] == [];
    }
    var ns := Walk(rs, roots);
    var k := |before| + p;
    assert ns[k] == x;
    forall j | 0 <= j < k ensures rs.nodeName(ns[j]) != rs.nodeName(x) {
      if j < |before| {
        assert ns[j] == before[j];
        assert before[j] in before;
      } else {
        assert ns[j] == deps[j - |before|];
      }
    }
    assert FirstOfName(rs, ns, k);
    FlattenChoosesFirst(rs, ns, k);
  }
}
