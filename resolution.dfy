/**
  The package-resolution machinery that the context manager calls into but
  does not implement: parsing a request (`Spec(x).name`), concretizing it
  (`Spec.concretize`), hashing a concretized DAG (`dag_hash`), asking whether
  a DAG contains a package (`name in spec`), indexing it (`spec[name]`),
  walking its link/run nodes (`spec.traverse(deptype=('link', 'run'))`), the
  two re-concretization helpers `upgrade_dependency_version` and
  `reset_os_and_compiler`, and `dump_provenance`.

  None of these is interpreted here: a `Resolver` value bundles them as
  functions and every operation of the model takes it as a parameter.
*/
module Resolution {

  /** A user-authored request string, e.g. "mpileaks@2.3 %gcc". */
  type Request = string
  /** A package name. */
  type Name = string
  /** The content hash of a concretized DAG. */
  type Hash = string

  /** A concretized spec: the root of an immutable resolved dependency DAG. */
  type Graph(==, !new)
  /** One node of a resolved DAG. */
  type Node(==, !new)
  /** The package-definition source that `dump_provenance` copies into a repository. */
  type Source(==, !new)

  datatype Option<+T> = None | Some(value: T)

  datatype Resolver = Resolver(
    nameOf: Request -> Name,              // Spec(request).name
    resolve: Request -> Graph,            // Spec(request).concretize()
    hash: Graph -> Hash,                  // spec.dag_hash()
    rootName: Graph -> Name,              // spec.name
    contains: (Graph, Name) -> bool,      // name in spec
    lookup: (Graph, Name) -> Node,        // spec[name]
    nodeName: Node -> Name,               // node.name
    linkRun: Graph -> seq<Node>,          // spec.traverse(deptype=('link', 'run'))
    upgrade: (Graph, Name) -> Graph,      // upgrade_dependency_version(spec, name)
    reset: (Graph, Option<string>) -> Graph,  // reset_os_and_compiler(spec, compiler)
    provenance: Node -> Source            // what dump_provenance writes for a node
  )

  /**
    What the context manager silently relies on: concretizing a request keeps
    the package it names as the root, re-concretizing a DAG keeps its root,
    and the DAG hash identifies the DAG (no collisions).  Without these, two
    positions of the resolved order can share a hash and `remove` deletes a
    map entry that another position still uses.
  */
  ghost predicate Sound(rs: Resolver) {
    && (forall u :: rs.rootName(rs.resolve(u)) == rs.nameOf(u))
    && (forall g, n :: rs.rootName(rs.upgrade(g, n)) == rs.rootName(g))
    && (forall g, c :: rs.rootName(rs.reset(g, c)) == rs.rootName(g))
    && HashInjective(rs)
  }

  /** Distinct DAGs have distinct hashes. */
  ghost predicate HashInjective(rs: Resolver) {
    forall g1, g2 :: rs.hash(g1) == rs.hash(g2) ==> g1 == g2
  }
}
