/** Why a resolution fails: every error has a witness in the registry. */
module ResolutionFailures {
  import opened Results
  import opened Versions
  import opened Registries
  import opened Resolution

  datatype Node = Node(name: string, version: Version)

  /** A manifest requirement of `a` picks `b`. */
  ghost predicate Edge(reg: Registry, a: Node, b: Node) {
    Demanded(reg, DepsAt(reg, a.name, a.version), b.name, b.version)
  }

  ghost predicate IsChain(reg: Registry, c: seq<Node>) {
    c != [] && forall i :: 0 <= i < |c| - 1 ==> Edge(reg, c[i], c[i + 1])
  }

  function NamesOf(c: seq<Node>): (names: seq<string>)
    ensures |names| == |c| && forall i :: 0 <= i < |c| ==> names[i] == c[i].name
  {
    seq(|c|, i requires 0 <= i < |c| => c[i].name)
  }

  predicate Returns(c: seq<Node>, name: string) {
    c != [] && c[|c| - 1].name == name && exists i :: 0 <= i < |c| - 1 && c[i].name == name
  }

  predicate Dangling(reg: Registry, c: seq<Node>, d: Dependency) {
    c != [] && d in DepsAt(reg, c[|c| - 1].name, c[|c| - 1].version) && BestMatch(reg, d.name, d.req).None?
  }

  /** The chain starts at the root and shows the error: it returns to the name of the cycle, or
      it ends at a package with the requirement that nothing matches. */
  ghost predicate Witness(reg: Registry, root: Node, e: PkgError, c: seq<Node>) {
    && IsChain(reg, c) && c[0] == root
    && match e
       case CycleDetected(name) => Returns(c, name)
       case MissingDependency(name, req) => Dangling(reg, c, Dependency(name, req))
       case _ => false
  }

  lemma ChainSnoc(reg: Registry, c: seq<Node>, n: Node)
    requires IsChain(reg, c) && Edge(reg, c[|c| - 1], n)
    ensures IsChain(reg, c + [n])
  {
    hide Edge;
    var d := c + [n];
    forall i | 0 <= i < |d| - 1
      ensures Edge(reg, d[i], d[i + 1])
    {
      if i < |c| - 1 { assert Edge(reg, c[i], c[i + 1]); }
    }
  }

  lemma {:induction false} InnerFails(reg: Registry, c: seq<Node>, last: Node, path: seq<string>, before: Resolved) returns (w: seq<Node>)
    requires IsChain(reg, c) && c[|c| - 1] == last && path == NamesOf(c[..|c| - 1])
    requires Published(reg, last.name, last.version)
    requires ResolveInner(reg, last.name, last.version, path, before).Err?
    ensures Witness(reg, c[0], ResolveInner(reg, last.name, last.version, path, before).error, w)
    decreases |FreeNames(reg, path)|, 0
  {
    hide Edge, FreeNames;
    if last.name in path {
      w := c;
      var i :| 0 <= i < |path| && path[i] == last.name;
      assert c[i].name == last.name;
    } else {
      PathGrows(reg, path, last.name);
      assert NamesOf(c) == path + [last.name];
      w := DepsFail(reg, c, last, reg[last.name][last.version].manifest.deps, path + [last.name], before);
    }
  }

  lemma {:induction false} DepsFail(reg: Registry, c: seq<Node>, last: Node, deps: seq<Dependency>, path: seq<string>, before: Resolved)
    returns (w: seq<Node>)
    requires IsChain(reg, c) && c[|c| - 1] == last && path == NamesOf(c)
    requires forall d :: d in deps ==> d in DepsAt(reg, last.name, last.version)
    requires ResolveDeps(reg, deps, path, before).Err?
    ensures Witness(reg, c[0], ResolveDeps(reg, deps, path, before).error, w)
    decreases |FreeNames(reg, path)|, 1 + |deps|
  {
    hide FreeNames;
    var d := deps[0];
    assert d in deps;
    if BestMatch(reg, d.name, d.req).None? {
      w := c;
      assert d == Dependency(d.name, d.req);
    } else {
      var v := BestMatch(reg, d.name, d.req).value;
      var next := Node(d.name, v);
      if ResolveInner(reg, d.name, v, path, before).Err? {
        assert Picks(reg, d, d.name, v);
        ChainSnoc(reg, c, next);
        assert (c + [next])[..|c|] == c;
        w := InnerFails(reg, c + [next], next, path, before);
      } else {
        w := DepsFail(reg, c, last, deps[1..], path, ResolveInner(reg, d.name, v, path, before).value);
      }
    }
  }

  /** Every failure has its witness, and the registry counts as poisoned exactly when no version
      of the root is published. */
  lemma {:induction false} FailureHasWitness(reg: Registry, root: string)
    ensures var r := ResolveAll(reg, root);
            && ((r.Err? && r.error.RegistryPoisoned?) <==> forall v :: !Published(reg, root, v))
            && (r.Err? && !r.error.RegistryPoisoned? ==>
                  HighestOf(reg, root).Some?
                  && exists c :: Witness(reg, Node(root, HighestOf(reg, root).value), r.error, c))
  {
    hide ResolveInner, ResolveDeps;
    if HighestOf(reg, root).Some? {
      var v := HighestOf(reg, root).value;
      if ResolveAll(reg, root).Err? {
        assert [Node(root, v)][..0] == [] && NamesOf([]) == [];
        var c := InnerFails(reg, [Node(root, v)], Node(root, v), [], map[]);
      }
    } else if root in reg {
      assert forall v :: v !in reg[root];
    }
  }

  /** Resolution terminates on every registry, and it succeeds whenever no chain of picked
      dependencies from the highest version of the root returns to a name and no requirement along
      them is unmatched. */
  lemma {:induction false} ResolvesWithoutWitness(reg: Registry, root: string)
    requires HighestOf(reg, root).Some?
    requires forall c, name :: IsChain(reg, c) && c[0] == Node(root, HighestOf(reg, root).value) ==> !Returns(c, name)
    requires forall c, d :: IsChain(reg, c) && c[0] == Node(root, HighestOf(reg, root).value) ==> !Dangling(reg, c, d)
    ensures ResolveAll(reg, root).Ok?
  {
    hide ResolveAll;
    FailureHasWitness(reg, root);
  }
}
