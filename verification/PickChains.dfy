/** What can be said of a plan by looking at the registry alone: the packages that chains of picked
    requirements lead to from the root. */
module PickChains {
  import opened Results
  import opened Versions
  import opened Registries
  import opened Resolution
  import opened ResolutionFailures

  ghost predicate LeadsTo(reg: Registry, c: seq<Node>, start: Node, n: Node) {
    IsChain(reg, c) && c[0] == start && c[|c| - 1] == n
  }

  ghost predicate Reachable(reg: Registry, start: Node, n: Node) {
    exists c :: LeadsTo(reg, c, start, n)
  }

  /** `d` is a requirement of a package that picks lead to. */
  ghost predicate Required(reg: Registry, start: Node, d: Dependency) {
    exists n :: Reachable(reg, start, n) && d in DepsAt(reg, n.name, n.version)
  }

  /** All requirements on one name that picks lead to pick one version. */
  ghost predicate RequiredAgree(reg: Registry, start: Node) {
    forall d, e :: Required(reg, start, d) && Required(reg, start, e) && d.name == e.name ==>
      BestMatch(reg, d.name, d.req) == BestMatch(reg, e.name, e.req)
  }

  predicate InPlan(resolved: Resolved, n: Node) {
    n.name in resolved && resolved[n.name].version == n.version
  }

  lemma StartReachable(reg: Registry, start: Node)
    ensures Reachable(reg, start, start)
  {
    assert LeadsTo(reg, [start], start, start);
  }

  lemma NextReachable(reg: Registry, start: Node, a: Node, b: Node)
    requires Reachable(reg, start, a) && Edge(reg, a, b)
    ensures Reachable(reg, start, b)
  {
    hide Edge;
    var c :| LeadsTo(reg, c, start, a);
    ChainSnoc(reg, c, b);
    assert LeadsTo(reg, c + [b], start, b);
  }

  /** Every package of a plan is led to by picks: later ones in build order pin earlier ones. */
  lemma {:induction false} PlanReachable(reg: Registry, root: string, m: Resolved, order: seq<string>, i: nat)
    requires SoundPlan(reg, root, m) && BuildsUpTo(reg, m, order, root) && i < |order|
    ensures order[i] in m
    ensures Reachable(reg, Node(root, m[root].version), Node(order[i], m[order[i]].version))
    decreases |order| - i
  {
    hide Backed, PlanOf, DepsAt, HighestOf, Reachable, Edge;
    var n, start := order[i], Node(root, m[root].version);
    assert n in order;
    if i == |order| - 1 {
      StartReachable(reg, start);
    } else {
      assert n != root;
      assert Pinned(reg, m, n);
      var q :| q in m && Demanded(reg, DepsAt(reg, q, m[q].version), n, m[n].version);
      var j := PinnedLater(reg, m, order, i, q);
      PlanReachable(reg, root, m, order, j);
      var a, b := Node(q, m[q].version), Node(n, m[n].version);
      EdgeOf(reg, a, b);
      NextReachable(reg, start, a, b);
    }
  }

  lemma EdgeOf(reg: Registry, a: Node, b: Node)
    requires Demanded(reg, DepsAt(reg, a.name, a.version), b.name, b.version)
    ensures Edge(reg, a, b)
  {
  }

  lemma PinnedLater(reg: Registry, m: Resolved, order: seq<string>, i: nat, q: string) returns (j: nat)
    requires BuildOrder(reg, m, order) && i < |order| && order[i] in m && q in m
    requires Demanded(reg, DepsAt(reg, q, m[q].version), order[i], m[order[i]].version)
    ensures i < j < |order| && order[j] == q
  {
    hide DepsAt;
    assert q in order;
    j :| 0 <= j < |order| && order[j] == q;
    assert DepsBefore(reg, m, order, j);
    var d :| d in DepsAt(reg, q, m[q].version) && Picks(reg, d, order[i], m[order[i]].version);
    var k :| 0 <= k < j && order[..j][k] == d.name;
    assert order[k] == order[i];
  }

  lemma HeldIsRequired(reg: Registry, root: string, m: Resolved, d: Dependency)
    requires SoundPlan(reg, root, m) && Held(reg, m, d)
    ensures Required(reg, Node(root, m[root].version), d)
  {
    hide Backed, PlanOf, DepsAt, HighestOf, Reachable, Pinned;
    var q :| q in m && d in DepsAt(reg, q, m[q].version);
    var order :| BuildsUpTo(reg, m, order, root);
    assert q in order;
    var i :| 0 <= i < |order| && order[i] == q;
    PlanReachable(reg, root, m, order, i);
  }

  /** If every requirement of the plan got its pick, picks never lead out of the plan. */
  lemma {:induction false} ChainStaysInPlan(reg: Registry, root: string, m: Resolved, c: seq<Node>)
    requires SoundPlan(reg, root, m) && EachGotItsPick(reg, m)
    requires IsChain(reg, c) && c[0] == Node(root, m[root].version)
    ensures InPlan(m, c[|c| - 1])
    decreases |c|
  {
    hide SoundPlan, EachGotItsPick;
    if |c| == 1 {
      assert root in m by { RootInPlan(reg, root, m); }
    } else {
      var front := c[..|c| - 1];
      assert forall i :: 0 <= i < |front| - 1 ==> Edge(reg, c[i], c[i + 1]);
      ChainStaysInPlan(reg, root, m, front);
      assert Edge(reg, c[|c| - 2], c[|c| - 2 + 1]);
      EdgeStaysInPlan(reg, m, c[|c| - 2], c[|c| - 1]);
    }
  }

  lemma RootInPlan(reg: Registry, root: string, m: Resolved)
    requires SoundPlan(reg, root, m)
    ensures root in m && HighestOf(reg, root) == Some(m[root].version)
  {
  }

  lemma EdgeStaysInPlan(reg: Registry, m: Resolved, a: Node, b: Node)
    requires EachGotItsPick(reg, m) && InPlan(m, a) && Edge(reg, a, b)
    ensures InPlan(m, b)
  {
    hide DepsAt, BestMatch;
    var d :| d in DepsAt(reg, a.name, a.version) && Picks(reg, d, b.name, b.version);
    assert Held(reg, m, d);
  }

  lemma RequiredIsHeld(reg: Registry, root: string, m: Resolved, d: Dependency)
    requires SoundPlan(reg, root, m) && EachGotItsPick(reg, m)
    requires Required(reg, Node(root, m[root].version), d)
    ensures Held(reg, m, d)
  {
    hide SoundPlan, EachGotItsPick, DepsAt, IsChain;
    RootInPlan(reg, root, m);
    var start := Node(root, m[root].version);
    var n :| Reachable(reg, start, n) && d in DepsAt(reg, n.name, n.version);
    var c :| LeadsTo(reg, c, start, n);
    ChainStaysInPlan(reg, root, m, c);
  }

  /** Looking at the registry only: every requirement of the plan gets the version it picks
      exactly if all requirements on one name that picks lead to from the highest version of the
      root pick one version; and then the plan meets all its requirements. */
  lemma {:induction false} MetByAgreement(reg: Registry, root: string)
    requires ResolveAll(reg, root).Ok?
    ensures HighestOf(reg, root).Some?
    ensures var m, start := ResolveAll(reg, root).value, Node(root, HighestOf(reg, root).value);
            && (EachGotItsPick(reg, m) <==> RequiredAgree(reg, start))
            && (RequiredAgree(reg, start) ==> RequirementsMet(reg, m))
  {
    hide ResolveAll, Held, Required, SoundPlan, BestMatch, HighestOf;
    ResolutionSound(reg, root);
    PicksAgree(reg, root);
    var m := ResolveAll(reg, root).value;
    RootInPlan(reg, root, m);
    var start := Node(root, m[root].version);
    forall d | Held(reg, m, d) ensures Required(reg, start, d) { HeldIsRequired(reg, root, m, d); }
    if EachGotItsPick(reg, m) {
      forall d | Required(reg, start, d) ensures Held(reg, m, d) { RequiredIsHeld(reg, root, m, d); }
    }
  }
}
