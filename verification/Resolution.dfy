/** What a successful resolution guarantees: a closed, acyclic, registry-backed plan in which
    every version was chosen by some requirement of the plan. */
module Resolution {
  import opened Results
  import opened Ordering
  import opened Versions
  import opened Registries

  function DepsAt(reg: Registry, name: string, version: Version): seq<Dependency> {
    if Published(reg, name, version) then reg[name][version].manifest.deps else []
  }

  // ---------- the invariant of the search ----------

  /** Every resolved package stands under its own name and is the registry's. */
  ghost predicate Backed(reg: Registry, resolved: Resolved) {
    forall n :: n in resolved ==>
      resolved[n].name == n && IntegrityOf(reg, n, resolved[n].version) == Some(resolved[n].integrity)
  }

  predicate Distinct(order: seq<string>) {
    forall i, j :: 0 <= i < j < |order| ==> order[i] != order[j]
  }

  predicate DepsBefore(reg: Registry, resolved: Resolved, order: seq<string>, i: nat)
    requires i < |order|
  {
    order[i] in resolved &&
    forall d :: d in DepsAt(reg, order[i], resolved[order[i]].version) ==> d.name in order[..i]
  }

  /** `order` lists the resolved names once each, every dependency before its dependents. */
  ghost predicate BuildOrder(reg: Registry, resolved: Resolved, order: seq<string>) {
    && Distinct(order)
    && (forall n :: n in order <==> n in resolved)
    && (forall i :: 0 <= i < |order| ==> DepsBefore(reg, resolved, order, i))
  }

  predicate Picks(reg: Registry, d: Dependency, name: string, version: Version) {
    d.name == name && BestMatch(reg, d.name, d.req) == Some(version)
  }

  /** Some requirement of `deps` picks this version. */
  ghost predicate Demanded(reg: Registry, deps: seq<Dependency>, name: string, version: Version) {
    exists d :: d in deps && Picks(reg, d, name, version)
  }

  /** Some resolved package requires `name` and its requirement picks the resolved version. */
  ghost predicate Pinned(reg: Registry, resolved: Resolved, name: string)
    requires name in resolved
  {
    exists q :: q in resolved && Demanded(reg, DepsAt(reg, q, resolved[q].version), name, resolved[name].version)
  }

  predicate Extends(before: Resolved, after: Resolved) {
    forall n :: n in before ==> n in after && after[n] == before[n]
  }

  ghost predicate NewNamesOffPath(path: seq<string>, before: Resolved, after: Resolved) {
    forall n :: n in after && n !in before ==> n !in path
  }

  ghost predicate Grows(reg: Registry, path: seq<string>, before: Resolved, order: seq<string>, after: Resolved, order': seq<string>) {
    && Backed(reg, after) && BuildOrder(reg, after, order') && order <= order'
    && Extends(before, after) && NewNamesOffPath(path, before, after)
  }

  lemma PinnedStays(reg: Registry, before: Resolved, after: Resolved, name: string)
    requires Extends(before, after) && name in before && Pinned(reg, before, name)
    ensures Pinned(reg, after, name)
  {
    hide Demanded, DepsAt;
    var q :| q in before && Demanded(reg, DepsAt(reg, q, before[q].version), name, before[name].version);
    assert q in after;
  }

  lemma OrderSnoc(reg: Registry, resolved: Resolved, order: seq<string>, p: ResolvedPkg)
    requires BuildOrder(reg, resolved, order) && p.name !in resolved
    requires forall d :: d in DepsAt(reg, p.name, p.version) ==> d.name in resolved
    ensures BuildOrder(reg, resolved[p.name := p], order + [p.name])
  {
    hide DepsAt;
    var after, order' := resolved[p.name := p], order + [p.name];
    assert order'[..|order|] == order;
    forall i | 0 <= i < |order'|
      ensures DepsBefore(reg, after, order', i)
    {
      if i < |order| {
        assert DepsBefore(reg, resolved, order, i);
        assert order'[..i] == order[..i] && order[i] in order;
      }
    }
  }

  lemma {:induction false} InnerSound(reg: Registry, name: string, version: Version, path: seq<string>, before: Resolved,
                                      order: seq<string>) returns (order': seq<string>)
    requires Backed(reg, before) && BuildOrder(reg, before, order)
    requires ResolveInner(reg, name, version, path, before).Ok?
    ensures var after := ResolveInner(reg, name, version, path, before).value;
            && Grows(reg, path, before, order, after, order') && name in after
            && (name !in before ==> after[name].version == version && order' != [] && order'[|order'| - 1] == name)
            && forall n :: n in after && n !in before && n != name ==> Pinned(reg, after, n)
    decreases |FreeNames(reg, path)|, 0
  {
    hide Pinned, Demanded, BuildOrder, DepsBefore, FreeNames;
    if name in before {
      order' := order;
    } else {
      PathGrows(reg, path, name);
      var deps := reg[name][version].manifest.deps;
      order' := DepsSound(reg, deps, path + [name], before, order);
      var mid := ResolveDeps(reg, deps, path + [name], before).value;
      var p := ResolvedPkg(name, version, reg[name][version].integrity);
      Anchored(reg, name, version, path, before, order, mid, order', p);
      order' := order' + [name];
    }
  }

  /** Entering a package after all its dependencies keeps the invariant. */
  lemma {:induction false} Anchored(reg: Registry, name: string, version: Version, path: seq<string>, before: Resolved, order: seq<string>,
                 mid: Resolved, order': seq<string>, p: ResolvedPkg)
    requires name !in before && Published(reg, name, version)
    requires p == ResolvedPkg(name, version, reg[name][version].integrity)
    requires name !in path && Grows(reg, path + [name], before, order, mid, order')
    requires forall d :: d in DepsAt(reg, name, version) ==> d.name in mid
    requires forall n :: n in mid && n !in before ==>
               Pinned(reg, mid, n) || Demanded(reg, DepsAt(reg, name, version), n, mid[n].version)
    ensures Grows(reg, path, before, order, mid[name := p], order' + [name])
    ensures forall n :: n in mid && n !in before && n != name ==> Pinned(reg, mid[name := p], n)
  {
    hide Pinned, Demanded, BuildOrder, DepsAt;
    assert name in path + [name];
    OrderSnoc(reg, mid, order', p);
    var after := mid[name := p];
    forall n | n in mid && n !in before && n != name
      ensures Pinned(reg, after, n)
    {
      if Pinned(reg, mid, n) {
        PinnedStays(reg, mid, after, n);
      } else {
        PinnedBy(reg, after, name, n);
      }
    }
  }

  lemma PinnedBy(reg: Registry, resolved: Resolved, q: string, name: string)
    requires q in resolved && name in resolved
    requires Demanded(reg, DepsAt(reg, q, resolved[q].version), name, resolved[name].version)
    ensures Pinned(reg, resolved, name)
  {
  }

  lemma {:induction false} DepsSound(reg: Registry, deps: seq<Dependency>, path: seq<string>, before: Resolved,
                                     order: seq<string>) returns (order': seq<string>)
    requires Backed(reg, before) && BuildOrder(reg, before, order)
    requires ResolveDeps(reg, deps, path, before).Ok?
    ensures var after := ResolveDeps(reg, deps, path, before).value;
            && Grows(reg, path, before, order, after, order')
            && (forall d :: d in deps ==> d.name in after)
            && forall n :: n in after && n !in before ==>
                 Pinned(reg, after, n) || Demanded(reg, deps, n, after[n].version)
    decreases |FreeNames(reg, path)|, 1 + |deps|
  {
    hide Pinned, Demanded, BuildOrder, Backed, DepsBefore;
    if deps == [] {
      order' := order;
    } else {
      var v := BestMatch(reg, deps[0].name, deps[0].req).value;
      var mid := ResolveInner(reg, deps[0].name, v, path, before).value;
      var order1 := InnerSound(reg, deps[0].name, v, path, before, order);
      order' := DepsSound(reg, deps[1..], path, mid, order1);
      var after := ResolveDeps(reg, deps[1..], path, mid).value;
      forall n | n in after && n !in before
        ensures Pinned(reg, after, n) || Demanded(reg, deps, n, after[n].version)
      {
        if n !in mid {
          if !Pinned(reg, after, n) { DemandedByTail(reg, deps, n, after[n].version); }
        } else if n == deps[0].name {
          DemandedByHead(reg, deps, n, v);
        } else {
          PinnedStays(reg, mid, after, n);
        }
      }
    }
  }

  lemma DemandedByHead(reg: Registry, deps: seq<Dependency>, name: string, version: Version)
    requires deps != [] && Picks(reg, deps[0], name, version)
    ensures Demanded(reg, deps, name, version)
  {
  }

  lemma DemandedByTail(reg: Registry, deps: seq<Dependency>, name: string, version: Version)
    requires deps != [] && Demanded(reg, deps[1..], name, version)
    ensures Demanded(reg, deps, name, version)
  {
    var d :| d in deps[1..] && Picks(reg, d, name, version);
    assert d in deps;
  }

  // ---------- soundness ----------

  /** `d` is a requirement of a resolved package. */
  ghost predicate Held(reg: Registry, resolved: Resolved, d: Dependency) {
    exists q :: q in resolved && d in DepsAt(reg, q, resolved[q].version)
  }

  /** The plan of `resolved` is sorted by name, backed by the registry and closed under
      dependencies; the root has its highest version and is built last; every other version is
      the best match of a requirement held by the plan. */
  ghost predicate SoundPlan(reg: Registry, root: string, resolved: Resolved) {
    && Backed(reg, resolved)
    && (forall i, j :: 0 <= i < j < |resolved| ==> Ordering.Less(PlanOf(resolved)[i].name, PlanOf(resolved)[j].name))
    && root in resolved && HighestOf(reg, root) == Some(resolved[root].version)
    && (forall n :: n in resolved && n != root ==> Pinned(reg, resolved, n))
    && (forall d :: Held(reg, resolved, d) ==> d.name in resolved)
    && exists order :: BuildsUpTo(reg, resolved, order, root)
  }

  ghost predicate BuildsUpTo(reg: Registry, resolved: Resolved, order: seq<string>, root: string) {
    BuildOrder(reg, resolved, order) && order != [] && order[|order| - 1] == root
  }

  lemma PlanSorted(resolved: Resolved, i: nat, j: nat)
    requires i < j < |resolved| && forall n :: n in resolved ==> resolved[n].name == n
    ensures Ordering.Less(PlanOf(resolved)[i].name, PlanOf(resolved)[j].name)
  {
  }

  lemma HeldIsResolved(reg: Registry, resolved: Resolved, order: seq<string>, d: Dependency)
    requires BuildOrder(reg, resolved, order) && Held(reg, resolved, d)
    ensures d.name in resolved
    ensures d.name != order[|order| - 1]
  {
    hide DepsAt;
    var q :| q in resolved && d in DepsAt(reg, q, resolved[q].version);
    assert q in order;
    var i :| 0 <= i < |order| && order[i] == q;
    assert DepsBefore(reg, resolved, order, i);
    var j :| 0 <= j < i && order[..i][j] == d.name;
    assert order[j] in order;
  }

  /** Resolution soundness, for every registry and root. */
  lemma {:induction false} ResolutionSound(reg: Registry, root: string)
    ensures ResolveAll(reg, root).Ok? ==> SoundPlan(reg, root, ResolveAll(reg, root).value)
  {
    hide ResolveInner, BuildOrder, Pinned, DepsAt, PlanOf;
    if ResolveAll(reg, root).Ok? {
      var v, m := HighestOf(reg, root).value, ResolveAll(reg, root).value;
      EmptyOrder(reg);
      var order := InnerSound(reg, root, v, [], map[], []);
      forall i, j | 0 <= i < j < |m|
        ensures Ordering.Less(PlanOf(m)[i].name, PlanOf(m)[j].name)
      {
        PlanSorted(m, i, j);
      }
      forall d | Held(reg, m, d) ensures d.name in m { HeldIsResolved(reg, m, order, d); }
      assert BuildsUpTo(reg, m, order, root);
    }
  }

  lemma EmptyOrder(reg: Registry)
    ensures BuildOrder(reg, map[], [])
  {
  }

  // ---------- when requirements are met ----------

  /** Each requirement of the plan got the version it picks by itself. */
  ghost predicate EachGotItsPick(reg: Registry, resolved: Resolved) {
    forall d :: Held(reg, resolved, d) ==>
      d.name in resolved && BestMatch(reg, d.name, d.req) == Some(resolved[d.name].version)
  }

  /** All requirements of the plan on one name pick the same version. */
  ghost predicate RequirementsAgree(reg: Registry, resolved: Resolved) {
    forall d, e :: Held(reg, resolved, d) && Held(reg, resolved, e) && d.name == e.name ==>
      BestMatch(reg, d.name, d.req) == BestMatch(reg, e.name, e.req)
  }

  ghost predicate RequirementsMet(reg: Registry, resolved: Resolved) {
    forall d :: Held(reg, resolved, d) ==>
      d.name in resolved && Matches(d.req, resolved[d.name].version)
  }

  lemma PickOfPinned(reg: Registry, root: string, resolved: Resolved, d: Dependency)
    requires SoundPlan(reg, root, resolved) && RequirementsAgree(reg, resolved) && Held(reg, resolved, d)
    ensures d.name in resolved && BestMatch(reg, d.name, d.req) == Some(resolved[d.name].version)
  {
    hide BuildOrder, Backed, PlanOf, DepsAt, BestMatch, HighestOf;
    var order :| BuildsUpTo(reg, resolved, order, root);
    HeldIsResolved(reg, resolved, order, d);
    assert Pinned(reg, resolved, d.name);
    var q :| q in resolved && Demanded(reg, DepsAt(reg, q, resolved[q].version), d.name, resolved[d.name].version);
    var e :| e in DepsAt(reg, q, resolved[q].version) && Picks(reg, e, d.name, resolved[d.name].version);
    assert Held(reg, resolved, e);
  }

  /** A resolved name is reused whatever the next requirement on it says.  So every requirement
      gets its pick exactly if all requirements on one name have the same pick; and then all
      requirements are met. */
  lemma {:induction false} PicksAgree(reg: Registry, root: string)
    requires ResolveAll(reg, root).Ok?
    ensures var m := ResolveAll(reg, root).value;
            && (EachGotItsPick(reg, m) <==> RequirementsAgree(reg, m))
            && (RequirementsAgree(reg, m) ==> RequirementsMet(reg, m))
  {
    hide ResolveAll, Held, SoundPlan;
    ResolutionSound(reg, root);
    var m := ResolveAll(reg, root).value;
    if RequirementsAgree(reg, m) {
      forall d | Held(reg, m, d)
        ensures d.name in m && BestMatch(reg, d.name, d.req) == Some(m[d.name].version)
      {
        PickOfPinned(reg, root, m, d);
      }
    }
  }

  // ---------- lockfile ----------

  predicate NameSorted(entries: seq<ResolvedPkg>) {
    forall i, j :: 0 <= i < j < |entries| ==> !Ordering.Less(entries[j].name, entries[i].name)
  }

  lemma NotLessTransitive(a: string, b: string, c: string)
    requires !Ordering.Less(b, a) && !Ordering.Less(c, b)
    ensures !Ordering.Less(c, a)
  {
    LessTotal(b, c);
    if Ordering.Less(c, a) && b != c { LessTransitive(b, c, a); }
  }

  lemma InsertedInFront(p: ResolvedPkg, sorted: seq<ResolvedPkg>)
    requires NameSorted(sorted) && (sorted == [] || !Ordering.Less(sorted[0].name, p.name))
    ensures NameSorted([p] + sorted)
  {
    hide Ordering.Less;
    forall j | 0 <= j < |sorted|
      ensures !Ordering.Less(sorted[j].name, p.name)
    {
      if j > 0 { NotLessTransitive(p.name, sorted[0].name, sorted[j].name); }
    }
  }

  lemma InsertedBehind(p: ResolvedPkg, sorted: seq<ResolvedPkg>, rest: seq<ResolvedPkg>)
    requires NameSorted(sorted) && sorted != [] && Ordering.Less(sorted[0].name, p.name)
    requires NameSorted(rest) && multiset(rest) == multiset(sorted[1..]) + multiset{p}
    ensures NameSorted([sorted[0]] + rest) && multiset([sorted[0]] + rest) == multiset(sorted) + multiset{p}
  {
    hide Ordering.Less;
    assert sorted == [sorted[0]] + sorted[1..];
    LessAsymmetric(sorted[0].name, p.name);
    forall k | 0 <= k < |rest|
      ensures !Ordering.Less(rest[k].name, sorted[0].name)
    {
      assert rest[k] in multiset(rest);
      assert rest[k] == p || rest[k] in sorted[1..];
    }
  }

  lemma {:induction false} InsertSorted(p: ResolvedPkg, sorted: seq<ResolvedPkg>)
    requires NameSorted(sorted)
    ensures NameSorted(Insert(p, sorted)) && multiset(Insert(p, sorted)) == multiset(sorted) + multiset{p}
  {
    hide Ordering.Less;
    if sorted == [] || !Ordering.Less(sorted[0].name, p.name) {
      InsertedInFront(p, sorted);
    } else {
      InsertSorted(p, sorted[1..]);
      InsertedBehind(p, sorted, Insert(p, sorted[1..]));
    }
  }

  /** The entries of a lockfile are those of the plan, sorted by name, whatever the plan. */
  lemma {:induction false} LockIsSortedPlan(plan: seq<ResolvedPkg>)
    ensures NameSorted(SortByName(plan)) && multiset(SortByName(plan)) == multiset(plan)
  {
    if plan != [] {
      LockIsSortedPlan(plan[1..]);
      InsertSorted(plan[0], SortByName(plan[1..]));
      assert plan == [plan[0]] + plan[1..];
    }
  }

  /** Sorting keeps a plan that is sorted already, so a lockfile lists a resolved plan as it is. */
  lemma {:induction false} SortedPlanKept(plan: seq<ResolvedPkg>)
    requires NameSorted(plan)
    ensures SortByName(plan) == plan
  {
    hide Ordering.Less;
    if plan != [] {
      SortedPlanKept(plan[1..]);
      assert plan == [plan[0]] + plan[1..];
    }
  }

  lemma {:induction false} LockListsPlan(reg: Registry, root: string)
    requires ResolveAll(reg, root).Ok?
    ensures var plan := PlanOf(ResolveAll(reg, root).value); FromPlan(root, plan) == Lockfile(root, plan)
  {
    hide ResolveAll, Ordering.Less;
    ResolutionSound(reg, root);
    var plan := PlanOf(ResolveAll(reg, root).value);
    forall i, j | 0 <= i < j < |plan| ensures !Ordering.Less(plan[j].name, plan[i].name) {
      LessAsymmetric(plan[i].name, plan[j].name);
    }
    SortedPlanKept(plan);
  }

  /** The lockfile of a resolved plan verifies, against this registry and against every registry
      that still has the plan's packages. */
  lemma {:induction false} LockVerifies(reg: Registry, root: string, later: Registry)
    requires ResolveAll(reg, root).Ok?
    requires forall n, v :: Published(reg, n, v) ==> IntegrityOf(later, n, v) == IntegrityOf(reg, n, v)
    ensures VerifyLock(FromPlan(root, PlanOf(ResolveAll(reg, root).value)), later)
  {
    hide ResolveAll, SoundPlan;
    ResolutionSound(reg, root);
    var m := ResolveAll(reg, root).value;
    var plan := PlanOf(m);
    BackedPlan(reg, root, m);
    LockIsSortedPlan(plan);
    var entries := SortByName(plan);
    forall i | 0 <= i < |entries|
      ensures IntegrityOf(later, entries[i].name, entries[i].version) == Some(entries[i].integrity)
    {
      assert entries[i] in multiset(entries);
      assert entries[i] in plan;
      assert Published(reg, entries[i].name, entries[i].version);
    }
  }

  lemma BackedPlan(reg: Registry, root: string, m: Resolved)
    requires SoundPlan(reg, root, m)
    ensures forall p :: p in PlanOf(m) ==> IntegrityOf(reg, p.name, p.version) == Some(p.integrity)
  {
  }
}
