/** The early return of the resolution search, and exactly when it leaves a requirement unmet. */
module ReusedVersions {
  import opened Results
  import opened Versions
  import opened Registries
  import opened Resolution
  import opened Publishing

  /** A requirement that was answered with a version resolved earlier. */
  datatype Reuse = Reuse(dep: Dependency, version: Version)

  ghost function ReusesInner(reg: Registry, name: string, version: Version, path: seq<string>, resolved: Resolved): set<Reuse>
    decreases |FreeNames(reg, path)|, 0
  {
    if name in path || name in resolved || !Published(reg, name, version) then {}
    else
      PathGrows(reg, path, name);
      ReusesDeps(reg, reg[name][version].manifest.deps, path + [name], resolved)
  }

  /** The early returns taken while the requirements of one package are resolved. */
  ghost function ReusesDeps(reg: Registry, deps: seq<Dependency>, path: seq<string>, resolved: Resolved): set<Reuse>
    decreases |FreeNames(reg, path)|, 1 + |deps|
  {
    if deps == [] then {}
    else match BestMatch(reg, deps[0].name, deps[0].req)
      case None => {}
      case Some(v) =>
        (if deps[0].name in resolved then {Reuse(deps[0], resolved[deps[0].name].version)} else {})
        + ReusesInner(reg, deps[0].name, v, path, resolved)
        + match ResolveInner(reg, deps[0].name, v, path, resolved)
          case Err(_) => {}
          case Ok(r) => ReusesDeps(reg, deps[1..], path, r)
  }

  ghost function Reuses(reg: Registry, root: string): set<Reuse> {
    match HighestOf(reg, root)
    case None => {}
    case Some(v) => ReusesInner(reg, root, v, [], map[])
  }

  ghost predicate AllFit(reuses: set<Reuse>) {
    forall u :: u in reuses ==> Matches(u.dep.req, u.version)
  }

  ghost predicate MetIn(after: Resolved, deps: seq<Dependency>) {
    forall d :: d in deps ==> d.name in after && Matches(d.req, after[d.name].version)
  }

  ghost predicate NewMet(reg: Registry, before: Resolved, after: Resolved) {
    forall q :: q in after && q !in before ==> MetIn(after, DepsAt(reg, q, after[q].version))
  }

  lemma MetStays(mid: Resolved, after: Resolved, deps: seq<Dependency>)
    requires Extends(mid, after) && forall d :: d in deps ==> d.name in mid
    ensures MetIn(mid, deps) <==> MetIn(after, deps)
  {
  }

  /** The dependencies of every resolved package are resolved. */
  lemma Closed(reg: Registry, resolved: Resolved, order: seq<string>, q: string)
    requires BuildOrder(reg, resolved, order) && q in resolved
    ensures forall d :: d in DepsAt(reg, q, resolved[q].version) ==> d.name in resolved
  {
    hide DepsAt;
    forall d | d in DepsAt(reg, q, resolved[q].version)
      ensures d.name in resolved
    {
      assert Held(reg, resolved, d);
      HeldIsResolved(reg, resolved, order, d);
    }
  }

  lemma NewMetInTwoSteps(reg: Registry, before: Resolved, mid: Resolved, after: Resolved, order: seq<string>)
    requires Extends(before, mid) && Extends(mid, after) && BuildOrder(reg, mid, order)
    ensures NewMet(reg, before, after) <==> NewMet(reg, before, mid) && NewMet(reg, mid, after)
  {
    hide MetIn, DepsAt, BuildOrder;
    forall q | q in mid
      ensures MetIn(mid, DepsAt(reg, q, mid[q].version)) <==> MetIn(after, DepsAt(reg, q, after[q].version))
    {
      Closed(reg, mid, order, q);
      MetStays(mid, after, DepsAt(reg, q, mid[q].version));
    }
  }

  lemma {:induction false} InnerFit(reg: Registry, name: string, version: Version, path: seq<string>, before: Resolved, order: seq<string>)
    requires Backed(reg, before) && BuildOrder(reg, before, order)
    requires ResolveInner(reg, name, version, path, before).Ok?
    ensures AllFit(ReusesInner(reg, name, version, path, before))
       <==> NewMet(reg, before, ResolveInner(reg, name, version, path, before).value)
    decreases |FreeNames(reg, path)|, 0
  {
    hide AllFit, FreeNames, BuildOrder, Backed, MetIn, Pinned, Demanded;
    if name in before {
      NothingReused();
    } else {
      PathGrows(reg, path, name);
      var deps := reg[name][version].manifest.deps;
      var mid := ResolveDeps(reg, deps, path + [name], before).value;
      var order' := DepsSound(reg, deps, path + [name], before, order);
      DepsFit(reg, deps, path + [name], before, order);
      assert name in path + [name];
      var after := mid[name := ResolvedPkg(name, version, reg[name][version].integrity)];
      AnchoredFit(reg, before, mid, after, order', name, version);
    }
  }

  lemma NothingReused()
    ensures AllFit({})
  {
  }

  lemma AnchoredFit(reg: Registry, before: Resolved, mid: Resolved, after: Resolved, order: seq<string>, name: string, version: Version)
    requires Extends(before, mid) && BuildOrder(reg, mid, order) && name !in mid && Published(reg, name, version)
    requires after == mid[name := ResolvedPkg(name, version, reg[name][version].integrity)]
    requires forall d :: d in DepsAt(reg, name, version) ==> d.name in mid
    ensures NewMet(reg, before, after) <==> NewMet(reg, before, mid) && MetIn(mid, DepsAt(reg, name, version))
  {
    hide MetIn, DepsAt, BuildOrder;
    NewMetInTwoSteps(reg, before, mid, after, order);
    MetStays(mid, after, DepsAt(reg, name, version));
    assert after[name].version == version;
  }

  lemma {:induction false} DepsFit(reg: Registry, deps: seq<Dependency>, path: seq<string>, before: Resolved, order: seq<string>)
    requires Backed(reg, before) && BuildOrder(reg, before, order)
    requires ResolveDeps(reg, deps, path, before).Ok?
    ensures var after := ResolveDeps(reg, deps, path, before).value;
            AllFit(ReusesDeps(reg, deps, path, before)) <==> NewMet(reg, before, after) && MetIn(after, deps)
    decreases |FreeNames(reg, path)|, 1 + |deps|
  {
    hide FreeNames, BuildOrder, Backed, Pinned, Demanded, DepsAt;
    if deps != [] {
      var d := deps[0];
      var v := BestMatch(reg, d.name, d.req).value;
      var mid := ResolveInner(reg, d.name, v, path, before).value;
      var after := ResolveDeps(reg, deps[1..], path, mid).value;
      var order1 := InnerSound(reg, d.name, v, path, before, order);
      var order2 := DepsSound(reg, deps[1..], path, mid, order1);
      InnerFit(reg, d.name, v, path, before, order);
      DepsFit(reg, deps[1..], path, mid, order1);
      NewMetInTwoSteps(reg, before, mid, after, order1);
      HeadMet(after, deps);
    }
  }

  lemma HeadMet(after: Resolved, deps: seq<Dependency>)
    requires deps != [] && deps[0].name in after
    ensures MetIn(after, deps) <==> Matches(deps[0].req, after[deps[0].name].version) && MetIn(after, deps[1..])
  {
    assert deps == [deps[0]] + deps[1..];
  }

  /** The plan meets all its requirements exactly if every early return happened to reuse a
      version that fits the requirement at hand. */
  lemma {:induction false} MetExactlyIfReusesFit(reg: Registry, root: string)
    requires ResolveAll(reg, root).Ok?
    ensures RequirementsMet(reg, ResolveAll(reg, root).value) <==> AllFit(Reuses(reg, root))
  {
    hide ResolveInner, ReusesInner, AllFit, DepsAt, BuildOrder;
    EmptyOrder(reg);
    InnerFit(reg, root, HighestOf(reg, root).value, [], map[], []);
    var m := ResolveAll(reg, root).value;
    if NewMet(reg, map[], m) {
      forall d | Held(reg, m, d)
        ensures d.name in m && Matches(d.req, m[d.name].version)
      {
        var q :| q in m && d in DepsAt(reg, q, m[q].version);
      }
    }
    if RequirementsMet(reg, m) {
      forall q | q in m
        ensures MetIn(m, DepsAt(reg, q, m[q].version))
      {
        forall d | d in DepsAt(reg, q, m[q].version)
          ensures d.name in m && Matches(d.req, m[d.name].version)
        {
          assert Held(reg, m, d);
        }
      }
    }
  }

  // ---------- a requirement that is not met ----------

  lemma ExactPick(reg: Registry, name: string, v: Version)
    requires Published(reg, name, v)
    ensures BestMatch(reg, name, Exact(v)) == Some(v)
  {
  }

  lemma ResolveLeaf(reg: Registry, name: string, v: Version, path: seq<string>, before: Resolved)
    requires name !in path && name !in before && Published(reg, name, v) && reg[name][v].manifest.deps == []
    ensures ResolveInner(reg, name, v, path, before) == Ok(before[name := ResolvedPkg(name, v, reg[name][v].integrity)])
  {
    PathGrows(reg, path, name);
  }

  lemma ReuseOne(reg: Registry, d: Dependency, v: Version, path: seq<string>, before: Resolved)
    requires BestMatch(reg, d.name, d.req) == Some(v) && d.name !in path && d.name in before
    ensures ResolveDeps(reg, [d], path, before) == Ok(before)
  {
    assert [d][1..] == [];
  }

  /** Four releases, published in this order: `root` needs exactly version `v` of `lib` and of
      `tool`; `tool` needs exactly version `w` of `lib`. */
  function Diamond(root: string, tool: string, lib: string, v: Version, w: Version, contents: seq<string>): seq<Release>
    requires |contents| == 4
  {
    [Release(Manifest(lib, v, []), contents[0]),
     Release(Manifest(lib, w, []), contents[1]),
     Release(Manifest(tool, v, [Dependency(lib, Exact(w))]), contents[2]),
     Release(Manifest(root, v, [Dependency(lib, Exact(v)), Dependency(tool, Exact(v))]), contents[3])]
  }

  lemma {:induction false} DiamondRegistry(root: string, tool: string, lib: string, v: Version, w: Version, contents: seq<string>)
    requires |contents| == 4 && root != tool && root != lib && tool != lib && v != w
    ensures var (rs, reg) := (Diamond(root, tool, lib, v, w, contents), RegistryOf(Diamond(root, tool, lib, v, w, contents)));
            && reg.Keys == {root, tool, lib}
            && reg[root] == map[v := EntryOf(rs[3])] && reg[tool] == map[v := EntryOf(rs[2])]
            && reg[lib] == map[v := EntryOf(rs[0]), w := EntryOf(rs[1])]
  {
    hide EntryOf;
    var rs := Diamond(root, tool, lib, v, w, contents);
    assert rs[..0] == [] && rs[..1][..0] == rs[..0] && rs[..2][..1] == rs[..1] && rs[..3][..2] == rs[..2] && rs[..4] == rs;
    assert RegistryOf(rs[..0]) == map[];
    assert RegistryOf(rs[..1]) == map[lib := map[v := EntryOf(rs[0])]];
    assert RegistryOf(rs[..2]) == map[lib := map[v := EntryOf(rs[0]), w := EntryOf(rs[1])]];
    assert RegistryOf(rs[..3]) == RegistryOf(rs[..2])[tool := map[v := EntryOf(rs[2])]];
    assert RegistryOf(rs[..4]) == RegistryOf(rs[..3])[root := map[v := EntryOf(rs[3])]];
  }

  /** However the four releases are filled, resolution succeeds with a plan that breaks the
      requirement of `tool`, although the required version is published. */
  lemma {:induction false} DiamondBreaksRequirement(root: string, tool: string, lib: string, v: Version, w: Version,
                                                   contents: seq<string>)
    requires |contents| == 4 && root != tool && root != lib && tool != lib && v != w
    ensures var reg := RegistryOf(Diamond(root, tool, lib, v, w, contents));
            ResolveAll(reg, root).Ok? && !RequirementsMet(reg, ResolveAll(reg, root).value)
  {
    hide ResolveInner, ResolveDeps, BestMatch, HighestOf, RegistryOf;
    var rs := Diamond(root, tool, lib, v, w, contents);
    var reg := RegistryOf(rs);
    DiamondRegistry(root, tool, lib, v, w, contents);
    var a := map[lib := ResolvedPkg(lib, v, EntryOf(rs[0]).integrity)];
    var b := a[tool := ResolvedPkg(tool, v, EntryOf(rs[2]).integrity)];
    ExactPick(reg, lib, v);
    ExactPick(reg, lib, w);
    ExactPick(reg, tool, v);
    ResolveLeaf(reg, lib, v, [root], map[]);
    ReuseOne(reg, Dependency(lib, Exact(w)), w, [root, tool], a);
    assert [root] + [tool] == [root, tool];
    ResolveTool(reg, tool, v, [root], a);
    ResolveTwo(reg, Dependency(lib, Exact(v)), Dependency(tool, Exact(v)), v, [root], map[], a, b);
    ResolveRoot(reg, root, v, b);
    var m := b[root := ResolvedPkg(root, v, EntryOf(rs[3]).integrity)];
    assert Dependency(lib, Exact(w)) in DepsAt(reg, tool, m[tool].version);
    assert Held(reg, m, Dependency(lib, Exact(w)));
  }

  lemma ResolveTool(reg: Registry, name: string, v: Version, path: seq<string>, before: Resolved)
    requires name !in path && name !in before && Published(reg, name, v)
    requires ResolveDeps(reg, reg[name][v].manifest.deps, path + [name], before) == Ok(before)
    ensures ResolveInner(reg, name, v, path, before) == Ok(before[name := ResolvedPkg(name, v, reg[name][v].integrity)])
  {
    PathGrows(reg, path, name);
  }

  lemma ResolveTwo(reg: Registry, d: Dependency, e: Dependency, v: Version, path: seq<string>, before: Resolved, a: Resolved, b: Resolved)
    requires BestMatch(reg, d.name, d.req) == Some(v) && ResolveInner(reg, d.name, v, path, before) == Ok(a)
    requires BestMatch(reg, e.name, e.req) == Some(v) && ResolveInner(reg, e.name, v, path, a) == Ok(b)
    ensures ResolveDeps(reg, [d, e], path, before) == Ok(b)
  {
    hide ResolveInner, BestMatch;
    assert [d, e][1..] == [e] && [e][1..] == [];
    assert ResolveDeps(reg, [], path, b) == Ok(b);
    assert ResolveDeps(reg, [e], path, a) == Ok(b);
  }

  lemma ResolveRoot(reg: Registry, root: string, v: Version, deps: Resolved)
    requires root in reg && reg[root].Keys == {v} && root !in deps
    requires ResolveDeps(reg, reg[root][v].manifest.deps, [root], map[]) == Ok(deps)
    ensures ResolveAll(reg, root) == Ok(deps[root := ResolvedPkg(root, v, reg[root][v].integrity)])
  {
    hide ResolveDeps;
    assert HighestOf(reg, root) == Some(v) by {
      assert Published(reg, root, v);
    }
    PathGrows(reg, [], root);
    assert [] + [root] == [root];
  }
}
