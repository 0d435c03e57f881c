/** The package registry of kai-os/pkg/src/registry.rs: immutable publishing, version choice,
    and depth-first resolution with pinned versions. */
module Registries {
  import opened Results
  import opened Hashing
  import opened Ordering
  import opened Versions

  datatype Dependency = Dependency(name: string, req: VersionReq)

  datatype Manifest = Manifest(name: string, version: Version, deps: seq<Dependency>)

  datatype PkgEntry = PkgEntry(manifest: Manifest, integrity: string)

  type Registry = map<string, map<Version, PkgEntry>>

  datatype PkgError =
    | DuplicateNameVersion(name: string, version: Version)
    | MissingDependency(name: string, req: VersionReq)
    | CycleDetected(name: string)
    | RegistryPoisoned(name: string)

  predicate Published(reg: Registry, name: string, version: Version) {
    name in reg && version in reg[name]
  }

  function EntryAt(reg: Registry, name: string, version: Version): Option<PkgEntry> {
    if Published(reg, name, version) then Some(reg[name][version]) else None
  }

  // ---------- publishing ----------

  /** A manifest with its content, one character a byte. */
  datatype Release = Release(manifest: Manifest, content: string)

  function EntryOf(r: Release): PkgEntry {
    PkgEntry(r.manifest, Sha(r.content))
  }

  function SlotOf(reg: Registry, name: string): map<Version, PkgEntry> {
    if name in reg then reg[name] else map[]
  }

  function PublishError(reg: Registry, r: Release): Option<PkgError> {
    var slot := SlotOf(reg, r.manifest.name);
    if r.manifest.version in slot && slot[r.manifest.version].integrity != Sha(r.content)
    then Some(DuplicateNameVersion(r.manifest.name, r.manifest.version)) else None
  }

  function Publish(reg: Registry, r: Release): Registry {
    var slot := SlotOf(reg, r.manifest.name);
    if r.manifest.version in slot then reg
    else reg[r.manifest.name := slot[r.manifest.version := EntryOf(r)]]
  }

  /** A publish is refused exactly if the version is there with other content, and then nothing
      changes.  Otherwise the entry has the digest of the content; it is the new one if the
      version was not there, and the old one with its manifest if it was. */
  lemma {:induction false} PublishAnswer(reg: Registry, r: Release)
    ensures var (before, after) := (EntryAt(reg, r.manifest.name, r.manifest.version),
                                    EntryAt(Publish(reg, r), r.manifest.name, r.manifest.version));
            && after == (if before.None? then Some(PkgEntry(r.manifest, Sha(r.content))) else before)
            && (PublishError(reg, r) == None <==> after.value.integrity == Sha(r.content))
            && (PublishError(reg, r) == Some(DuplicateNameVersion(r.manifest.name, r.manifest.version))
                <==> before.Some? && before.value.integrity != Sha(r.content))
            && (before.Some? ==> Publish(reg, r) == reg)
    ensures forall n, v :: n != r.manifest.name || v != r.manifest.version ==> EntryAt(Publish(reg, r), n, v) == EntryAt(reg, n, v)
  {
  }

  class PkgRegistry {
    var packages: Registry

    constructor ()
      ensures packages == map[]
    {
      packages := map[];
    }

    method PublishRelease(manifest: Manifest, content: string) returns (r: Option<PkgError>)
      modifies this
      ensures packages == Publish(old(packages), Release(manifest, content))
      ensures r == PublishError(old(packages), Release(manifest, content))
      ensures var e := EntryAt(packages, manifest.name, manifest.version);
              if e.Some? && e.value.integrity == Sha(content) then r == None
              else r == Some(DuplicateNameVersion(manifest.name, manifest.version)) && packages == old(packages)
    {
      var integrity := Sha(content);
      var slot := if manifest.name in packages then packages[manifest.name] else map[];
      if manifest.version in slot {
        var existing := slot[manifest.version];
        if existing.integrity != integrity {
          return Some(DuplicateNameVersion(manifest.name, manifest.version));
        }
        return None;
      }
      packages := packages[manifest.name := slot[manifest.version := PkgEntry(manifest, integrity)]];
      return None;
    }
  }

  // ---------- choosing versions ----------

  function BestMatch(reg: Registry, name: string, req: VersionReq): (r: Option<Version>)
    ensures r.Some? ==> Published(reg, name, r.value) && Matches(req, r.value)
    ensures r.Some? ==> forall w :: Published(reg, name, w) && Matches(req, w) && w != r.value ==> Older(w, r.value)
    ensures r.None? ==> forall w :: Published(reg, name, w) ==> !Matches(req, w)
  {
    if name !in reg then None
    else
      var matching := set v | v in reg[name] && Matches(req, v);
      var r := Highest(matching);
      assert forall w :: Published(reg, name, w) && Matches(req, w) ==> w in matching;
      r
  }

  function HighestOf(reg: Registry, name: string): (r: Option<Version>)
    ensures r.Some? ==> Published(reg, name, r.value)
    ensures r.Some? ==> forall w :: Published(reg, name, w) && w != r.value ==> Older(w, r.value)
    ensures r.None? <==> name !in reg || reg[name] == map[]
  {
    if name !in reg then None else Highest(reg[name].Keys)
  }

  // ---------- resolution ----------

  datatype ResolvedPkg = ResolvedPkg(name: string, version: Version, integrity: string)

  type Resolved = map<string, ResolvedPkg>

  function Elements(path: seq<string>): set<string> {
    set n | n in path
  }

  /** Published names that are not on the path. */
  function FreeNames(reg: Registry, path: seq<string>): set<string> {
    reg.Keys - Elements(path)
  }

  lemma PathGrows(reg: Registry, path: seq<string>, name: string)
    requires name in reg && name !in path
    ensures |FreeNames(reg, path + [name])| < |FreeNames(reg, path)|
  {
    assert FreeNames(reg, path + [name]) == FreeNames(reg, path) - {name};
  }

  function ResolveInner(reg: Registry, name: string, version: Version, path: seq<string>, resolved: Resolved)
    : Result<Resolved, PkgError>
    decreases |FreeNames(reg, path)|, 0
  {
    if name in path then Err(CycleDetected(name))
    else if name in resolved then Ok(resolved)
    else if !Published(reg, name, version) then Err(RegistryPoisoned(name))
    else
      PathGrows(reg, path, name);
      var entry := reg[name][version];
      match ResolveDeps(reg, entry.manifest.deps, path + [name], resolved)
      case Err(e) => Err(e)
      case Ok(r) => Ok(r[name := ResolvedPkg(name, version, entry.integrity)])
  }

  function ResolveDeps(reg: Registry, deps: seq<Dependency>, path: seq<string>, resolved: Resolved)
    : Result<Resolved, PkgError>
    decreases |FreeNames(reg, path)|, 1 + |deps|
  {
    if deps == [] then Ok(resolved)
    else match BestMatch(reg, deps[0].name, deps[0].req)
      case None => Err(MissingDependency(deps[0].name, deps[0].req))
      case Some(v) =>
        match ResolveInner(reg, deps[0].name, v, path, resolved)
        case Err(e) => Err(e)
        case Ok(r) => ResolveDeps(reg, deps[1..], path, r)
  }

  function ResolveAll(reg: Registry, root: string): Result<Resolved, PkgError> {
    match HighestOf(reg, root)
    case None => Err(RegistryPoisoned(root))
    case Some(v) => ResolveInner(reg, root, v, [], map[])
  }

  /** The plan: the resolved packages in name order. */
  function PlanOf(resolved: Resolved): (plan: seq<ResolvedPkg>)
    ensures |plan| == |resolved|
    ensures var keys := SortedKeys(resolved.Keys);
            forall i :: 0 <= i < |plan| ==> keys[i] in resolved && plan[i] == resolved[keys[i]]
  {
    var keys := SortedKeys(resolved.Keys);
    assert forall i :: 0 <= i < |keys| ==> keys[i] in keys;
    seq(|keys|, i requires 0 <= i < |keys| => resolved[keys[i]])
  }

  /** The search with its mutable path and result map. */
  class Resolver {
    const reg: Registry
    var path: seq<string>
    var resolved: Resolved

    constructor (reg: Registry)
      ensures this.reg == reg && path == [] && resolved == map[]
    {
      this.reg := reg;
      path := [];
      resolved := map[];
    }

    method Inner(name: string, version: Version) returns (r: Option<PkgError>)
      modifies this
      ensures match ResolveInner(reg, name, version, old(path), old(resolved))
              case Ok(m) => r == None && resolved == m && path == old(path)
              case Err(e) => r == Some(e)
      decreases |FreeNames(reg, path)|
    {
      if name in path { return Some(CycleDetected(name)); }
      if name in resolved { return None; }
      if !Published(reg, name, version) { return Some(RegistryPoisoned(name)); }
      var entry := reg[name][version];
      PathGrows(reg, path, name);
      path := path + [name];
      ghost var result := ResolveDeps(reg, entry.manifest.deps, path, resolved);
      var deps := entry.manifest.deps;
      for i := 0 to |deps|
        invariant path == old(path) + [name]
        invariant ResolveDeps(reg, deps[i..], path, resolved) == result
      {
        assert deps[i..][0] == deps[i] && deps[i..][1..] == deps[i + 1..];
        var version := BestMatch(reg, deps[i].name, deps[i].req);
        if version.None? { return Some(MissingDependency(deps[i].name, deps[i].req)); }
        r := Inner(deps[i].name, version.value);
        if r.Some? { return; }
      }
      path := path[..|path| - 1];
      resolved := resolved[name := ResolvedPkg(name, version, entry.integrity)];
      return None;
    }
  }

  method Resolve(reg: Registry, root: string) returns (r: Result<seq<ResolvedPkg>, PkgError>)
    ensures r == match ResolveAll(reg, root)
                 case Ok(m) => Ok(PlanOf(m))
                 case Err(e) => Err(e)
  {
    var version := HighestOf(reg, root);
    if version.None? { return Err(RegistryPoisoned(root)); }
    var resolver := new Resolver(reg);
    var error := resolver.Inner(root, version.value);
    if error.Some? { return Err(error.value); }
    return Ok(PlanOf(resolver.resolved));
  }

  // ---------- lockfile ----------

  function IntegrityOf(reg: Registry, name: string, version: Version): Option<string> {
    if Published(reg, name, version) then Some(reg[name][version].integrity) else None
  }

  /** A lock entry has the fields of a resolved package. */
  datatype Lockfile = Lockfile(root: string, entries: seq<ResolvedPkg>)

  /** A stable insertion sort by name, standing for `sort_by`. */
  function Insert(p: ResolvedPkg, sorted: seq<ResolvedPkg>): seq<ResolvedPkg> {
    if sorted == [] || !Less(sorted[0].name, p.name) then [p] + sorted
    else [sorted[0]] + Insert(p, sorted[1..])
  }

  function SortByName(entries: seq<ResolvedPkg>): seq<ResolvedPkg> {
    if entries == [] then [] else Insert(entries[0], SortByName(entries[1..]))
  }

  function FromPlan(root: string, plan: seq<ResolvedPkg>): Lockfile {
    Lockfile(root, SortByName(plan))
  }

  predicate VerifyLock(lock: Lockfile, reg: Registry) {
    forall i :: 0 <= i < |lock.entries| ==>
      var e := lock.entries[i]; IntegrityOf(reg, e.name, e.version) == Some(e.integrity)
  }

  /** A lockfile verifies exactly if each of its entries is published under its name and version
      with the integrity that it lists. */
  lemma VerifiesIff(lock: Lockfile, reg: Registry)
    ensures VerifyLock(lock, reg)
       <==> forall e :: e in lock.entries ==>
              EntryAt(reg, e.name, e.version).Some? && EntryAt(reg, e.name, e.version).value.integrity == e.integrity
  {
    if VerifyLock(lock, reg) {
      forall e | e in lock.entries
        ensures EntryAt(reg, e.name, e.version).Some? && EntryAt(reg, e.name, e.version).value.integrity == e.integrity
      {
        var i :| 0 <= i < |lock.entries| && lock.entries[i] == e;
        assert IntegrityOf(reg, e.name, e.version) == Some(e.integrity);
      }
    }
  }
}
