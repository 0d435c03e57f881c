/** What a list of publishes leaves: entries never change, and the order matters exactly when two
    releases under one name and version differ. */
module Publishing {
  import opened Results
  import opened Hashing
  import opened Versions
  import opened Registries
  import opened Resolution

  function RegistryOf(releases: seq<Release>): Registry {
    if releases == [] then map[]
    else Publish(RegistryOf(releases[..|releases| - 1]), releases[|releases| - 1])
  }

  predicate IsFor(r: Release, name: string, version: Version) {
    r.manifest.name == name && r.manifest.version == version
  }

  /** The entry of the first release under a name and version. */
  function FirstOf(releases: seq<Release>, name: string, version: Version): Option<PkgEntry> {
    if releases == [] then None
    else
      var earlier := FirstOf(releases[..|releases| - 1], name, version);
      var last := releases[|releases| - 1];
      if earlier.None? && IsFor(last, name, version) then Some(EntryOf(last)) else earlier
  }

  lemma {:induction false} FirstPublishWins(releases: seq<Release>, name: string, version: Version)
    ensures EntryAt(RegistryOf(releases), name, version) == FirstOf(releases, name, version)
  {
    if releases != [] { FirstPublishWins(releases[..|releases| - 1], name, version); }
  }

  // ---------- immutability ----------

  lemma {:induction false} EntriesNeverChange(before: seq<Release>, later: seq<Release>, name: string, version: Version)
    ensures var e := EntryAt(RegistryOf(before), name, version);
            e.Some? ==> EntryAt(RegistryOf(before + later), name, version) == e
    decreases |later|
  {
    if later == [] {
      assert before + later == before;
    } else {
      EntriesNeverChange(before, later[..|later| - 1], name, version);
      assert (before + later)[..|before + later| - 1] == before + later[..|later| - 1];
    }
  }

  /** A lockfile keeps verifying under any later publishes. */
  lemma {:induction false} LockStaysValid(before: seq<Release>, later: seq<Release>, root: string)
    requires ResolveAll(RegistryOf(before), root).Ok?
    ensures VerifyLock(FromPlan(root, PlanOf(ResolveAll(RegistryOf(before), root).value)), RegistryOf(before + later))
  {
    hide ResolveAll, VerifyLock, RegistryOf;
    forall n, v | Published(RegistryOf(before), n, v)
      ensures IntegrityOf(RegistryOf(before + later), n, v) == IntegrityOf(RegistryOf(before), n, v)
    {
      EntriesNeverChange(before, later, n, v);
    }
    LockVerifies(RegistryOf(before), root, RegistryOf(before + later));
  }

  // ---------- order ----------

  predicate SameKey(r: Release, s: Release) {
    r.manifest.name == s.manifest.name && r.manifest.version == s.manifest.version
  }

  /** Releases under one name and version make one entry. */
  ghost predicate Consistent(releases: seq<Release>) {
    forall i, j :: 0 <= i < |releases| && 0 <= j < |releases| && SameKey(releases[i], releases[j]) ==>
      EntryOf(releases[i]) == EntryOf(releases[j])
  }

  lemma {:induction false} FirstOfMeaning(releases: seq<Release>, name: string, version: Version)
    ensures var f := FirstOf(releases, name, version);
            && (f.None? ==> forall i :: 0 <= i < |releases| ==> !IsFor(releases[i], name, version))
            && (f.Some? ==> exists i :: 0 <= i < |releases| && IsFor(releases[i], name, version) && EntryOf(releases[i]) == f.value)
  {
    if releases != [] {
      var init := releases[..|releases| - 1];
      FirstOfMeaning(init, name, version);
      if FirstOf(init, name, version).Some? {
        var i :| 0 <= i < |init| && IsFor(init[i], name, version) && EntryOf(init[i]) == FirstOf(init, name, version).value;
        assert releases[i] == init[i];
      } else {
        assert forall i :: 0 <= i < |init| ==> releases[i] == init[i];
      }
    }
  }

  ghost predicate NoEmptySlot(reg: Registry) {
    forall n :: n in reg ==> reg[n] != map[]
  }

  lemma {:induction false} SlotsNotEmpty(releases: seq<Release>)
    ensures NoEmptySlot(RegistryOf(releases))
  {
    if releases != [] {
      var init, r := releases[..|releases| - 1], releases[|releases| - 1];
      SlotsNotEmpty(init);
      var slot := SlotOf(RegistryOf(init), r.manifest.name);
      assert r.manifest.version in slot[r.manifest.version := EntryOf(r)];
    }
  }

  lemma SameEntriesSameRegistry(a: Registry, b: Registry)
    requires NoEmptySlot(a) && NoEmptySlot(b)
    requires forall n, v :: EntryAt(a, n, v) == EntryAt(b, n, v)
    ensures a == b
  {
    forall n ensures n in a <==> n in b {
      if n in a { InBoth(a, b, n); }
      if n in b { InBoth(b, a, n); }
    }
    forall n | n in a
      ensures a[n] == b[n]
    {
      forall v ensures v in a[n] <==> v in b[n] {
        assert EntryAt(a, n, v) == EntryAt(b, n, v);
      }
      forall v | v in a[n] ensures a[n][v] == b[n][v] {
        assert EntryAt(a, n, v) == EntryAt(b, n, v);
      }
    }
  }

  lemma InBoth(a: Registry, b: Registry, n: string)
    requires NoEmptySlot(a) && n in a
    requires forall v :: EntryAt(a, n, v) == EntryAt(b, n, v)
    ensures n in b
  {
    NonEmpty(a[n]);
    var v :| v in a[n];
    assert EntryAt(a, n, v).Some?;
  }

  lemma NonEmpty(m: map<Version, PkgEntry>)
    requires m != map[]
    ensures exists v :: v in m
  {
    assert |m| != 0;
  }

  /** Publish order independence: lists with the same consistent releases, in any order and with
      any repetitions, give the same registry, hence the same choices, plans and lockfiles. */
  lemma {:induction false} OrderDoesNotMatter(a: seq<Release>, b: seq<Release>)
    requires Consistent(a) && forall r :: r in a <==> r in b
    ensures RegistryOf(a) == RegistryOf(b)
  {
    hide RegistryOf, FirstOf, EntryOf;
    forall n, v
      ensures EntryAt(RegistryOf(a), n, v) == EntryAt(RegistryOf(b), n, v)
    {
      FirstPublishWins(a, n, v);
      FirstPublishWins(b, n, v);
      FirstOfMeaning(a, n, v);
      FirstOfMeaning(b, n, v);
      SameFirst(a, b, n, v);
    }
    SlotsNotEmpty(a);
    SlotsNotEmpty(b);
    SameEntriesSameRegistry(RegistryOf(a), RegistryOf(b));
  }

  lemma SameFirst(a: seq<Release>, b: seq<Release>, name: string, version: Version)
    requires Consistent(a) && forall r :: r in a <==> r in b
    ensures FirstOf(a, name, version) == FirstOf(b, name, version)
  {
    hide FirstOf, EntryOf;
    FirstOfMeaning(a, name, version);
    FirstOfMeaning(b, name, version);
    var f, g := FirstOf(a, name, version), FirstOf(b, name, version);
    if f.Some? {
      var i :| 0 <= i < |a| && IsFor(a[i], name, version) && EntryOf(a[i]) == f.value;
      assert a[i] in b;
    }
    if g.Some? {
      var j :| 0 <= j < |b| && IsFor(b[j], name, version) && EntryOf(b[j]) == g.value;
      assert b[j] in a;
    }
  }

  lemma {:induction false} FirstStays(r: Release, rest: seq<Release>)
    ensures FirstOf([r] + rest, r.manifest.name, r.manifest.version) == Some(EntryOf(r))
  {
    var all := [r] + rest;
    if rest == [] {
      assert all[..0] == [] && all[0] == r;
      assert FirstOf([], r.manifest.name, r.manifest.version) == None;
    } else {
      FirstStays(r, rest[..|rest| - 1]);
      assert all[..|all| - 1] == [r] + rest[..|rest| - 1];
    }
  }

  lemma ToFront(releases: seq<Release>, i: nat) returns (moved: seq<Release>)
    requires i < |releases|
    ensures moved != [] && moved == [releases[i]] + moved[1..]
    ensures multiset(moved) == multiset(releases)
  {
    moved := [releases[i]] + (releases[..i] + releases[i + 1..]);
    assert releases == releases[..i] + [releases[i]] + releases[i + 1..];
  }

  /** The order of a list matters exactly if two of its releases under one name and version make
      different entries. */
  lemma {:induction false} OrderMattersIffInconsistent(releases: seq<Release>)
    ensures Consistent(releases) <==>
            forall a: seq<Release> :: multiset(a) == multiset(releases) ==> RegistryOf(a) == RegistryOf(releases)
  {
    hide RegistryOf, FirstOf, EntryOf;
    if Consistent(releases) {
      forall a: seq<Release> | multiset(a) == multiset(releases)
        ensures RegistryOf(a) == RegistryOf(releases)
      {
        assert forall r :: r in releases <==> r in multiset(releases);
        assert forall r :: r in a <==> r in multiset(a);
        OrderDoesNotMatter(releases, a);
      }
    } else {
      var i, j :| 0 <= i < |releases| && 0 <= j < |releases| && SameKey(releases[i], releases[j])
                  && EntryOf(releases[i]) != EntryOf(releases[j]);
      var a := ToFront(releases, i);
      var b := ToFront(releases, j);
      var n, v := releases[i].manifest.name, releases[i].manifest.version;
      FirstStays(releases[i], a[1..]);
      FirstStays(releases[j], b[1..]);
      FirstPublishWins(a, n, v);
      FirstPublishWins(b, n, v);
      assert RegistryOf(a) != RegistryOf(b);
    }
  }

  /** A second manifest with the same content is accepted and ignored, so the promise that only
      identical publishes are repeated holds for contents, not for manifests. */
  lemma {:induction false} OtherManifestIsIgnored(reg: Registry, r: Release, deps: seq<Dependency>)
    ensures PublishError(Publish(reg, r), r.(manifest := r.manifest.(deps := deps))) == PublishError(reg, r)
    ensures PublishError(reg, r).None? ==>
              Publish(Publish(reg, r), r.(manifest := r.manifest.(deps := deps))) == Publish(reg, r)
  {
  }
}
