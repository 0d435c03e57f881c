/** Snapshot transfer: kai-os/state/src/snapshot.rs, and the same message as the sync daemon
    sends it (kai-os/syncd/src/lib.rs). */
module Snapshots {
  import opened Results
  import opened Hashing
  import opened Merkle
  import opened MerkleBinding
  import opened StateStores
  import opened BlockSync

  datatype Snapshot =
    Snapshot(height: nat, tipBlockHash: string, stateRoot: string, entries: seq<(string, string)>)

  /** `Snapshot::from_state` and `snapshot_from_store`. */
  function FromState(height: nat, tipBlockHash: string, state: Entries): Snapshot {
    Snapshot(height, tipBlockHash, Root(state), EntryList(state))
  }

  /** `verify_against`: the entry list is collected into a map, where a repeated key keeps its
      last value, before its root is compared with the claimed and the trusted one. */
  function VerifyAgainst(snap: Snapshot, height: nat, root: string): Result<(), SyncError> {
    if snap.height != height then Err(SnapshotHeightMismatch(height, snap.height))
    else
      var entries := Rebuild(snap.entries);
      var computed := if |entries| == 0 then EMPTY_ROOT else Root(entries);
      if computed != snap.stateRoot then Err(SnapshotRootMismatch(snap.stateRoot, computed))
      else if computed != root then Err(SnapshotRootMismatch(computed, root))
      else Ok(())
  }

  method ToState(snap: Snapshot) returns (state: StateStore)
    ensures fresh(state) && state.entries == Rebuild(snap.entries)
  {
    state := RebuildStore(snap.entries);
  }

  /** A snapshot survives the transfer, and is accepted against its own state. */
  lemma {:induction false} TransferRoundTrip(height: nat, tip: string, state: Entries)
    ensures Rebuild(FromState(height, tip, state).entries) == state
    ensures VerifyAgainst(FromState(height, tip, state), height, Root(state)) == Ok(())
  {
    RebuildEntryList(state);
  }

  lemma AcceptedIffRoot(snap: Snapshot, height: nat, root: string)
    ensures VerifyAgainst(snap, height, root).Ok?
       <==> snap.height == height && snap.stateRoot == root && Root(Rebuild(snap.entries)) == root
  {
    hide Rebuild;
  }

  /** The answers of `verify_against`: a wrong height first, then a claimed root that is not that
      of the entries, then a root that is not the trusted one. */
  lemma SnapshotAnswers(snap: Snapshot, height: nat, root: string)
    ensures var (r, computed) := (VerifyAgainst(snap, height, root), Root(Rebuild(snap.entries)));
            && (r == Err(SnapshotHeightMismatch(height, snap.height)) <==> snap.height != height)
            && (snap.height == height && computed != snap.stateRoot <==>
                  snap.stateRoot != computed && r == Err(SnapshotRootMismatch(snap.stateRoot, computed)))
            && (snap.height == height && computed == snap.stateRoot && computed != root ==>
                  r == Err(SnapshotRootMismatch(computed, root)))
  {
    hide Rebuild;
  }

  /** Any snapshot, sorted or not, with or without repeated keys, is accepted against the root
      of a trusted state exactly if its fields are right and it rebuilds to a state with that
      root.  If no key is a digest or holds a bar, it then rebuilds to the trusted state; the
      only other possibility is a collision. */
  lemma {:induction false} AcceptedIsTrusted(snap: Snapshot, height: nat, trusted: Entries)
    ensures var (accepted, rebuilt) := (VerifyAgainst(snap, height, Root(trusted)).Ok?, Rebuild(snap.entries));
            var fields := snap.height == height && snap.stateRoot == Root(trusted);
            && (accepted <==> fields && Root(rebuilt) == Root(trusted))
            && (WellFormed(trusted) && WellFormed(rebuilt) ==>
                  (accepted <==> fields && rebuilt == trusted) || CollisionIn(MerkleTexts(rebuilt) + MerkleTexts(trusted)))
  {
    hide Rebuild, MerkleTexts, CollisionIn, WellFormed, Root, VerifyAgainst;
    var rebuilt := Rebuild(snap.entries);
    AcceptedIffRoot(snap, height, Root(trusted));
    if WellFormed(trusted) && WellFormed(rebuilt) && Root(rebuilt) == Root(trusted) {
      RootBinding(rebuilt, trusted);
    }
  }

  /** With a bar in a key, the snapshot of another state is accepted against the trusted one. */
  lemma {:induction false} OtherStateAccepted(height: nat, tip: string, key: string, value: string) returns (other: Entries)
    requires '|' in key
    ensures other != map[key := value]
    ensures VerifyAgainst(FromState(height, tip, other), height, Root(map[key := value])).Ok?
  {
    hide Root;
    BarKeyAliases(key, value);
    var k, v :| k != key && Root(map[k := v]) == Root(map[key := value]);
    other := map[k := v];
    assert key !in other;
    TransferRoundTrip(height, tip, other);
  }

  /** `verify_snapshot`: the rebuilt store, if its root is the declared one. */
  function VerifySnapshot(snap: Snapshot): Option<Entries> {
    var rebuilt := Rebuild(snap.entries);
    if Root(rebuilt) == snap.stateRoot then Some(rebuilt) else None
  }

  /** A snapshot is refused exactly if its entries do not have the root it declares.  One that
      declares the root of a trusted store is refused or rebuilds to that store, unless a key is
      not well formed or two texts collide. */
  lemma {:induction false} VerifiedIsDeclared(snap: Snapshot, trusted: Entries)
    ensures VerifySnapshot(snap).None? <==> Root(Rebuild(snap.entries)) != snap.stateRoot
    ensures VerifySnapshot(snap).Some? ==> VerifySnapshot(snap).value == Rebuild(snap.entries)
    ensures var rebuilt := Rebuild(snap.entries);
            snap.stateRoot == Root(trusted) && WellFormed(trusted) && WellFormed(rebuilt) ==>
              || VerifySnapshot(snap) == (if rebuilt == trusted then Some(trusted) else None)
              || CollisionIn(MerkleTexts(rebuilt) + MerkleTexts(trusted))
  {
    hide Rebuild, MerkleTexts, CollisionIn, WellFormed, Root;
    var rebuilt := Rebuild(snap.entries);
    if Root(rebuilt) == Root(trusted) && WellFormed(trusted) && WellFormed(rebuilt) { RootBinding(rebuilt, trusted); }
  }

  method VerifyToStore(snap: Snapshot) returns (r: Option<StateStore>)
    ensures r.Some? == VerifySnapshot(snap).Some?
    ensures r.Some? ==> fresh(r.value) && Some(r.value.entries) == VerifySnapshot(snap)
    ensures r.Some? <==> Root(Rebuild(snap.entries)) == snap.stateRoot
    ensures r.Some? ==> r.value.entries == Rebuild(snap.entries)
  {
    var rebuilt := RebuildStore(snap.entries);
    var computed := rebuilt.StateRoot();
    if computed != snap.stateRoot { return None; }
    return Some(rebuilt);
  }
}
