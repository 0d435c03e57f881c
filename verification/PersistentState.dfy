/** The crash-safe state of kai-os/state/src/wal.rs: log first, then apply; checkpoint as a
    marker in the log followed by a snapshot file; reopening from either. */
module PersistentStates {
  import opened Results
  import opened Merkle
  import opened StateStores
  import opened WalJson
  import opened WalCodec
  import opened Persistence
  import opened WriteAheadLogs

  /** The store after the transactions among `ops`, starting from `base`. */
  function Fold(base: Entries, ops: seq<WalOp>): Entries {
    if ops == [] then base
    else
      var before, op := Fold(base, ops[..|ops| - 1]), ops[|ops| - 1];
      if op.Apply? then ApplyTx(before, op.tx) else before
  }

  /** The index behind the last checkpoint marker, or 0 if there is none. */
  function AfterLastMarker(ops: seq<WalOp>): (n: nat)
    ensures n <= |ops| && (n > 0 ==> ops[n - 1].Checkpoint?)
    ensures forall i :: n <= i < |ops| ==> !ops[i].Checkpoint?
  {
    if ops == [] then 0
    else if ops[|ops| - 1].Checkpoint? then |ops|
    else AfterLastMarker(ops[..|ops| - 1])
  }

  /** The store that reopening builds from the replayed operations and the snapshot file: the
      snapshot and the operations behind the last marker if the roots agree, and otherwise all
      operations from an empty store. */
  function Recover(ops: seq<WalOp>, snapshot: Option<PersistedSnapshot>): Entries {
    var n := AfterLastMarker(ops);
    var loaded := LoadStore(snapshot);
    if n > 0 && loaded.Some? && Root(loaded.value) == ops[n - 1].stateRoot
    then Fold(loaded.value, ops[n..])
    else Fold(map[], ops)
  }

  lemma MarkerPlace(ops: seq<WalOp>, n: nat)
    requires n <= |ops| && (n > 0 ==> ops[n - 1].Checkpoint?) && forall i :: n <= i < |ops| ==> !ops[i].Checkpoint?
    ensures AfterLastMarker(ops) == n
  {
    hide AfterLastMarker;
  }

  /** With a marker before operations without one: a readable snapshot whose entries have the
      root it stores and the root of the marker is the base of these operations.  In every other
      case, and without any marker, all operations start from an empty store. */
  lemma {:induction false} RecoverMeaning(before: seq<WalOp>, marker: WalOp, behind: seq<WalOp>, file: Option<PersistedSnapshot>)
    requires marker.Checkpoint? && forall i :: 0 <= i < |behind| ==> behind[i].Apply?
    ensures Recover(behind, file) == Fold(map[], behind)
    ensures Recover(before + [marker] + behind, file) ==
            if file.Some? && Root(file.value.entries) == file.value.stateRoot == marker.stateRoot
            then Fold(file.value.entries, behind) else Fold(map[], before + [marker] + behind)
  {
    hide Root, Fold, AfterLastMarker;
    var ops, n := before + [marker] + behind, |before| + 1;
    MarkerPlace(behind, 0);
    MarkerPlace(ops, n);
    assert ops[n..] == behind && ops[n - 1] == marker;
  }

  datatype Opened = Opened(store: Entries, handle: Handle)

  function OpenDisk(disk: DiskState): Result<Opened, WalError> {
    match Replay(disk.log)
    case Err(e) => Err(e)
    case Ok(p) => Ok(Opened(Recover(p.ops, disk.snapshot), Handle(p.seqNo, p.tip)))
  }

  method LastMarker(ops: seq<WalOp>) returns (n: nat)
    ensures n == AfterLastMarker(ops)
  {
    n := |ops|;
    assert ops[..n] == ops;
    while n > 0 && !ops[n - 1].Checkpoint?
      invariant n <= |ops| && AfterLastMarker(ops[..n]) == AfterLastMarker(ops)
    {
      assert ops[..n][..n - 1] == ops[..n - 1];
      n := n - 1;
    }
    assert n > 0 ==> ops[..n][n - 1] == ops[n - 1];
  }

  method ApplyOps(store: StateStore, ops: seq<WalOp>)
    modifies store
    ensures store.entries == Fold(old(store.entries), ops)
  {
    for i := 0 to |ops|
      invariant store.entries == Fold(old(store.entries), ops[..i])
    {
      assert ops[..i + 1][..i] == ops[..i];
      if ops[i].Apply? { store.Apply(ops[i].tx); }
    }
    assert ops[..|ops|] == ops;
  }

  method RecoverStore(disk: Disk, ops: seq<WalOp>) returns (store: StateStore)
    ensures fresh(store) && store.entries == Recover(ops, disk.snapshot)
  {
    var n := LastMarker(ops);
    if n > 0 {
      var loaded := LoadSnapshotStore(disk);
      if loaded.Some? {
        var root := loaded.value.StateRoot();
        if root == ops[n - 1].stateRoot {
          store := loaded.value;
          ApplyOps(store, ops[n..]);
          return;
        }
      }
    }
    store := new StateStore();
    ApplyOps(store, ops);
  }

  class PersistentState {
    const disk: Disk
    const wal: WriteAheadLog
    var store: StateStore

    ghost predicate Valid()
      reads this
    {
      wal.disk == disk
    }

    constructor (disk: Disk, wal: WriteAheadLog, store: StateStore)
      ensures this.disk == disk && this.wal == wal && this.store == store
    {
      this.disk := disk;
      this.wal := wal;
      this.store := store;
    }

    static method Open(disk: Disk) returns (r: Result<PersistentState, WalError>)
      ensures r.Err? ==> OpenDisk(disk.State()) == Err(r.error)
      ensures r.Ok? ==> r.value.Valid() && r.value.disk == disk
      ensures r.Ok? ==> fresh(r.value) && fresh(r.value.wal) && fresh(r.value.store)
      ensures r.Ok? ==> OpenDisk(disk.State()) == Ok(Opened(r.value.store.entries, r.value.wal.State()))
    {
      var replayed := ReplayFile(disk.log);
      if replayed.Err? { return Err(replayed.error); }
      var store := RecoverStore(disk, replayed.value.ops);
      var log := WriteAheadLog.Open(disk);
      var ps := new PersistentState(disk, log.value, store);
      return Ok(ps);
    }

    /** Log first; only a record that reached the disk is applied to the store. */
    method Apply(tx: Tx, written: nat, synced: bool) returns (r: Option<nat>)
      requires Valid() && written <= |LineFor(wal.State(), WalOp.Apply(tx))|
      modifies wal, store, disk`log
      ensures Valid() && store == old(store)
      ensures var line := LineFor(old(wal.State()), WalOp.Apply(tx));
              && disk.log == old(disk.log) + line[..written]
              && r == if synced && written == |line| then Some(old(wal.seqNo) + 1) else None
      ensures store.entries == if r.Some? then ApplyTx(old(store.entries), tx) else old(store.entries)
      ensures wal.State() == Handle(old(wal.seqNo) + 1,
                if r.Some? then RecordHash(NextRecord(old(wal.State()), WalOp.Apply(tx))) else old(wal.prevHash))
    {
      r := wal.AppendOp(WalOp.Apply(tx), written, synced);
      if r.None? { return; }
      store.Apply(tx);
    }

    /** Marker first, snapshot second; the call fails if either of the two does. */
    method Checkpoint(height: nat, tip: string, written: nat, synced: bool, file: FileWrite) returns (ok: bool)
      requires Valid()
      requires written <= |LineFor(wal.State(), WalOp.Checkpoint(height, tip, Root(store.entries)))|
      modifies wal, disk
      ensures Valid() && store == old(store) && store.entries == old(store.entries)
      ensures var op := WalOp.Checkpoint(height, tip, Root(store.entries));
              var line := LineFor(old(wal.State()), op);
              var marked := synced && written == |line|;
              && disk.log == old(disk.log) + line[..written]
              && ok == (marked && file == Complete)
              && wal.State() == Handle(old(wal.seqNo) + 1,
                   if marked then RecordHash(NextRecord(old(wal.State()), op)) else old(wal.prevHash))
              && disk.snapshot == if marked then FileAfter(old(disk.snapshot), FromStore(store.entries, height, tip), file)
                                  else old(disk.snapshot)
    {
      var root := store.StateRoot();
      var r := wal.AppendOp(WalOp.Checkpoint(height, tip, root), written, synced);
      if r.None? { return false; }
      ok := SaveSnapshotStore(store, height, tip, disk, file);
    }
  }
}
