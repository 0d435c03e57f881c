/** The snapshot file of kai-os/state/src/persistence.rs.  A file is what its reader makes of
    it: a snapshot, or nothing when it is missing, truncated or not JSON. */
module Persistence {
  import opened Results
  import opened Merkle
  import opened StateStores

  datatype PersistedSnapshot =
    PersistedSnapshot(height: nat, tipBlockHash: string, stateRoot: string, entries: Entries)

  /** Everything that survives a crash: the log file and the snapshot file. */
  datatype DiskState = DiskState(log: string, snapshot: Option<PersistedSnapshot>)

  class Disk {
    var log: string
    var snapshot: Option<PersistedSnapshot>

    function State(): DiskState
      reads this
    {
      DiskState(log, snapshot)
    }
  }

  function FromStore(entries: Entries, height: nat, tipBlockHash: string): PersistedSnapshot {
    PersistedSnapshot(height, tipBlockHash, Root(entries), entries)
  }

  /** What `load_snapshot_store` returns: the entries, if their root is the stored one. */
  function LoadStore(file: Option<PersistedSnapshot>): Option<Entries> {
    if file.Some? && Root(file.value.entries) == file.value.stateRoot then Some(file.value.entries) else None
  }

  /** A file is loaded exactly if it is readable and its entries have the stored root; so a file
      whose entries were changed is refused unless the new ones have the same root. */
  lemma LoadsIff(file: Option<PersistedSnapshot>, entries: Entries)
    ensures LoadStore(file) == Some(entries)
       <==> exists height, tip :: file == Some(PersistedSnapshot(height, tip, Root(entries), entries))
  {
    hide Root;
    if file.Some? {
      var f := file.value;
      assert f == PersistedSnapshot(f.height, f.tipBlockHash, f.stateRoot, f.entries);
    }
  }

  /** Rebuilds the entries one `Set` at a time, in key order. */
  method ToStore(snap: PersistedSnapshot) returns (store: StateStore)
    ensures fresh(store) && store.entries == snap.entries
  {
    store := RebuildStore(EntryList(snap.entries));
    RebuildEntryList(snap.entries);
  }

  method LoadSnapshotStore(disk: Disk) returns (r: Option<StateStore>)
    ensures r.Some? == LoadStore(disk.snapshot).Some?
    ensures r.Some? ==> fresh(r.value) && Some(r.value.entries) == LoadStore(disk.snapshot)
    ensures r.Some? <==> disk.snapshot.Some? && Root(disk.snapshot.value.entries) == disk.snapshot.value.stateRoot
    ensures r.Some? ==> r.value.entries == disk.snapshot.value.entries
  {
    if disk.snapshot.None? { return None; }
    var snap := disk.snapshot.value;
    var store := ToStore(snap);
    var root := store.StateRoot();
    if root != snap.stateRoot { return None; }
    return Some(store);
  }

  /** How writing the snapshot file ends: the file is not even opened, is left incomplete, is
      written but cannot be read back, or is written and read back. */
  datatype FileWrite = NotOpened | Incomplete | NotReread | Complete

  function FileAfter(file: Option<PersistedSnapshot>, snap: PersistedSnapshot, w: FileWrite): Option<PersistedSnapshot> {
    match w
    case NotOpened => file
    case Incomplete => None
    case _ => Some(snap)
  }

  /** Writes the file, reads it back and compares the roots; the comparison never fails on a
      disk that gives back what was written. */
  method SaveSnapshotStore(store: StateStore, height: nat, tipBlockHash: string, disk: Disk, w: FileWrite) returns (ok: bool)
    modifies disk`snapshot
    ensures ok <==> w == Complete
    ensures ok ==> LoadStore(disk.snapshot) == Some(store.entries)
    ensures w == NotOpened ==> disk.snapshot == old(disk.snapshot)
    ensures w == Incomplete ==> disk.snapshot == None
    ensures disk.snapshot == FileAfter(old(disk.snapshot), FromStore(store.entries, height, tipBlockHash), w)
  {
    var root := store.StateRoot();
    if w == NotOpened { return false; }
    disk.snapshot := if w == Incomplete then None else Some(PersistedSnapshot(height, tipBlockHash, root, store.entries));
    if w != Complete { return false; }
    var reread := LoadSnapshotStore(disk);
    if reread.None? { return false; }
    var again := reread.value.StateRoot();
    ok := again == root;
  }
}
