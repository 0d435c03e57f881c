/** The methods of the persistent state carry out the steps of the runs in Recovery. */
module RecoveryRefinement {
  import opened Results
  import opened Merkle
  import opened StateStores
  import opened WalJson
  import opened WalCodec
  import opened Persistence
  import opened WriteAheadLogs
  import opened PersistentStates
  import opened Recovery

  /** The object is the running process of the node, between two calls. */
  ghost predicate Mirrors(ps: PersistentState, s: Node)
    reads ps, ps.wal, ps.store, ps.disk
  {
    ps.Valid() && s.disk == ps.disk.State() && s.process == Up(ps.store.entries, ps.wal.State(), Idle)
  }

  /** A successful `apply` is its two steps, a failed one the failing append. */
  method ApplyIsTwoSteps(ps: PersistentState, tx: Tx, written: nat, synced: bool, ghost s: Node)
    returns (r: Option<nat>, ghost mid: Node, ghost t: Node)
    requires Mirrors(ps, s) && MayAppend(s, WalOp.Apply(tx))
    requires written <= |LineFor(ps.wal.State(), WalOp.Apply(tx))|
    modifies ps.wal, ps.store, ps.disk`log
    ensures Mirrors(ps, t)
    ensures r.Some? <==> synced && written == |LineFor(old(ps.wal.State()), WalOp.Apply(tx))|
    ensures r.Some? ==> BeginApply(s, mid, tx) && FinishApply(mid, t) && r.value in t.returned && t.returned[r.value] == tx
    ensures r.None? ==> AppendFails(s, t, WalOp.Apply(tx), written)
    ensures if r.Some? then Next(s, mid) && Next(mid, t) else Next(s, t)
  {
    hide Encode, RecordHash;
    var op := WalOp.Apply(tx);
    var line, h := LineFor(ps.wal.State(), op), ps.wal.State();
    assert line[..|line|] == line;
    r := ps.Apply(tx, written, synced);
    mid := AppendRecord(s, op, Logged(tx));
    if r.Some? {
      t := mid.(process := Up(ApplyTx(s.process.store, tx), mid.process.handle, Idle),
                returned := mid.returned[mid.process.handle.seqNo := tx]);
    } else {
      t := s.(disk := s.disk.(log := s.disk.log + line[..written]),
              process := Up(s.process.store, Handle(h.seqNo + 1, h.prevHash), Idle),
              ops := if |line| <= written + 1 then s.ops + [op] else s.ops);
    }
  }

  /** `checkpoint` is the marker step and a good or bad end of writing the file, or a failing
      append. */
  method CheckpointIsTwoSteps(ps: PersistentState, height: nat, tip: string, written: nat, synced: bool, file: FileWrite,
                              ghost s: Node)
    returns (ok: bool, ghost mid: Node, ghost t: Node)
    requires Mirrors(ps, s) && MayAppend(s, WalOp.Checkpoint(height, tip, Root(ps.store.entries)))
    requires written <= |LineFor(ps.wal.State(), WalOp.Checkpoint(height, tip, Root(ps.store.entries)))|
    modifies ps.wal, ps.disk
    ensures Mirrors(ps, t)
    ensures var op := WalOp.Checkpoint(height, tip, Root(s.process.store));
            if synced && written == |LineFor(old(ps.wal.State()), op)| then
              && BeginCheckpoint(s, mid, height, tip) && Next(s, mid) && Next(mid, t)
              && if ok then FinishCheckpoint(mid, t) else CheckpointFails(mid, t, file)
            else !ok && AppendFails(s, t, op, written) && Next(s, t)
    ensures ok ==> synced && file == Complete
  {
    hide Root, Encode, RecordHash;
    var root := ps.store.StateRoot();
    var op := WalOp.Checkpoint(height, tip, root);
    var line, h := LineFor(ps.wal.State(), op), ps.wal.State();
    assert line[..|line|] == line;
    mid := AppendRecord(s, op, Marked(height, tip));
    if synced && written == |line| {
      t := mid.(disk := mid.disk.(snapshot := FileAfter(s.disk.snapshot, FromStore(s.process.store, height, tip), file)),
                process := Up(s.process.store, mid.process.handle, Idle));
    } else {
      t := s.(disk := s.disk.(log := s.disk.log + line[..written]),
              process := Up(s.process.store, Handle(h.seqNo + 1, h.prevHash), Idle),
              ops := if |line| <= written + 1 then s.ops + [op] else s.ops);
    }
    if synced && written == |line| {
      assert BeginCheckpoint(s, mid, height, tip);
      assert if file == Complete then FinishCheckpoint(mid, t) else CheckpointFails(mid, t, file);
    }
    ok := ps.Checkpoint(height, tip, written, synced, file);
  }

  method OpenIsReopen(disk: Disk, ghost s: Node) returns (r: Result<PersistentState, WalError>, ghost t: Node)
    requires s.disk == disk.State() && s.process.Down?
    ensures r.Ok? <==> OpenDisk(s.disk).Ok?
    ensures r.Ok? ==> Reopen(s, t) && Next(s, t) && Mirrors(r.value, t)
  {
    r := PersistentState.Open(disk);
    t := s;
    if r.Ok? {
      t := s.(process := Up(r.value.store.entries, r.value.wal.State(), Idle));
    }
  }
}
