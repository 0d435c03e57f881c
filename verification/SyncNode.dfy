/** The sync daemon (kai-os/syncd/src/lib.rs and the two roles of kai-sync-node.rs): a source
    that sends its state until it is acknowledged, and a sink that verifies, persists and only
    then acknowledges. */
module SyncNodes {
  import opened Results
  import opened Hashing
  import opened Merkle
  import opened StateStores
  import opened WalJson
  import opened WalCodec
  import opened Persistence
  import opened WriteAheadLogs
  import opened LogReplay
  import opened WrittenLogs
  import opened PersistentStates
  import opened Snapshots

  // ---------- one persisted snapshot on a log of successful appends ----------

  lemma MarkerIsLast(ops: seq<WalOp>, op: WalOp)
    requires op.Checkpoint?
    ensures AfterLastMarker(ops + [op]) == |ops| + 1
  {
  }

  /** A disk whose log ends with a marker and whose snapshot has the marker's root reopens to the
      snapshot, whatever the log says before. */
  lemma {:induction false} CheckpointedDiskReopens(ops: seq<WalOp>, height: nat, tip: string, store: Entries)
    ensures var marked := ops + [Checkpoint(height, tip, Root(store))];
            OpenDisk(DiskState(LogText(marked), Some(FromStore(store, height, tip))))
              == Ok(Opened(store, HandleAfter(marked)))
  {
    hide Root, TipHash, LogText, Replay;
    var op := Checkpoint(height, tip, Root(store));
    ReplayWhole(ops + [op]);
    MarkerIsLast(ops, op);
    assert (ops + [op])[|ops| + 1..] == [];
  }

  /** The synced store exists only in the snapshot file, never in the log: once that file is
      unreadable, the same disk reopens to what the log says. */
  lemma {:induction false} LostSnapshotReopensToLog(ops: seq<WalOp>, height: nat, tip: string, store: Entries)
    ensures var marked := ops + [Checkpoint(height, tip, Root(store))];
            OpenDisk(DiskState(LogText(marked), None)) == Ok(Opened(Fold(map[], ops), HandleAfter(marked)))
  {
    hide Root, TipHash, LogText, Replay;
    var op := Checkpoint(height, tip, Root(store));
    ReplayWhole(ops + [op]);
    assert (ops + [op])[..|ops|] == ops;
  }

  // ---------- one persisted snapshot on any log ----------

  predicate Reopens(disk: DiskState, store: Entries) {
    OpenDisk(disk).Ok? && OpenDisk(disk).value.store == store
  }

  /** The disk after the marker of `store` was appended by `h`, and the snapshot written. */
  function MarkedDisk(log: string, h: Handle, height: nat, tip: string, store: Entries): DiskState {
    DiskState(log + LineFor(h, Checkpoint(height, tip, Root(store))), Some(FromStore(store, height, tip)))
  }

  /** The log takes the marker; or it is torn, so that the marker is lost, and what survives of
      it recovers to the new snapshot anyway. */
  predicate Keeps(log: string, h: Handle, height: nat, tip: string, store: Entries) {
    || TakesAppend(log, h)
    || (!IsWhole(log) && Surviving(log).Ok?
        && Recover(Surviving(log).value.ops, Some(FromStore(store, height, tip))) == store)
  }

  lemma RecoverMarked(ops: seq<WalOp>, height: nat, tip: string, store: Entries)
    ensures Recover(ops + [Checkpoint(height, tip, Root(store))], Some(FromStore(store, height, tip))) == store
  {
    hide Root;
    var op := Checkpoint(height, tip, Root(store));
    MarkerIsLast(ops, op);
    assert (ops + [op])[|ops| + 1..] == [];
  }

  /** A synced disk reopens to the synced store exactly if its log kept it. */
  lemma {:induction false} MarkedReopensIff(log: string, h: Handle, height: nat, tip: string, store: Entries)
    requires IsWrittenLog(log)
    ensures Reopens(MarkedDisk(log, h, height, tip, store), store) <==> Keeps(log, h, height, tip, store)
    ensures TakesAppend(log, h) ==>
      OpenDisk(MarkedDisk(log, h, height, tip, store))
        == Ok(Opened(store, HandleBehind(h, Checkpoint(height, tip, Root(store)))))
  {
    hide Root, Replay, Encode, RecordHash, Recover, Lines, IsWrittenLog;
    var op := Checkpoint(height, tip, Root(store));
    var line := LineFor(h, op);
    assert line[..|line|] == line;
    if IsWhole(log) {
      WriteToWhole(log, h, op, |line|);
      if ReplayClosed(log).Ok? { RecoverMarked(ReplayClosed(log).value.ops, height, tip, store); }
    } else {
      WriteToTorn(log, h, op, |line|);
    }
  }

  /** A torn log without earlier markers: the acknowledged store is gone. */
  lemma {:induction false} TornLogLosesStore(ops: seq<WalOp>, torn: WalRecord, n: nat,
                                            h: Handle, height: nat, tip: string, store: Entries)
    requires AfterLastMarker(ops) == 0 && 0 < n <= |Encode(torn)|
    ensures OpenDisk(MarkedDisk(LogText(ops) + Encode(torn)[..n], h, height, tip, store))
         == Ok(Opened(Fold(map[], ops), HandleAfter(ops)))
  {
    hide Root, Replay, Encode, RecordHash, TipHash, LogText, Lines, Glued, IsShards, IsWhole;
    var log, op := LogText(ops) + Encode(torn)[..n], Checkpoint(height, tip, Root(store));
    var line := LineFor(h, op);
    assert line[..|line|] == line;
    ClosedLogText(ops);
    GluedOne(torn, n);
    assert HoldsShards(log, LogText(ops), [Shard(torn, n)]);
    SettledOf(LogText(ops), Encode(torn)[..n]);
    WriteToTorn(log, h, op, |line|);
  }

  /** A handle that does not stand behind the log, as after a failed append: the acknowledged
      disk does not open. */
  lemma {:induction false} StaleHandleLosesDisk(ops: seq<WalOp>, h: Handle, height: nat, tip: string, store: Entries)
    requires h != HandleAfter(ops)
    ensures OpenDisk(MarkedDisk(LogText(ops), h, height, tip, store)).Err?
  {
    hide Root, Replay, Encode, RecordHash, TipHash, LogText, Lines, IsWhole;
    var op := Checkpoint(height, tip, Root(store));
    var line := LineFor(h, op);
    assert line[..|line|] == line;
    ClosedLogText(ops);
    WriteToWhole(LogText(ops), h, op, |line|);
  }

  /** How long a store lasts that was acknowledged from a log in order: the next sync may write
      any part of its marker; from the complete text of the marker on, and until its snapshot is
      written, the disk reopens to the store only if the roots agree or the operations of the log
      alone make the same store. */
  lemma {:induction false} AckedStoreLasts(log: string, h: Handle, height: nat, tip: string, store: Entries,
                                           height2: nat, tip2: string, store2: Entries, n: nat)
    requires TakesAppend(log, h)
    requires var op := Checkpoint(height, tip, Root(store));
             n <= |LineFor(HandleBehind(h, op), Checkpoint(height2, tip2, Root(store2)))|
    ensures var disk := MarkedDisk(log, h, height, tip, store);
            var line := LineFor(HandleBehind(h, Checkpoint(height, tip, Root(store))), Checkpoint(height2, tip2, Root(store2)));
            Reopens(disk.(log := disk.log + line[..n]), store)
            <==> n + 1 < |line| || Root(store2) == Root(store) || Fold(map[], ReplayClosed(log).value.ops) == store
  {
    hide Root, Replay, Encode, RecordHash, Lines, IsWhole, LoadStore, AfterLastMarker;
    var op, op2 := Checkpoint(height, tip, Root(store)), Checkpoint(height2, tip2, Root(store2));
    var ops, h2 := ReplayClosed(log).value.ops, HandleBehind(h, op);
    var marked, line := log + LineFor(h, op), LineFor(h2, op2);
    ClosedReplays(log);
    AppendTaken(log, h, op);
    ClosedReplays(marked);
    if n == 0 {
      assert marked + line[..0] == marked;
      RecoverMarked(ops, height, tip, store);
    } else {
      WriteToWhole(marked, h2, op2, n);
      if n + 1 < |line| {
        RecoverMarked(ops, height, tip, store);
      } else {
        RecoverTwice(ops, height, tip, store, op2);
      }
    }
  }

  lemma FoldMarker(ops: seq<WalOp>, op: WalOp)
    requires op.Checkpoint?
    ensures Fold(map[], ops + [op]) == Fold(map[], ops)
  {
    assert (ops + [op])[..|ops|] == ops;
  }

  lemma RecoverTwice(ops: seq<WalOp>, height: nat, tip: string, store: Entries, op2: WalOp)
    requires op2.Checkpoint?
    ensures Recover(ops + [Checkpoint(height, tip, Root(store))] + [op2], Some(FromStore(store, height, tip)))
         == if op2.stateRoot == Root(store) then store else Fold(map[], ops)
  {
    hide Root;
    var marked := ops + [Checkpoint(height, tip, Root(store))];
    MarkerIsLast(marked, op2);
    assert (marked + [op2])[|marked| + 1..] == [];
    FoldMarker(ops, Checkpoint(height, tip, Root(store)));
    FoldMarker(marked, op2);
  }

  /** The next marker, with its snapshot not yet written, hides an acknowledged store whose
      snapshot is still there. */
  lemma {:induction false} NextMarkerHidesStore(ops: seq<WalOp>, height: nat, tip: string, store: Entries,
                                                height2: nat, tip2: string, store2: Entries)
    requires Root(store) != Root(store2)
    ensures var marked := ops + [Checkpoint(height, tip, Root(store))] + [Checkpoint(height2, tip2, Root(store2))];
            OpenDisk(DiskState(LogText(marked), Some(FromStore(store, height, tip))))
              == Ok(Opened(Fold(map[], ops), HandleAfter(marked)))
  {
    hide Root, Replay, LogText, TipHash;
    var op2 := Checkpoint(height2, tip2, Root(store2));
    ReplayWhole(ops + [Checkpoint(height, tip, Root(store))] + [op2]);
    RecoverTwice(ops, height, tip, store, op2);
  }

  // ---------- the sink ----------

  /** How appending a record ends: on disk and synced, or failed with so many characters of the
      line written. */
  datatype AppendEnd = Appended | Failed(written: nat)

  function LengthWritten(line: string, end: AppendEnd): (n: nat)
    ensures n <= |line| && (end.Appended? ==> n == |line|)
    ensures end.Failed? ==> n == if end.written <= |line| then end.written else |line|
  {
    if end.Appended? || |line| <= end.written then |line| else end.written
  }

  /** `persist_verified`: the store is replaced, the marker logged, the snapshot written. */
  method PersistVerified(ps: PersistentState, snap: Snapshot, end: AppendEnd, file: FileWrite) returns (ok: bool)
    requires ps.Valid() && IsWrittenLog(ps.disk.log)
    modifies ps, ps.wal, ps.disk
    ensures ps.Valid() && IsWrittenLog(ps.disk.log)
    ensures VerifySnapshot(snap).None? ==>
      !ok && ps.disk.State() == old(ps.disk.State()) && ps.wal.State() == old(ps.wal.State()) && ps.store == old(ps.store)
    ensures VerifySnapshot(snap).Some? ==>
      var (h, op) := (old(ps.wal.State()), Checkpoint(snap.height, snap.tipBlockHash, Root(ps.store.entries)));
      var written := FromStore(ps.store.entries, snap.height, snap.tipBlockHash);
      && fresh(ps.store) && Some(ps.store.entries) == VerifySnapshot(snap)
      && ok == (end.Appended? && file == Complete)
      && ps.disk.log == old(ps.disk.log) + LineFor(h, op)[..LengthWritten(LineFor(h, op), end)]
      && ps.wal.State() == (if end.Appended? then HandleBehind(h, op) else Handle(h.seqNo + 1, h.prevHash))
      && ps.disk.snapshot == if end.Appended? then FileAfter(old(ps.disk.snapshot), written, file)
                             else old(ps.disk.snapshot)
    ensures ok ==>
      var (log, h) := (old(ps.disk.log), old(ps.wal.State()));
      && ps.disk.State() == MarkedDisk(log, h, snap.height, snap.tipBlockHash, ps.store.entries)
      && (Reopens(ps.disk.State(), ps.store.entries)
          <==> Keeps(log, h, snap.height, snap.tipBlockHash, ps.store.entries))
      && (TakesAppend(log, h) ==> OpenDisk(ps.disk.State()) == Ok(Opened(ps.store.entries, ps.wal.State())))
    ensures ok <==> Root(Rebuild(snap.entries)) == snap.stateRoot && end.Appended? && file == Complete
    ensures ok ==> ps.store.entries == Rebuild(snap.entries)
  {
    hide VerifySnapshot, Replay, Recover, Encode, RecordHash, Root, IsWrittenLog, Keeps, Reopens, Rebuild;
    var verified := VerifyToStore(snap);
    if verified.None? { return false; }
    ps.store := verified.value;
    var root := ps.store.StateRoot();
    var op, h := Checkpoint(snap.height, snap.tipBlockHash, root), ps.wal.State();
    var line := LineFor(h, op);
    assert line[..|line|] == line;
    WriteKeepsShape(ps.disk.log, h, op, LengthWritten(line, end));
    MarkedReopensIff(ps.disk.log, h, snap.height, snap.tipBlockHash, ps.store.entries);
    ok := ps.Checkpoint(snap.height, snap.tipBlockHash, LengthWritten(line, end), end.Appended?, file);
  }

  lemma PersistedStays(log: string, h: Handle, op: WalOp, end: AppendEnd)
    requires end.Appended?
    ensures TakesAppend(log, h) ==>
      TakesAppend(log + LineFor(h, op)[..LengthWritten(LineFor(h, op), end)], HandleBehind(h, op))
  {
    hide TakesAppend, Encode, RecordHash;
    assert LineFor(h, op)[..|LineFor(h, op)|] == LineFor(h, op);
    if TakesAppend(log, h) { AppendTaken(log, h, op); }
  }

  /** What arrives on one connection: nothing readable, or a snapshot; how the two disk writes
      end, if they are tried; and whether the answer can still be sent. */
  datatype Connection = Connection(message: Option<Snapshot>, end: AppendEnd, file: FileWrite, answerable: bool)

  predicate Acceptable(c: Connection) {
    c.message.Some? && VerifySnapshot(c.message.value).Some? && c.end.Appended? && c.file == Complete && c.answerable
  }

  /** The accept loop of the sink: it goes on after every failure, and ends with the first
      acknowledgement sent.  `log` and `h` are what it found before that connection. */
  method ServeOneSync(ps: PersistentState, incoming: seq<Connection>)
    returns (ack: Option<string>, ghost i: nat, ghost log: string, ghost h: Handle)
    requires ps.Valid() && IsWrittenLog(ps.disk.log)
    modifies ps, ps.wal, ps.disk
    ensures i <= |incoming| && (ack.Some? <==> i < |incoming|)
    ensures forall k :: 0 <= k < i ==> !Acceptable(incoming[k])
    ensures ack.Some? ==>
      && Acceptable(incoming[i])
      && var (snap, store) := (incoming[i].message.value, ps.store.entries);
         && VerifySnapshot(snap) == Some(store) && store == Rebuild(snap.entries)
         && ack.value == Root(store) == snap.stateRoot
         && ps.disk.State() == MarkedDisk(log, h, snap.height, snap.tipBlockHash, store)
         && (Reopens(ps.disk.State(), store) <==> Keeps(log, h, snap.height, snap.tipBlockHash, store))
    ensures ack.Some? && TakesAppend(old(ps.disk.log), old(ps.wal.State())) && (forall c :: c in incoming ==> c.end.Appended?) ==>
      OpenDisk(ps.disk.State()) == Ok(Opened(ps.store.entries, ps.wal.State()))
  {
    hide VerifySnapshot, Encode, RecordHash, Root, IsWrittenLog, Reopens, TakesAppend, OpenDisk, MarkedDisk, FromStore, Rebuild;
    log, h := ps.disk.log, ps.wal.State();
    for k := 0 to |incoming|
      invariant ps.Valid() && IsWrittenLog(ps.disk.log)
      invariant forall j :: 0 <= j < k ==> !Acceptable(incoming[j])
      invariant TakesAppend(old(ps.disk.log), old(ps.wal.State())) && (forall c :: c in incoming ==> c.end.Appended?) ==>
                  TakesAppend(ps.disk.log, ps.wal.State())
    {
      var c := incoming[k];
      if c.message.None? { continue; }
      var snap := c.message.value;
      log, h := ps.disk.log, ps.wal.State();
      var ok := PersistVerified(ps, snap, c.end, c.file);
      if c.end.Appended? { PersistedStays(log, h, Checkpoint(snap.height, snap.tipBlockHash, Root(ps.store.entries)), c.end); }
      if !ok { continue; }
      var root := ps.store.StateRoot();
      if !c.answerable { continue; }
      return Some(root), k, log, h;
    }
    return None, |incoming|, log, h;
  }

  // ---------- the source ----------

  /** The retry loop of the source.  What comes back in an attempt is the root of an
      acknowledgement, or nothing: no connection, no answer, or none that can be read. */
  method SyncWithRetry(store: StateStore, retries: nat, answers: seq<Option<string>>) returns (r: Option<nat>)
    requires |answers| == retries + 1
    ensures r.Some? <==> Some(Root(store.entries)) in answers
    ensures r.Some? ==> r.value <= retries && answers[r.value] == Some(Root(store.entries))
    ensures r.Some? ==> forall i :: 0 <= i < r.value ==> answers[i] != Some(Root(store.entries))
  {
    for attempt := 0 to retries + 1
      invariant forall i :: 0 <= i < attempt ==> answers[i] != Some(Root(store.entries))
    {
      if answers[attempt].Some? {
        var root := store.StateRoot();
        if answers[attempt].value == root { return Some(attempt); }
      }
    }
    return None;
  }
}
