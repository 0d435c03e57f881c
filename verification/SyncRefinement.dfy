/** The sink's method carries out the steps of the runs in SyncRuns; and there is a run in which a
    source is synced. */
module SyncRefinement {
  import opened Results
  import opened Merkle
  import opened StateStores
  import opened WalJson
  import opened WalCodec
  import opened Persistence
  import opened WriteAheadLogs
  import opened WrittenLogs
  import opened PersistentStates
  import opened Snapshots
  import opened SyncNodes
  import opened SyncRuns
  import opened SyncLosses

  /** The object is the listening sink of the system. */
  ghost predicate Mirrors(ps: PersistentState, s: System)
    reads ps, ps.wal, ps.store, ps.disk
  {
    && ps.Valid() && s.disk == ps.disk.State() && IsWrittenLog(s.disk.log)
    && s.sink == Up(ps.store.entries, ps.wal.State(), Listening)
  }

  ghost predicate AreSteps(steps: seq<System>) {
    forall i :: 0 <= i < |steps| - 1 ==> Next(steps[i], steps[i + 1])
  }

  function MarkerOn(v: System): System
    requires v.sink.Up? && v.sink.phase.Verified?
  {
    var (h, op) := (v.sink.handle, MarkerOf(v));
    v.(disk := v.disk.(log := v.disk.log + LineFor(h, op)),
       sink := Up(v.sink.store, HandleBehind(h, op), Marked(v.sink.phase.snap, v.disk.log, h)))
  }

  lemma StepTo(s: System, t: System, snap: Snapshot)
    requires Receive(s, t, snap)
    ensures Next(s, t)
  {
  }

  /** The steps of persisting a snapshot: it is refused; or verified, and then the marker fails,
      or is written and the snapshot file fails, or both are written and an answer is due. */
  ghost predicate IsPersisting(steps: seq<System>, snap: Snapshot, end: AppendEnd, file: FileWrite) {
    && AreSteps(steps) && |steps| > 1 && Receive(steps[0], steps[1], snap)
    && if VerifySnapshot(snap).None? then |steps| == 2
       else
         && steps[1].sink.Up? && steps[1].sink.phase.Verified?
         && var line := LineFor(steps[1].sink.handle, MarkerOf(steps[1]));
            if end.Failed? then |steps| == 3 && MarkerFails(steps[1], steps[2], LengthWritten(line, end))
            else
              && |steps| == 4 && WriteMarker(steps[1], steps[2])
              && if file == Complete then WriteSnapshot(steps[2], steps[3]) else SnapshotFails(steps[2], steps[3], file)
  }

  lemma PersistSteps(s: System, snap: Snapshot, end: AppendEnd, file: FileWrite) returns (steps: seq<System>)
    requires s.sink.Up? && s.sink.phase == Listening && snap in s.wire && VerifySnapshot(snap).Some?
    ensures IsPersisting(steps, snap, end, file) && steps[0] == s
    ensures var (t, store, h) := (steps[|steps| - 1], VerifySnapshot(snap).value, s.sink.handle);
            var op, written := Checkpoint(snap.height, snap.tipBlockHash, Root(store)), FromStore(store, snap.height, snap.tipBlockHash);
            if end.Failed? then
              && t.disk == DiskState(s.disk.log + LineFor(h, op)[..LengthWritten(LineFor(h, op), end)], s.disk.snapshot)
              && t.sink == Up(store, Handle(h.seqNo + 1, h.prevHash), Listening)
            else
              && t.disk == DiskState(s.disk.log + LineFor(h, op), FileAfter(s.disk.snapshot, written, file))
              && t.sink == Up(store, HandleBehind(h, op), if file == Complete then Stored(snap, s.disk.log, h) else Listening)
  {
    hide VerifySnapshot, Root, Encode, RecordHash;
    var v := Verifying(s, snap);
    var h, op := s.sink.handle, MarkerOf(v);
    var line := LineFor(h, op);
    StepTo(s, v, snap);
    if end.Failed? {
      var n := LengthWritten(line, end);
      var t := v.(disk := v.disk.(log := v.disk.log + line[..n]),
                  sink := Up(v.sink.store, Handle(h.seqNo + 1, h.prevHash), Listening));
      assert MarkerFails(v, t, n) && Next(v, t);
      steps := [s, v, t];
    } else {
      var m := MarkerOn(v);
      assert WriteMarker(v, m) && Next(v, m);
      var written := FromStore(v.sink.store, snap.height, snap.tipBlockHash);
      var t := m.(disk := m.disk.(snapshot := FileAfter(m.disk.snapshot, written, file)),
                  sink := Up(v.sink.store, m.sink.handle, if file == Complete then Stored(snap, s.disk.log, h) else Listening));
      assert if file == Complete then WriteSnapshot(m, t) else SnapshotFails(m, t, file);
      assert Next(m, t);
      steps := [s, v, m, t];
    }
  }

  lemma RefusedStep(s: System, snap: Snapshot, end: AppendEnd, file: FileWrite)
    requires s.sink.Up? && s.sink.phase == Listening && snap in s.wire && VerifySnapshot(snap).None?
    ensures IsPersisting([s, s], snap, end, file)
  {
    StepTo(s, s, snap);
  }

  /** Persisting a snapshot that was sent is these steps. */
  method PersistIsSteps(ps: PersistentState, snap: Snapshot, end: AppendEnd, file: FileWrite, ghost s: System)
    returns (ok: bool, ghost steps: seq<System>)
    requires Mirrors(ps, s) && snap in s.wire
    modifies ps, ps.wal, ps.disk
    ensures IsPersisting(steps, snap, end, file) && steps[0] == s
    ensures !ok ==> Mirrors(ps, steps[|steps| - 1])
    ensures ok ==> var t := steps[|steps| - 1];
              && t.disk == ps.disk.State()
              && t.sink == Up(ps.store.entries, ps.wal.State(), Stored(snap, s.disk.log, s.sink.handle))
  {
    hide VerifySnapshot, Root, Rebuild, Encode, RecordHash, IsWrittenLog, Keeps, Reopens, OpenDisk, IsPersisting, FromStore, FileAfter;
    ok := PersistVerified(ps, snap, end, file);
    if VerifySnapshot(snap).None? {
      RefusedStep(s, snap, end, file);
      steps := [s, s];
    } else {
      steps := PersistSteps(s, snap, end, file);
      ghost var line := LineFor(s.sink.handle, Checkpoint(snap.height, snap.tipBlockHash, Root(ps.store.entries)));
      assert line[..|line|] == line;
    }
  }

  // ---------- a run that completes ----------

  /** Whatever the source holds and the sink's disk is, as long as it opens: there is a run in
      which the source is synced; its store is then on the sink's disk if the log took the
      marker. */
  lemma {:induction false} SyncCompletes(source: Source, disk: DiskState) returns (run: seq<System>)
    requires source.attempt == 0 && source.status == Trying && IsWrittenLog(disk.log) && OpenDisk(disk).Ok?
    ensures IsRun(run)
    ensures var t := run[|run| - 1];
            && t.source == source.(status := Synced(Ack(Root(source.store), source.store)))
            && (TakesAppend(disk.log, OpenDisk(disk).value.handle) ==> Reopens(t.disk, source.store))
  {
    hide IsWrittenLog, OpenDisk, VerifySnapshot, Root, Rebuild, TakesAppend, Reopens, MarkedDisk;
    var snap := FromState(source.height, source.tip, source.store);
    OwnSnapshotVerifies(source);
    var s0 := System(source, disk, Down, {}, {});
    var s1 := s0.(wire := {} + {snap});
    var s2 := s1.(sink := Up(OpenDisk(disk).value.store, OpenDisk(disk).value.handle, Listening));
    assert Init(s0) && IsRun([s0]);
    assert Send(s0, s1) && Next(s0, s1);
    RunThen([s0], s1);
    assert Reopen(s1, s2) && Next(s1, s2);
    RunThen([s0] + [s1], s2);
    var t;
    run, t := Serve([s0] + [s1] + [s2], s2, snap);
    var ack := Ack(Root(source.store), source.store);
    var u := t.(source := t.source.(status := Synced(ack)));
    assert AcceptAck(t, u, ack) && Next(t, u);
    RunThen(run, u);
    run := run + [u];
    MarkedReopensIff(disk.log, s2.sink.handle, source.height, source.tip, source.store);
  }

  lemma OwnSnapshotVerifies(source: Source)
    ensures VerifySnapshot(FromState(source.height, source.tip, source.store)) == Some(source.store)
  {
    TransferRoundTrip(source.height, source.tip, source.store);
  }
}
