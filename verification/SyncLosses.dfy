/** Runs of the sink at whose end an acknowledged store is lost, for every log, snapshot and
    source: the hypotheses of the results in SyncRuns cannot be dropped. */
module SyncLosses {
  import opened Results
  import opened Merkle
  import opened StateStores
  import opened WalJson
  import opened WalCodec
  import opened Persistence
  import opened WriteAheadLogs
  import opened LogReplay
  import opened WrittenLogs
  import opened PersistentStates
  import opened Snapshots
  import opened SyncNodes
  import opened SyncRuns

  lemma RunThen(run: seq<System>, t: System)
    requires IsRun(run) && Next(run[|run| - 1], t)
    ensures IsRun(run + [t])
  {
    hide Next, Init;
    var longer := run + [t];
    forall i | 0 <= i < |longer| - 1
      ensures Next(longer[i], longer[i + 1])
    {
      if i < |run| - 1 { assert longer[i] == run[i] && longer[i + 1] == run[i + 1]; }
    }
  }

  /** The run that ends with `s`, whose sink listens and may receive `snap`. */
  ghost predicate Listens(run: seq<System>, s: System, snap: Snapshot) {
    && IsRun(run) && run[|run| - 1] == s
    && s.sink.Up? && s.sink.phase == Listening && snap in s.wire && VerifySnapshot(snap).Some?
  }

  lemma Start(source: Source, disk: DiskState, snap: Snapshot) returns (run: seq<System>, s: System)
    requires source.attempt == 0 && source.status == Trying
    requires IsWrittenLog(disk.log) && OpenDisk(disk).Ok? && VerifySnapshot(snap).Some?
    ensures Listens(run, s, snap)
    ensures s.sink.Up? && s.disk == disk && s.sink.handle == OpenDisk(disk).value.handle && s.acks == {}
  {
    hide IsWrittenLog, OpenDisk, VerifySnapshot;
    var s0 := System(source, disk, Down, {}, {});
    var s1 := s0.(wire := s0.wire + {snap});
    s := s1.(sink := Up(OpenDisk(disk).value.store, OpenDisk(disk).value.handle, Listening));
    assert Init(s0) && IsRun([s0]);
    assert ForeignSend(s0, s1, snap) && Next(s0, s1);
    RunThen([s0], s1);
    assert Reopen(s1, s) && Next(s1, s);
    RunThen([s0] + [s1], s);
    run := [s0] + [s1] + [s];
  }

  function Verifying(s: System, snap: Snapshot): System
    requires s.sink.Up? && VerifySnapshot(snap).Some?
  {
    s.(sink := Up(VerifySnapshot(snap).value, s.sink.handle, Verified(snap)))
  }

  lemma ReceiveNext(run: seq<System>, s: System, snap: Snapshot) returns (longer: seq<System>)
    requires Listens(run, s, snap)
    ensures IsRun(longer) && longer[|longer| - 1] == Verifying(s, snap)
  {
    hide IsRun, VerifySnapshot;
    assert Receive(s, Verifying(s, snap), snap) && Next(s, Verifying(s, snap));
    RunThen(run, Verifying(s, snap));
    longer := run + [Verifying(s, snap)];
  }

  /** One sync in which nothing fails. */
  lemma Serve(run: seq<System>, s: System, snap: Snapshot) returns (longer: seq<System>, t: System)
    requires Listens(run, s, snap)
    ensures IsRun(longer) && longer[|longer| - 1] == t && t.wire == s.wire && t.source == s.source
    ensures var store := VerifySnapshot(snap).value;
            && Ack(Root(store), store) in t.acks
            && t.disk == MarkedDisk(s.disk.log, s.sink.handle, snap.height, snap.tipBlockHash, store)
            && t.sink == Up(store, HandleBehind(s.sink.handle, Checkpoint(snap.height, snap.tipBlockHash, Root(store))), Exited)
  {
    hide IsRun, VerifySnapshot, Root, Encode, RecordHash;
    var store, h := VerifySnapshot(snap).value, s.sink.handle;
    longer := ReceiveNext(run, s, snap);
    var s1 := Verifying(s, snap);
    var op := MarkerOf(s1);
    var s2 := s1.(disk := s.disk.(log := s.disk.log + LineFor(h, op)),
                  sink := Up(store, HandleBehind(h, op), Marked(snap, s.disk.log, h)));
    assert WriteMarker(s1, s2) && Next(s1, s2);
    RunThen(longer, s2);
    var s3 := s2.(disk := MarkedDisk(s.disk.log, h, snap.height, snap.tipBlockHash, store),
                  sink := Up(store, s2.sink.handle, Stored(snap, s.disk.log, h)));
    assert WriteSnapshot(s2, s3) && Next(s2, s3);
    RunThen(longer + [s2], s3);
    t := s3.(acks := s3.acks + {Ack(Root(store), store)}, sink := Up(store, s3.sink.handle, Exited));
    assert SendAck(s3, t, Ack(Root(store), store)) && Next(s3, t);
    RunThen(longer + [s2] + [s3], t);
    longer := longer + [s2] + [s3] + [t];
  }

  /** The sink crashes between two writes, is opened again, and another peer sends `snap`. */
  lemma Restart(run: seq<System>, s: System, snap: Snapshot) returns (longer: seq<System>, t: System)
    requires IsRun(run) && run[|run| - 1] == s && s.sink.Up? && OpenDisk(s.disk).Ok? && VerifySnapshot(snap).Some?
    ensures Listens(longer, t, snap)
    ensures t.disk == s.disk && t.acks == s.acks && t.sink.handle == OpenDisk(s.disk).value.handle
  {
    hide IsRun, VerifySnapshot, OpenDisk;
    var s1 := s.(sink := Down);
    assert Crash(s, s1, 0) && Next(s, s1);
    RunThen(run, s1);
    var s2 := s1.(wire := s1.wire + {snap});
    assert ForeignSend(s1, s2, snap) && Next(s1, s2);
    RunThen(run + [s1], s2);
    t := s2.(sink := Up(OpenDisk(s.disk).value.store, OpenDisk(s.disk).value.handle, Listening));
    assert Reopen(s2, t) && Next(s2, t);
    RunThen(run + [s1] + [s2], t);
    longer := run + [s1] + [s2] + [t];
  }

  /** A sink is started on a torn log without markers and acknowledges a snapshot: its disk
      reopens to what the log says. */
  lemma {:induction false} LostOnTornLog(source: Source, ops: seq<WalOp>, torn: WalRecord, n: nat, snap: Snapshot)
    returns (run: seq<System>)
    requires source.attempt == 0 && source.status == Trying && VerifySnapshot(snap).Some?
    requires AfterLastMarker(ops) == 0 && 0 < n < |Encode(torn)|
    ensures IsRun(run)
    ensures var (t, store) := (run[|run| - 1], VerifySnapshot(snap).value);
            && Ack(Root(store), store) in t.acks
            && OpenDisk(t.disk) == Ok(Opened(Fold(map[], ops), HandleAfter(ops)))
  {
    hide IsRun, VerifySnapshot, Root, Encode, Decode, Replay, LogText, TipHash, Listens, Recover;
    var disk := DiskState(LogText(ops) + Encode(torn)[..n], None);
    GluedOne(torn, n);
    assert HoldsShards(disk.log, LogText(ops), [Shard(torn, n)]) by { assert IsWhole(LogText(ops)) by { ClosedLogText(ops); } }
    RecordNotBlank(torn);
    DecodeTruncated(torn, n);
    ReplayDropsTorn(ops, Encode(torn)[..n]);
    var s, t;
    run, s := Start(source, disk, snap);
    run, t := Serve(run, s, snap);
    TornLogLosesStore(ops, torn, n, s.sink.handle, snap.height, snap.tipBlockHash, VerifySnapshot(snap).value);
  }

  /** The marker of one snapshot fails before a character is written, the sink goes on and
      acknowledges the next snapshot: its disk does not open any more. */
  lemma {:induction false} LostAfterFailedMarker(source: Source, ops: seq<WalOp>, file: Option<PersistedSnapshot>, snap: Snapshot)
    returns (run: seq<System>)
    requires source.attempt == 0 && source.status == Trying && VerifySnapshot(snap).Some?
    ensures IsRun(run)
    ensures var (t, store) := (run[|run| - 1], VerifySnapshot(snap).value);
            Ack(Root(store), store) in t.acks && OpenDisk(t.disk).Err?
  {
    hide IsRun, VerifySnapshot, Root, Encode, Replay, LogText, TipHash, Recover;
    var disk := DiskState(LogText(ops), file);
    ClosedLogText(ops);
    WholeIsWritten(LogText(ops));
    ReplayWhole(ops);
    var s, t;
    run, s := Start(source, disk, snap);
    var store := VerifySnapshot(snap).value;
    run := ReceiveNext(run, s, snap);
    var s1, h := Verifying(s, snap), s.sink.handle;
    var s2 := s1.(sink := Up(store, Handle(h.seqNo + 1, h.prevHash), Listening));
    assert s1.disk.log + LineFor(h, MarkerOf(s1))[..0] == s1.disk.log;
    assert MarkerFails(s1, s2, 0) && Next(s1, s2);
    RunThen(run, s2);
    run := run + [s2];
    run, t := Serve(run, s2, snap);
    StaleHandleLosesDisk(ops, s2.sink.handle, snap.height, snap.tipBlockHash, store);
  }

  /** After a sync the sink is started again, and crashes behind the marker of a second one: the
      store of the first is lost although its snapshot file is intact. */
  lemma {:induction false} LostBehindNextMarker(source: Source, ops: seq<WalOp>, file: Option<PersistedSnapshot>,
                                                snap: Snapshot, snap2: Snapshot)
    returns (run: seq<System>)
    requires source.attempt == 0 && source.status == Trying
    requires VerifySnapshot(snap).Some? && VerifySnapshot(snap2).Some?
    requires Root(VerifySnapshot(snap).value) != Root(VerifySnapshot(snap2).value)
    ensures IsRun(run)
    ensures var (t, store) := (run[|run| - 1], VerifySnapshot(snap).value);
            && Ack(Root(store), store) in t.acks
            && t.disk.snapshot == Some(FromStore(store, snap.height, snap.tipBlockHash))
            && OpenDisk(t.disk).Ok? && OpenDisk(t.disk).value.store == Fold(map[], ops)
  {
    hide IsRun, VerifySnapshot, Root, Encode, RecordHash, Replay, LogText, TipHash, Recover;
    var disk := DiskState(LogText(ops), file);
    var (store, store2) := (VerifySnapshot(snap).value, VerifySnapshot(snap2).value);
    var op := Checkpoint(snap.height, snap.tipBlockHash, Root(store));
    var op2 := Checkpoint(snap2.height, snap2.tipBlockHash, Root(store2));
    ClosedLogText(ops);
    WholeIsWritten(LogText(ops));
    ReplayWhole(ops);
    AppendWhole(ops, op);
    AppendWhole(ops + [op], op2);
    var s, t;
    run, s := Start(source, disk, snap);
    run, t := Serve(run, s, snap);
    CheckpointedDiskReopens(ops, snap.height, snap.tipBlockHash, store);
    run, t := Restart(run, t, snap2);
    run := ReceiveNext(run, t, snap2);
    var t1, h := Verifying(t, snap2), t.sink.handle;
    var t2 := t1.(disk := t1.disk.(log := t1.disk.log + LineFor(h, op2)),
                  sink := Up(store2, HandleBehind(h, op2), Marked(snap2, t1.disk.log, h)));
    assert WriteMarker(t1, t2) && Next(t1, t2);
    RunThen(run, t2);
    run := run + [t2];
    NextMarkerHidesStore(ops, snap.height, snap.tipBlockHash, store, snap2.height, snap2.tipBlockHash, store2);
  }
}
