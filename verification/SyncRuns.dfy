/** Whole runs of a source and a sink, with retries, rejected and foreign snapshots, lost
    answers, disk writes that fail, and crashes of the sink between and inside its writes. */
module SyncRuns {
  import opened Results
  import opened Hashing
  import opened Merkle
  import opened MerkleBinding
  import opened StateStores
  import opened WalJson
  import opened WalCodec
  import opened Persistence
  import opened WriteAheadLogs
  import opened LogReplay
  import opened WrittenLogs
  import opened PersistentStates
  import opened Snapshots
  import opened SyncNodes

  /** Where the sink is in its accept loop.  Once the marker is written, `log` and `writer` are
      history variables: the log and the handle before it. */
  datatype Phase =
    | Listening
    | Verified(snap: Snapshot)
    | Marked(snap: Snapshot, log: string, writer: Handle)
    | Stored(snap: Snapshot, log: string, writer: Handle)
    | Exited

  datatype Sink = Down | Up(store: Entries, handle: Handle, phase: Phase)

  /** An acknowledgement carries a root; the store it stands for is a history variable. */
  datatype Ack = Ack(root: string, store: Entries)

  datatype Status = Trying | Synced(ack: Ack) | Failed

  datatype Source = Source(store: Entries, height: nat, tip: string, attempt: nat, retries: nat, status: Status)

  datatype System = System(source: Source, disk: DiskState, sink: Sink, wire: set<Snapshot>, acks: set<Ack>)

  /** The source may hold any store; the sink's disk any lines, any torn last line and any
      snapshot file. */
  ghost predicate Init(s: System) {
    && s.source.attempt == 0 && s.source.status == Trying
    && IsWrittenLog(s.disk.log) && s.sink == Down && s.wire == {} && s.acks == {}
  }

  // ---------- source ----------

  predicate Send(s: System, t: System) {
    && s.source.status == Trying
    && t == s.(wire := s.wire + {FromState(s.source.height, s.source.tip, s.source.store)})
  }

  predicate AcceptAck(s: System, t: System, ack: Ack) {
    && s.source.status == Trying && ack in s.acks && ack.root == Root(s.source.store)
    && t == s.(source := s.source.(status := Synced(ack)))
  }

  predicate AttemptFails(s: System, t: System) {
    && s.source.status == Trying
    && t == s.(source := if s.source.attempt < s.source.retries
                         then s.source.(attempt := s.source.attempt + 1)
                         else s.source.(status := Status.Failed))
  }

  /** Any other peer may send any snapshot. */
  predicate ForeignSend(s: System, t: System, snap: Snapshot) {
    t == s.(wire := s.wire + {snap})
  }

  // ---------- sink ----------

  predicate Receive(s: System, t: System, snap: Snapshot) {
    && s.sink.Up? && s.sink.phase == Listening && snap in s.wire
    && match VerifySnapshot(snap)
       case None => t == s
       case Some(store) => t == s.(sink := Up(store, s.sink.handle, Verified(snap)))
  }

  function MarkerOf(s: System): WalOp
    requires s.sink.Up? && s.sink.phase.Verified?
  {
    Checkpoint(s.sink.phase.snap.height, s.sink.phase.snap.tipBlockHash, Root(s.sink.store))
  }

  predicate WriteMarker(s: System, t: System) {
    && s.sink.Up? && s.sink.phase.Verified?
    && var (h, op) := (s.sink.handle, MarkerOf(s));
       t == s.(disk := s.disk.(log := s.disk.log + LineFor(h, op)),
               sink := Up(s.sink.store, HandleBehind(h, op), Marked(s.sink.phase.snap, s.disk.log, h)))
  }

  /** The append fails with `n` characters of the line in the log; the sink keeps the new store
      and the raised sequence number, and listens again. */
  predicate MarkerFails(s: System, t: System, n: nat) {
    && s.sink.Up? && s.sink.phase.Verified?
    && var (h, line) := (s.sink.handle, LineFor(s.sink.handle, MarkerOf(s)));
       && n <= |line|
       && t == s.(disk := s.disk.(log := s.disk.log + line[..n]),
                  sink := Up(s.sink.store, Handle(h.seqNo + 1, h.prevHash), Listening))
  }

  predicate WriteSnapshot(s: System, t: System) {
    && s.sink.Up? && s.sink.phase.Marked?
    && var p := s.sink.phase;
       t == s.(disk := s.disk.(snapshot := Some(FromStore(s.sink.store, p.snap.height, p.snap.tipBlockHash))),
               sink := Up(s.sink.store, s.sink.handle, Stored(p.snap, p.log, p.writer)))
  }

  predicate SnapshotFails(s: System, t: System, w: FileWrite) {
    && s.sink.Up? && s.sink.phase.Marked? && w != Complete
    && var snap := s.sink.phase.snap;
       var file := FileAfter(s.disk.snapshot, FromStore(s.sink.store, snap.height, snap.tipBlockHash), w);
       t == s.(disk := s.disk.(snapshot := file), sink := Up(s.sink.store, s.sink.handle, Listening))
  }

  predicate SendAck(s: System, t: System, ack: Ack) {
    && s.sink.Up? && s.sink.phase.Stored? && ack == Ack(Root(s.sink.store), s.sink.store)
    && t == s.(acks := s.acks + {ack}, sink := Up(s.sink.store, s.sink.handle, Exited))
  }

  predicate AckNotSent(s: System, t: System) {
    && s.sink.Up? && s.sink.phase.Stored?
    && t == s.(sink := Up(s.sink.store, s.sink.handle, Listening))
  }

  /** A crash keeps the log, or leaves part of the marker being written, and may leave anything
      of the snapshot file. */
  predicate Crash(s: System, t: System, n: nat) {
    && s.sink.Up? && t == s.(sink := Down, disk := t.disk)
    && if n == 0 then t.disk.log == s.disk.log
       else
         && s.sink.phase.Verified?
         && var text := Encode(NextRecord(s.sink.handle, MarkerOf(s)));
            n <= |text| && t.disk.log == s.disk.log + text[..n]
  }

  predicate Reopen(s: System, t: System) {
    && s.sink.Down? && OpenDisk(s.disk).Ok?
    && var o := OpenDisk(s.disk).value; t == s.(sink := Up(o.store, o.handle, Listening))
  }

  ghost predicate Next(s: System, t: System) {
    || Send(s, t) || AttemptFails(s, t)
    || (exists ack :: AcceptAck(s, t, ack))
    || (exists snap :: ForeignSend(s, t, snap))
    || (exists snap :: Receive(s, t, snap))
    || WriteMarker(s, t)
    || (exists n :: MarkerFails(s, t, n))
    || WriteSnapshot(s, t)
    || (exists w :: SnapshotFails(s, t, w))
    || (exists ack :: SendAck(s, t, ack))
    || AckNotSent(s, t)
    || (exists n :: Crash(s, t, n))
    || Reopen(s, t)
  }

  ghost predicate IsRun(run: seq<System>) {
    && run != [] && Init(run[0])
    && forall i :: 0 <= i < |run| - 1 ==> Next(run[i], run[i + 1])
  }

  // ---------- the invariant ----------

  ghost predicate SinkRight(s: System) {
    && IsWrittenLog(s.disk.log)
    && (s.sink.Up? && s.sink.phase.Marked? ==>
          var p := s.sink.phase;
          && IsWrittenLog(p.log)
          && s.disk.log == MarkedDisk(p.log, p.writer, p.snap.height, p.snap.tipBlockHash, s.sink.store).log)
    && (s.sink.Up? && s.sink.phase.Stored? ==>
          var p := s.sink.phase;
          && IsWrittenLog(p.log)
          && s.disk == MarkedDisk(p.log, p.writer, p.snap.height, p.snap.tipBlockHash, s.sink.store))
  }

  ghost predicate SourceRight(s: System) {
    s.source.status.Synced? ==> s.source.status.ack in s.acks && s.source.status.ack.root == Root(s.source.store)
  }

  lemma WriteKeepsSink(s: System, n: nat)
    requires SinkRight(s) && s.sink.Up? && s.sink.phase.Verified? && n <= |LineFor(s.sink.handle, MarkerOf(s))|
    ensures IsWrittenLog(s.disk.log + LineFor(s.sink.handle, MarkerOf(s))[..n])
  {
    WriteKeepsShape(s.disk.log, s.sink.handle, MarkerOf(s), n);
  }

  lemma {:induction false} SinkStep(s: System, t: System)
    requires SinkRight(s) && Next(s, t)
    ensures SinkRight(t)
  {
    hide Root, Encode, RecordHash, IsWrittenLog, VerifySnapshot, FromState, OpenDisk;
    if WriteMarker(s, t) {
      var line := LineFor(s.sink.handle, MarkerOf(s));
      WriteKeepsSink(s, |line|);
      assert line[..|line|] == line;
    } else if n: nat :| MarkerFails(s, t, n) {
      WriteKeepsSink(s, n);
    } else if n: nat :| Crash(s, t, n) {
      if n > 0 {
        assert LineFor(s.sink.handle, MarkerOf(s))[..n] == Encode(NextRecord(s.sink.handle, MarkerOf(s)))[..n];
        WriteKeepsSink(s, n);
      }
    }
  }

  /** The log kept the marker of the store that is about to be acknowledged. */
  predicate MarkerKept(s: System) {
    && s.sink.Up? && s.sink.phase.Stored?
    && var p := s.sink.phase; Keeps(p.log, p.writer, p.snap.height, p.snap.tipBlockHash, s.sink.store)
  }

  /** Whenever the sink sends an acknowledgement, its disk reopens to the acknowledged store
      exactly if the log kept the marker; that is so if the log took it. */
  lemma {:induction false} AckedReopensIff(s: System, t: System, ack: Ack)
    requires SinkRight(s) && SendAck(s, t, ack)
    ensures Reopens(t.disk, ack.store) <==> MarkerKept(s)
    ensures TakesAppend(s.sink.phase.log, s.sink.phase.writer) ==> Reopens(t.disk, ack.store)
    ensures ack.root == Root(ack.store)
  {
    hide Root, Reopens, TakesAppend, MarkedDisk, IsWrittenLog;
    var p := s.sink.phase;
    MarkedReopensIff(p.log, p.writer, p.snap.height, p.snap.tipBlockHash, s.sink.store);
  }

  /** The acknowledgement was sent in step `i` of the run, from a disk that reopens to its store
      exactly if the log kept the marker. */
  ghost predicate SentAt(run: seq<System>, i: nat, ack: Ack) {
    && i + 1 < |run| && SendAck(run[i], run[i + 1], ack)
    && (Reopens(run[i + 1].disk, ack.store) <==> MarkerKept(run[i]))
  }

  lemma SourceStep(s: System, t: System)
    requires SourceRight(s) && Next(s, t)
    ensures SourceRight(t)
    ensures forall ack :: ack in t.acks && ack !in s.acks ==> SendAck(s, t, ack)
  {
    hide Root, LineFor, VerifySnapshot, FromState, OpenDisk, Encode, RecordHash, FileAfter;
  }

  lemma {:induction false} RunInvariant(run: seq<System>)
    requires IsRun(run)
    ensures var s := run[|run| - 1];
            SinkRight(s) && SourceRight(s) && forall ack :: ack in s.acks ==> exists i :: SentAt(run, i, ack)
    decreases |run|
  {
    hide Next, SinkRight, SourceRight, SendAck, Reopens, MarkerKept;
    if |run| == 1 {
      InitRight(run[0]);
    } else {
      var before, n := run[..|run| - 1], |run| - 2;
      assert forall i :: 0 <= i < |before| - 1 ==> Next(run[i], run[i + 1]);
      RunInvariant(before);
      assert Next(run[n], run[n + 1]);
      SinkStep(run[n], run[n + 1]);
      SourceStep(run[n], run[n + 1]);
      var acks := run[n + 1].acks;
      forall ack | ack in acks
        ensures exists i :: SentAt(run, i, ack)
      {
        if ack in run[n].acks {
          var i :| SentAt(before, i, ack);
          assert SentAt(run, i, ack);
        } else {
          AckedReopensIff(run[n], run[n + 1], ack);
          assert SentAt(run, n, ack);
        }
      }
    }
  }

  lemma InitRight(s: System)
    requires Init(s)
    ensures SinkRight(s) && SourceRight(s) && s.acks == {}
  {
  }

  lemma {:induction false} EverySending(run: seq<System>, i: nat, ack: Ack)
    requires IsRun(run) && i + 1 < |run| && SendAck(run[i], run[i + 1], ack)
    ensures SentAt(run, i, ack)
  {
    hide Next, Init, SinkRight, SourceRight, SendAck, Reopens, MarkerKept;
    var upTo := run[..i + 1];
    assert forall k :: 0 <= k < |upTo| - 1 ==> Next(run[k], run[k + 1]);
    RunInvariant(upTo);
    assert upTo[|upTo| - 1] == run[i];
    AckedReopensIff(run[i], run[i + 1], ack);
  }

  lemma SentRoot(run: seq<System>, ack: Ack)
    requires exists i :: SentAt(run, i, ack)
    ensures ack.root == Root(ack.store)
  {
    hide Reopens, MarkerKept, Root;
    var i :| SentAt(run, i, ack);
  }

  /** What an acknowledgement means, in every run: whenever one is sent, the disk reopens to the
      acknowledged store exactly if the log kept the marker, and none exists that was not sent;
      and if the source has accepted one, that store is the source's own, unless a key is not
      well formed or two hashed texts collide. */
  lemma {:induction false} AckMeansDurable(run: seq<System>)
    requires IsRun(run)
    ensures var s := run[|run| - 1];
            && (forall i, ack :: 0 <= i < |run| - 1 && SendAck(run[i], run[i + 1], ack) ==> SentAt(run, i, ack))
            && (forall ack :: ack in s.acks ==> exists i :: SentAt(run, i, ack))
            && (s.source.status.Synced? ==>
                  var ack := s.source.status.ack;
                  && (exists i :: SentAt(run, i, ack))
                  && (WellFormed(ack.store) && WellFormed(s.source.store) ==>
                        ack.store == s.source.store
                        || CollisionIn(MerkleTexts(ack.store) + MerkleTexts(s.source.store))))
  {
    hide Next, Init, SentAt, SendAck, SinkRight, WellFormed, MerkleTexts, CollisionIn;
    RunInvariant(run);
    var s := run[|run| - 1];
    forall i, ack | 0 <= i < |run| - 1 && SendAck(run[i], run[i + 1], ack)
      ensures SentAt(run, i, ack)
    {
      EverySending(run, i, ack);
    }
    if s.source.status.Synced? {
      var ack := s.source.status.ack;
      if WellFormed(ack.store) && WellFormed(s.source.store) {
        SentRoot(run, ack);
        RootBinding(ack.store, s.source.store);
      }
    }
  }

  // ---------- how often the source tries ----------

  /** The attempts of a run that failed. */
  ghost function FailedAttempts(run: seq<System>): nat {
    if |run| < 2 then 0
    else FailedAttempts(run[..|run| - 1]) + if AttemptFails(run[|run| - 2], run[|run| - 1]) then 1 else 0
  }

  lemma {:induction false} AttemptStep(s: System, t: System)
    requires Next(s, t) && s.source.attempt <= s.source.retries
    requires s.source.status.Failed? ==> s.source.attempt == s.source.retries
    ensures t.source.attempt <= t.source.retries == s.source.retries
    ensures t.source.status.Failed? ==> t.source.attempt == t.source.retries
    ensures Tries(t) == Tries(s) + if AttemptFails(s, t) then 1 else 0
  {
    hide Root, LineFor, VerifySnapshot, FromState, OpenDisk, Encode, RecordHash, FileAfter;
  }

  function Tries(s: System): nat {
    s.source.attempt + if s.source.status.Failed? then 1 else 0
  }

  /** In every run the source has counted its failed attempts, and it gives up exactly with the
      last of `retries` + 1. */
  lemma {:induction false} GivesUpAfterRetries(run: seq<System>)
    requires IsRun(run)
    ensures var s := run[|run| - 1].source;
            && s.retries == run[0].source.retries
            && (s.status.Failed? <==> FailedAttempts(run) == s.retries + 1)
            && (!s.status.Failed? ==> s.attempt == FailedAttempts(run) <= s.retries)
    ensures var s := run[|run| - 1].source; s.status.Failed? ==> s.attempt == s.retries
    decreases |run|
  {
    hide Next, AttemptFails;
    if |run| > 1 {
      var before, n := run[..|run| - 1], |run| - 2;
      assert forall i :: 0 <= i < |before| - 1 ==> Next(run[i], run[i + 1]);
      GivesUpAfterRetries(before);
      assert Next(run[n], run[n + 1]);
      AttemptStep(run[n], run[n + 1]);
    }
  }

  // ---------- what is acknowledged ----------

  /** The snapshot being worked on was sent, declares the root of its entries, and rebuilds to the
      store in memory. */
  predicate WorksOn(s: System, snap: Snapshot)
    requires s.sink.Up?
  {
    snap in s.wire && s.sink.store == Rebuild(snap.entries) && Root(s.sink.store) == snap.stateRoot
  }

  predicate WorkRight(s: System) {
    s.sink.Up? && (s.sink.phase.Verified? || s.sink.phase.Marked? || s.sink.phase.Stored?) ==> WorksOn(s, s.sink.phase.snap)
  }

  lemma {:induction false} WorkStep(s: System, t: System)
    requires WorkRight(s) && Next(s, t)
    ensures WorkRight(t)
  {
    hide Root, Encode, RecordHash, Rebuild, FromState, OpenDisk, VerifySnapshot, FileAfter, Replay;
    if snap :| Receive(s, t, snap) {
      VerifiedIsDeclared(snap, s.sink.store);
    }
  }

  lemma {:induction false} RunWorkRight(run: seq<System>)
    requires IsRun(run)
    ensures WorkRight(run[|run| - 1])
    decreases |run|
  {
    hide Next, WorkRight, Init;
    if |run| > 1 {
      var before, n := run[..|run| - 1], |run| - 2;
      assert forall i :: 0 <= i < |before| - 1 ==> Next(run[i], run[i + 1]);
      RunWorkRight(before);
      assert Next(run[n], run[n + 1]);
      WorkStep(run[n], run[n + 1]);
    } else {
      InitWorks(run[0]);
    }
  }

  lemma InitWorks(s: System)
    requires Init(s)
    ensures WorkRight(s)
  {
  }

  /** In every run, whenever an acknowledgement is sent: some message that was sent declares its
      root, and the acknowledged store is what the entries of that message rebuild to.  If the
      root is that of a trusted store, it is the trusted store, unless a key is not well formed
      or two texts collide. */
  lemma {:induction false} AckedIsDeclared(run: seq<System>, i: nat, ack: Ack, trusted: Entries) returns (snap: Snapshot)
    requires IsRun(run) && i + 1 < |run| && SendAck(run[i], run[i + 1], ack)
    ensures snap in run[i].wire && ack.root == snap.stateRoot == Root(ack.store) && ack.store == Rebuild(snap.entries)
    ensures ack.root == Root(trusted) && WellFormed(trusted) && WellFormed(ack.store) ==>
              ack.store == trusted || CollisionIn(MerkleTexts(ack.store) + MerkleTexts(trusted))
  {
    hide Next, Init, Root, Rebuild, MerkleTexts, CollisionIn, WellFormed;
    var upTo := run[..i + 1];
    assert forall k :: 0 <= k < |upTo| - 1 ==> Next(run[k], run[k + 1]);
    RunWorkRight(upTo);
    assert upTo[|upTo| - 1] == run[i];
    snap := run[i].sink.phase.snap;
    if ack.root == Root(trusted) && WellFormed(trusted) && WellFormed(ack.store) { RootBinding(ack.store, trusted); }
  }

  // ---------- runs in which every acknowledged store is on the disk ----------

  /** No append of the sink fails, and no crash tears one. */
  ghost predicate Undisturbed(s: System, t: System) {
    && !(exists n :: MarkerFails(s, t, n))
    && (t.sink.Down? ==> t.disk.log == s.disk.log)
  }

  predicate InOrder(s: System) {
    && IsWhole(s.disk.log) && ReplayClosed(s.disk.log).Ok?
    && (s.sink.Up? ==> TakesAppend(s.disk.log, s.sink.handle))
    && (s.sink.Up? && (s.sink.phase.Marked? || s.sink.phase.Stored?) ==> TakesAppend(s.sink.phase.log, s.sink.phase.writer))
  }

  lemma {:induction false} OrderStep(s: System, t: System)
    requires InOrder(s) && Next(s, t) && Undisturbed(s, t)
    ensures InOrder(t)
  {
    hide Root, Encode, RecordHash, Replay, ReplayClosed, VerifySnapshot, FromState, Recover, IsWhole, FileAfter;
    if WriteMarker(s, t) {
      AppendTaken(s.disk.log, s.sink.handle, MarkerOf(s));
    } else if Reopen(s, t) {
      ClosedReplays(s.disk.log);
    }
  }

  /** If the log was in order when the sink was first opened, no append failed and no crash tore
      one, then every acknowledgement was sent from a disk that reopens to its store. */
  lemma {:induction false} UndisturbedAcksReopen(run: seq<System>)
    requires IsRun(run) && InOrder(run[0])
    requires forall i :: 0 <= i < |run| - 1 ==> Undisturbed(run[i], run[i + 1])
    ensures InOrder(run[|run| - 1])
    ensures forall i, ack :: 0 <= i < |run| - 1 && SendAck(run[i], run[i + 1], ack) ==> Reopens(run[i + 1].disk, ack.store)
    decreases |run|
  {
    hide Next, InOrder, Undisturbed, SendAck, Reopens;
    if |run| > 1 {
      var before, n := run[..|run| - 1], |run| - 2;
      assert forall i :: 0 <= i < |before| - 1 ==> Next(run[i], run[i + 1]) && Undisturbed(run[i], run[i + 1]);
      UndisturbedAcksReopen(before);
      assert Next(run[n], run[n + 1]) && Undisturbed(run[n], run[n + 1]);
      OrderStep(run[n], run[n + 1]);
      RunInvariant(before);
      forall i, ack | 0 <= i < |run| - 1 && SendAck(run[i], run[i + 1], ack)
        ensures Reopens(run[i + 1].disk, ack.store)
      {
        if i == n {
          OrderedAck(run[n], run[n + 1], ack);
        } else {
          assert before[i] == run[i] && before[i + 1] == run[i + 1];
        }
      }
    }
  }

  lemma OrderedAck(s: System, t: System, ack: Ack)
    requires SinkRight(s) && InOrder(s) && SendAck(s, t, ack)
    ensures Reopens(t.disk, ack.store)
  {
    hide Root, Reopens, TakesAppend, MarkedDisk, IsWrittenLog;
    AckedReopensIff(s, t, ack);
  }

  // ---------- how long an acknowledged store lasts ----------

  /** The snapshot file stays, and no marker is written in full. */
  predicate Quiet(s: System, t: System) {
    && t.disk.snapshot == s.disk.snapshot
    && (t.disk.log != s.disk.log ==>
          && s.sink.Up? && s.sink.phase.Verified?
          && |t.disk.log| < |s.disk.log| + |Encode(NextRecord(s.sink.handle, MarkerOf(s)))|)
  }

  /** Shards that replay does not read as a record. */
  ghost predicate Unread(shards: seq<Shard>) {
    IsShards(shards) && (|shards| == 1 ==> shards[0].n < |Encode(shards[0].record)|)
  }

  ghost predicate GrewUnread(log: string, later: string) {
    exists shards :: Unread(shards) && later == log + Glued(shards)
  }

  lemma {:induction false} UnreadIsDropped(log: string, later: string)
    requires IsWhole(log) && ReplayClosed(log).Ok? && GrewUnread(log, later)
    ensures Replay(later) == Replay(log)
  {
    hide Replay, ReplayClosed, Encode, Decode, Lines;
    var shards: seq<Shard> :| Unread(shards) && later == log + Glued(shards);
    ClosedReplays(log);
    if shards == [] {
      assert log + Glued(shards) == log;
    } else {
      GluedIsLine(shards);
      if |shards| == 1 {
        GluedOne(shards[0].record, shards[0].n);
        assert shards == [shards[0]];
        DecodeTruncated(shards[0].record, shards[0].n);
      } else {
        DecodeGlued(shards);
      }
      ReplayGarbledLine(log, Glued(shards));
    }
  }

  lemma {:induction false} QuietStep(log: string, s: System, t: System)
    requires GrewUnread(log, s.disk.log) && Next(s, t) && Quiet(s, t)
    ensures GrewUnread(log, t.disk.log)
  {
    hide Root, Encode, RecordHash, VerifySnapshot, FromState, OpenDisk, IsShards, Glued, FileAfter;
    if t.disk.log != s.disk.log {
      var r := NextRecord(s.sink.handle, MarkerOf(s));
      var n := QuietWrite(s, t);
      var shards :| Unread(shards) && s.disk.log == log + Glued(shards);
      GluedSnoc(shards, r, n);
      assert t.disk.log == log + (Glued(shards) + Encode(r)[..n]);
      assert Unread(shards + [Shard(r, n)]);
    }
  }

  lemma {:induction false} QuietWrite(s: System, t: System) returns (n: nat)
    requires Next(s, t) && Quiet(s, t) && t.disk.log != s.disk.log
    ensures s.sink.Up? && s.sink.phase.Verified?
    ensures var text := Encode(NextRecord(s.sink.handle, MarkerOf(s)));
            0 < n < |text| && t.disk.log == s.disk.log + text[..n]
  {
    hide Root, Encode, RecordHash, VerifySnapshot, FromState, OpenDisk, FileAfter;
    var text := Encode(NextRecord(s.sink.handle, MarkerOf(s)));
    assert s.disk.log + LineFor(s.sink.handle, MarkerOf(s))[..0] == s.disk.log;
    n := 0;
    if m: nat :| MarkerFails(s, t, m) {
      n := m;
      assert LineFor(s.sink.handle, MarkerOf(s))[..n] == text[..n];
    } else if m: nat :| Crash(s, t, m) {
      n := m;
    }
  }

  lemma LogStaysUnread(run: seq<System>, i: nat, j: nat)
    requires IsRun(run) && i <= j < |run| && GrewUnread(run[i].disk.log, run[i].disk.log)
    requires forall k :: i <= k < j ==> Quiet(run[k], run[k + 1])
    ensures GrewUnread(run[i].disk.log, run[j].disk.log) && run[j].disk.snapshot == run[i].disk.snapshot
  {
    hide Next, Init, Quiet, GrewUnread;
    for k := i to j
      invariant GrewUnread(run[i].disk.log, run[k].disk.log) && run[k].disk.snapshot == run[i].disk.snapshot
    {
      assert Next(run[k], run[k + 1]) && Quiet(run[k], run[k + 1]);
      QuietStep(run[i].disk.log, run[k], run[k + 1]);
      QuietFile(run[k], run[k + 1]);
    }
  }

  lemma QuietFile(s: System, t: System)
    requires Quiet(s, t)
    ensures t.disk.snapshot == s.disk.snapshot
  {
  }

  lemma SameReplayReopens(d: DiskState, e: DiskState, store: Entries)
    requires Reopens(d, store) && Replay(e.log) == Replay(d.log) && e.snapshot == d.snapshot
    ensures Reopens(e, store)
  {
  }

  lemma LogOfAck(s: System, t: System, ack: Ack)
    requires SinkRight(s) && SendAck(s, t, ack) && TakesAppend(s.sink.phase.log, s.sink.phase.writer)
    ensures IsWhole(t.disk.log) && ReplayClosed(t.disk.log).Ok? && GrewUnread(t.disk.log, t.disk.log)
    ensures Reopens(t.disk, ack.store)
  {
    hide Root, Replay, Encode, RecordHash, Recover, IsWrittenLog;
    AckedReopensIff(s, t, ack);
    var p := s.sink.phase;
    AppendTaken(p.log, p.writer, Checkpoint(p.snap.height, p.snap.tipBlockHash, Root(s.sink.store)));
    GluedNone();
    assert Unread([]) && t.disk.log == t.disk.log + Glued([]);
  }

  /** An acknowledged store whose marker the log took lasts, through listening, failed and torn
      writes, crashes and reopening, until another marker is written in full or the snapshot file
      changes. */
  lemma {:induction false} AckedStoreLastsInRun(run: seq<System>, i: nat, j: nat, ack: Ack)
    requires IsRun(run) && i + 1 <= j < |run| && SendAck(run[i], run[i + 1], ack)
    requires TakesAppend(run[i].sink.phase.log, run[i].sink.phase.writer)
    requires forall k :: i < k < j ==> Quiet(run[k], run[k + 1])
    ensures Reopens(run[j].disk, ack.store)
  {
    hide Next, Init, SinkRight, SourceRight, SentAt, SendAck, Quiet, Reopens, TakesAppend, GrewUnread, IsWhole, ReplayClosed;
    RunInvariant(run[..i + 1]);
    LogOfAck(run[i], run[i + 1], ack);
    LogStaysUnread(run, i + 1, j);
    UnreadIsDropped(run[i + 1].disk.log, run[j].disk.log);
    SameReplayReopens(run[i + 1].disk, run[j].disk, ack.store);
  }
}
