/** Crash recovery over whole runs: apply, checkpoint, failing writes, crash at any point between
    two disk writes or in the middle of one, reopen, and so on. */
module Recovery {
  import opened Results
  import opened Hashing
  import opened Merkle
  import opened MerkleBinding
  import opened StateStores
  import opened WalJson
  import opened WalCodec
  import opened Persistence
  import opened WriteAheadLogs
  import opened LogReplay
  import opened LogBinding
  import opened WrittenLogs
  import opened FailedAppends
  import opened PersistentStates

  // ---------- runs ----------

  /** Where a process is: between calls, in `apply` with the record on disk but the store not
      yet changed, or in `checkpoint` with the marker on disk but the snapshot not yet. */
  datatype Phase = Idle | Logged(tx: Tx) | Marked(height: nat, tip: string)

  datatype Process = Down | Up(store: Entries, handle: Handle, phase: Phase)

  /** A node, with two history variables: the operations whose record text is complete in the
      log, and the transactions for which `apply` returned a sequence number. */
  datatype Node = Node(disk: DiskState, process: Process, ops: seq<WalOp>, returned: map<nat, Tx>)

  datatype SnapshotFate = Kept | Unreadable | Written

  predicate Init(s: Node) {
    s == Node(DiskState("", None), Down, [], map[])
  }

  /** An operation that `apply`, which takes any key, or `checkpoint` may append to the log. */
  predicate MayAppend(s: Node, op: WalOp) {
    && s.process.Up? && s.process.phase == Idle
    && match op
       case Apply(_) => true
       case Checkpoint(_, _, root) => root == Root(s.process.store)
  }

  function AppendRecord(s: Node, op: WalOp, phase: Phase): Node
    requires s.process.Up?
  {
    var h := s.process.handle;
    s.(disk := s.disk.(log := s.disk.log + LineFor(h, op)),
       process := Up(s.process.store, Handle(h.seqNo + 1, RecordHash(NextRecord(h, op))), phase),
       ops := s.ops + [op])
  }

  predicate BeginApply(s: Node, t: Node, tx: Tx) {
    MayAppend(s, Apply(tx)) && t == AppendRecord(s, Apply(tx), Logged(tx))
  }

  predicate FinishApply(s: Node, t: Node) {
    && s.process.Up? && s.process.phase.Logged?
    && var tx := s.process.phase.tx;
       t == s.(process := Up(ApplyTx(s.process.store, tx), s.process.handle, Idle),
               returned := s.returned[s.process.handle.seqNo := tx])
  }

  predicate BeginCheckpoint(s: Node, t: Node, height: nat, tip: string) {
    && s.process.Up?
    && var op := Checkpoint(height, tip, Root(s.process.store));
       MayAppend(s, op) && t == AppendRecord(s, op, Marked(height, tip))
  }

  predicate FinishCheckpoint(s: Node, t: Node) {
    && s.process.Up? && s.process.phase.Marked?
    && var p := s.process;
       t == s.(disk := s.disk.(snapshot := Some(FromStore(p.store, p.phase.height, p.phase.tip))),
               process := Up(p.store, p.handle, Idle))
  }

  /** The marker is written, but the snapshot file is not, or not in full, or cannot be read
      back; `checkpoint` returns the error and the process goes on. */
  predicate CheckpointFails(s: Node, t: Node, w: FileWrite) {
    && s.process.Up? && s.process.phase.Marked? && w != Complete
    && var p := s.process;
       var file := FileAfter(s.disk.snapshot, FromStore(p.store, p.phase.height, p.phase.tip), w);
       t == s.(disk := s.disk.(snapshot := file), process := Up(p.store, p.handle, Idle))
  }

  /** An append fails with `n` characters of its line in the log, and the process goes on with a
      raised sequence number. */
  predicate AppendFails(s: Node, t: Node, op: WalOp, n: nat) {
    && MayAppend(s, op)
    && var (h, line) := (s.process.handle, LineFor(s.process.handle, op));
       && n <= |line|
       && t == s.(disk := s.disk.(log := s.disk.log + line[..n]),
                  process := Up(s.process.store, Handle(h.seqNo + 1, h.prevHash), Idle),
                  ops := if |line| <= n + 1 then s.ops + [op] else s.ops)
  }

  /** What a crash leaves of the snapshot file: anything may turn unreadable, and a snapshot
      that was being written may have become complete. */
  predicate SnapshotAfterCrash(s: Node, t: Node, fate: SnapshotFate) {
    && s.process.Up?
    && match fate
       case Kept => t.disk.snapshot == s.disk.snapshot
       case Unreadable => t.disk.snapshot == None
       case Written =>
         && s.process.phase.Marked?
         && t.disk.snapshot == Some(FromStore(s.process.store, s.process.phase.height, s.process.phase.tip))
  }

  predicate Crash(s: Node, t: Node, fate: SnapshotFate) {
    && SnapshotAfterCrash(s, t, fate)
    && t == s.(disk := DiskState(s.disk.log, t.disk.snapshot), process := Down)
  }

  /** A crash in the middle of a record: some, but not all, of its line reaches the disk. */
  predicate TornCrash(s: Node, t: Node, op: WalOp, n: nat, fate: SnapshotFate) {
    && MayAppend(s, op) && SnapshotAfterCrash(s, t, fate)
    && var text := Encode(NextRecord(s.process.handle, op));
       && 0 < n <= |text|
       && t == s.(disk := DiskState(s.disk.log + text[..n], t.disk.snapshot), process := Down,
                  ops := if n == |text| then s.ops + [op] else s.ops)
  }

  predicate Reopen(s: Node, t: Node) {
    && s.process.Down? && OpenDisk(s.disk).Ok?
    && var o := OpenDisk(s.disk).value; t == s.(process := Up(o.store, o.handle, Idle))
  }

  ghost predicate Next(s: Node, t: Node) {
    || (exists tx :: BeginApply(s, t, tx))
    || FinishApply(s, t)
    || (exists height, tip :: BeginCheckpoint(s, t, height, tip))
    || FinishCheckpoint(s, t)
    || (exists w :: CheckpointFails(s, t, w))
    || (exists op, n :: AppendFails(s, t, op, n))
    || (exists fate :: Crash(s, t, fate))
    || (exists op, n, fate :: TornCrash(s, t, op, n, fate))
    || Reopen(s, t)
  }

  ghost predicate IsRun(run: seq<Node>) {
    && run != [] && Init(run[0])
    && forall i :: 0 <= i < |run| - 1 ==> Next(run[i], run[i + 1])
  }

  /** The log is written only if it ends behind a line break, and no process goes on after a
      failed append. */
  ghost predicate Careful(s: Node, t: Node) {
    && (t.disk.log != s.disk.log ==> IsWhole(s.disk.log))
    && !exists op, n :: AppendFails(s, t, op, n)
  }

  ghost predicate IsCarefulRun(run: seq<Node>) {
    IsRun(run) && forall i :: 0 <= i < |run| - 1 ==> Careful(run[i], run[i + 1])
  }

  // ---------- folding ----------

  function Store(ops: seq<WalOp>): Entries {
    Fold(map[], ops)
  }

  lemma {:induction false} FoldConcat(base: Entries, a: seq<WalOp>, b: seq<WalOp>)
    ensures Fold(base, a + b) == Fold(Fold(base, a), b)
    decreases |b|
  {
    if b == [] {
      assert a + b == a;
    } else {
      FoldConcat(base, a, b[..|b| - 1]);
      assert (a + b)[..|a + b| - 1] == a + b[..|b| - 1];
    }
  }

  ghost predicate WellFormedOps(ops: seq<WalOp>) {
    forall i :: 0 <= i < |ops| && ops[i].Apply? ==> WellFormedKey(ops[i].tx.key)
  }

  lemma {:induction false} StoreWellFormed(ops: seq<WalOp>)
    requires WellFormedOps(ops)
    ensures WellFormed(Store(ops))
  {
    if ops != [] { StoreWellFormed(ops[..|ops| - 1]); }
  }

  /** The texts hashed for the roots of all stores on the way. */
  ghost function RunTexts(ops: seq<WalOp>): set<string> {
    MerkleTexts(Store(ops)) + if ops == [] then {} else RunTexts(ops[..|ops| - 1])
  }

  lemma {:induction false} RunTextsOf(ops: seq<WalOp>, i: nat)
    requires i <= |ops|
    ensures MerkleTexts(Store(ops[..i])) <= RunTexts(ops)
    decreases |ops|
  {
    hide MerkleTexts, Store;
    if i == |ops| {
      assert ops[..i] == ops;
    } else {
      RunTextsOf(ops[..|ops| - 1], i);
      assert ops[..|ops| - 1][..i] == ops[..i];
    }
  }

  // ---------- the two recovery paths agree ----------

  predicate MarkerRightAt(ops: seq<WalOp>, j: nat)
    requires j < |ops|
  {
    ops[j].Checkpoint? ==> ops[j].stateRoot == Root(Store(ops[..j]))
  }

  /** Every marker carries the root of the store before it. */
  ghost predicate MarkersRight(ops: seq<WalOp>) {
    forall j :: 0 <= j < |ops| ==> MarkerRightAt(ops, j)
  }

  /** The snapshot is one of the stores the log went through, not necessarily the one of the
      last marker. */
  ghost predicate SnapshotRight(ops: seq<WalOp>, snapshot: Option<PersistedSnapshot>) {
    snapshot.Some? ==>
      exists i :: 0 <= i <= |ops| && snapshot.value.entries == Store(ops[..i])
  }

  lemma {:induction false} SameRootSameStore(ops: seq<WalOp>, i: nat, j: nat)
    requires i <= |ops| && j <= |ops|
    requires WellFormedOps(ops) && !CollisionIn(RunTexts(ops))
    requires Root(Store(ops[..i])) == Root(Store(ops[..j]))
    ensures Store(ops[..i]) == Store(ops[..j])
  {
    StoreWellFormed(ops[..i]);
    StoreWellFormed(ops[..j]);
    RunTextsOf(ops, i);
    RunTextsOf(ops, j);
    RootBinding(Store(ops[..i]), Store(ops[..j]));
    NoCollisionInSubset(MerkleTexts(Store(ops[..i])) + MerkleTexts(Store(ops[..j])), RunTexts(ops));
  }

  lemma MarkerKeepsStore(ops: seq<WalOp>, n: nat)
    requires 0 < n <= |ops| && ops[n - 1].Checkpoint?
    ensures Fold(Store(ops[..n - 1]), ops[n..]) == Store(ops)
  {
    assert ops[..n][..n - 1] == ops[..n - 1];
    FoldConcat(map[], ops[..n], ops[n..]);
    assert ops[..n] + ops[n..] == ops;
  }

  /** Snapshot plus suffix agrees with replay from genesis, if no operation has a key that is a
      digest or holds a bar, and no two texts hashed for the roots collide. */
  lemma {:induction false} RecoveryPathsAgree(ops: seq<WalOp>, snapshot: Option<PersistedSnapshot>)
    requires MarkersRight(ops) && SnapshotRight(ops, snapshot)
    ensures Recover(ops, snapshot) == Store(ops) || !WellFormedOps(ops) || CollisionIn(RunTexts(ops))
  {
    hide Root, RunTexts, CollisionIn, WellFormedOps;
    var n, loaded := AfterLastMarker(ops), LoadStore(snapshot);
    if n > 0 && loaded.Some? && Root(loaded.value) == ops[n - 1].stateRoot {
      var i :| 0 <= i <= |ops| && snapshot.value.entries == Store(ops[..i]);
      assert MarkerRightAt(ops, n - 1);
      if WellFormedOps(ops) && !CollisionIn(RunTexts(ops)) {
        SameRootSameStore(ops, i, n - 1);
        MarkerKeepsStore(ops, n);
      }
    }
  }

  // ---------- exactly when they agree ----------

  /** The keys that the transactions among `ops` set or remove. */
  function TouchedKeys(ops: seq<WalOp>): set<string> {
    if ops == [] then {}
    else
      var op := ops[|ops| - 1];
      TouchedKeys(ops[..|ops| - 1]) + if op.Apply? then {op.tx.key} else {}
  }

  function Lookup(m: Entries, k: string): Option<string> {
    if k in m then Some(m[k]) else None
  }

  lemma {:induction false} FoldAt(a: Entries, b: Entries, ops: seq<WalOp>, k: string)
    ensures k !in TouchedKeys(ops) ==> Lookup(Fold(a, ops), k) == Lookup(a, k)
    ensures k in TouchedKeys(ops) ==> Lookup(Fold(a, ops), k) == Lookup(Fold(b, ops), k)
  {
    if ops != [] { FoldAt(a, b, ops[..|ops| - 1], k); }
  }

  lemma SameLookups(a: Entries, b: Entries)
    requires forall k :: Lookup(a, k) == Lookup(b, k)
    ensures a == b
  {
    forall k ensures k in a <==> k in b { assert Lookup(a, k) == Lookup(b, k); }
    forall k | k in a ensures a[k] == b[k] { assert Lookup(a, k) == Lookup(b, k); }
  }

  /** Two stores become equal exactly if they agree on all keys that are not touched. */
  lemma {:induction false} FoldsAgreeIff(a: Entries, b: Entries, ops: seq<WalOp>)
    ensures Fold(a, ops) == Fold(b, ops) <==> a - TouchedKeys(ops) == b - TouchedKeys(ops)
  {
    hide Fold, TouchedKeys;
    var touched := TouchedKeys(ops);
    if a - touched == b - touched {
      forall k ensures Lookup(Fold(a, ops), k) == Lookup(Fold(b, ops), k) {
        FoldAt(a, b, ops, k);
        FoldAt(b, a, ops, k);
        assert Lookup(a - touched, k) == Lookup(b - touched, k);
      }
      SameLookups(Fold(a, ops), Fold(b, ops));
    }
    if Fold(a, ops) == Fold(b, ops) {
      forall k ensures Lookup(a - touched, k) == Lookup(b - touched, k) {
        FoldAt(a, b, ops, k);
        FoldAt(b, a, ops, k);
      }
      SameLookups(a - touched, b - touched);
    }
  }

  /** Whatever the log and the snapshot file: recovery gives the fold of the log exactly if it
      does not take the snapshot, or the snapshot agrees with the store at the last marker on
      every key that is not touched behind the marker. */
  lemma {:induction false} RecoversIff(ops: seq<WalOp>, snapshot: Option<PersistedSnapshot>)
    ensures var (n, loaded) := (AfterLastMarker(ops), LoadStore(snapshot));
            Recover(ops, snapshot) == Store(ops)
            <==> || n == 0 || loaded.None? || Root(loaded.value) != ops[n - 1].stateRoot
                 || loaded.value - TouchedKeys(ops[n..]) == Store(ops[..n - 1]) - TouchedKeys(ops[n..])
  {
    hide Root, Fold, TouchedKeys;
    var n, loaded := AfterLastMarker(ops), LoadStore(snapshot);
    if n > 0 && loaded.Some? {
      MarkerKeepsStore(ops, n);
      FoldsAgreeIff(loaded.value, Store(ops[..n - 1]), ops[n..]);
    }
  }

  // ---------- the invariant ----------

  /** The log holds `ops`, complete, and possibly the torn beginning of one more record. */
  ghost predicate LogHolds(log: string, ops: seq<WalOp>) {
    exists all, cut :: HoldsCut(log, ops, all, cut)
  }

  predicate HoldsCut(log: string, ops: seq<WalOp>, all: seq<WalOp>, cut: nat) {
    cut <= |LogText(all)| && log == LogText(all)[..cut] && ops == all[..CompleteRecords(all, cut)]
  }

  /** Kept in every run, collisions or not. */
  ghost predicate Durable(s: Node) {
    && LogHolds(s.disk.log, s.ops)
    && (s.process.Up? ==> s.process.handle == HandleAfter(s.ops))
    && (s.process.Up? && s.process.phase.Logged? ==> s.ops != [] && s.ops[|s.ops| - 1] == Apply(s.process.phase.tx))
    && (forall k :: k in s.returned ==> 1 <= k <= |s.ops| && s.ops[k - 1] == Apply(s.returned[k]))
  }

  /** Kept as long as all keys are well formed and no two hashed texts collide. */
  ghost predicate StoresRight(s: Node) {
    && MarkersRight(s.ops) && SnapshotRight(s.ops, s.disk.snapshot)
    && (s.process.Up? ==>
          s.process.store == Store(if s.process.phase.Logged? && s.ops != [] then s.ops[..|s.ops| - 1] else s.ops))
  }

  lemma WholeLogHolds(log: string, ops: seq<WalOp>)
    requires LogHolds(log, ops)
    ensures Replay(log) == Ok(After(ops))
    ensures IsWhole(log) ==> log == LogText(ops)
  {
    var all, cut :| HoldsCut(log, ops, all, cut);
    TornTail(all, cut);
    WholeCut(all, cut);
  }

  lemma HoldsWhole(ops: seq<WalOp>)
    ensures LogHolds(LogText(ops), ops)
  {
    var all, cut := ops, |LogText(ops)|;
    assert CompleteRecords(all, cut) == |ops|;
    assert LogText(all)[..cut] == LogText(all) && all[..|ops|] == all;
    assert HoldsCut(LogText(ops), ops, all, cut);
  }

  lemma AppendHolds(s: Node, op: WalOp)
    requires Durable(s) && MayAppend(s, op) && IsWhole(s.disk.log)
    ensures LogHolds(s.disk.log + LineFor(s.process.handle, op), s.ops + [op])
    ensures HandleAfter(s.ops + [op]) == Handle(|s.ops| + 1, RecordHash(NextRecord(s.process.handle, op)))
  {
    WholeLogHolds(s.disk.log, s.ops);
    AppendWhole(s.ops, op);
    HoldsWhole(s.ops + [op]);
  }

  lemma TornHolds(s: Node, op: WalOp, n: nat)
    requires Durable(s) && MayAppend(s, op) && IsWhole(s.disk.log)
    requires var text := Encode(NextRecord(s.process.handle, op)); 0 < n <= |text|
    ensures var text := Encode(NextRecord(s.process.handle, op));
            LogHolds(s.disk.log + text[..n], if n == |text| then s.ops + [op] else s.ops)
  {
    hide TipHash, CompleteRecords, Replay;
    var text := Encode(NextRecord(s.process.handle, op));
    var all, cut := s.ops + [op], |s.disk.log| + n;
    WholeLogHolds(s.disk.log, s.ops);
    AppendWhole(s.ops, op);
    assert LogText(all) == s.disk.log + (text + "\n");
    assert LogText(all)[..cut] == s.disk.log + text[..n];
    assert all[..|s.ops|] == s.ops && all[..|all|] == all;
    CutBehind(s.ops, op, cut);
    assert HoldsCut(s.disk.log + text[..n], if n == |text| then all else s.ops, all, cut);
  }

  lemma CutBehind(ops: seq<WalOp>, op: WalOp, cut: nat)
    requires |LogText(ops)| <= cut < |LogText(ops + [op])|
    ensures CompleteRecords(ops + [op], cut) == if cut + 1 == |LogText(ops + [op])| then |ops| + 1 else |ops|
  {
    assert (ops + [op])[..|ops|] == ops;
  }

  lemma WriteGrows(s: Node, t: Node)
    requires Careful(s, t) && |t.disk.log| > |s.disk.log|
    ensures IsWhole(s.disk.log)
  {
  }

  lemma DurableAppend(s: Node, op: WalOp, phase: Phase)
    requires Durable(s) && MayAppend(s, op) && IsWhole(s.disk.log) && (phase.Logged? ==> op == Apply(phase.tx))
    ensures Durable(AppendRecord(s, op, phase))
  {
    hide LogHolds, TipHash, Encode, RecordHash, IsWhole, WellFormedKey, Root;
    AppendHolds(s, op);
  }

  lemma {:induction false} DurableStep(s: Node, t: Node)
    requires Durable(s) && Next(s, t) && Careful(s, t)
    ensures Durable(t)
    ensures s.ops <= t.ops
  {
    hide LogHolds, TipHash, Encode, RecordHash, Root, ApplyTx, Recover, Replay, IsWhole;
    if tx :| BeginApply(s, t, tx) {
      WriteGrows(s, t);
      DurableAppend(s, Apply(tx), Logged(tx));
    } else if FinishApply(s, t) {
    } else if height, tip :| BeginCheckpoint(s, t, height, tip) {
      WriteGrows(s, t);
      DurableAppend(s, Checkpoint(height, tip, Root(s.process.store)), Marked(height, tip));
    } else if FinishCheckpoint(s, t) {
    } else if w :| CheckpointFails(s, t, w) {
    } else if fate :| Crash(s, t, fate) {
    } else if op, n, fate :| TornCrash(s, t, op, n, fate) {
      WriteGrows(s, t);
      TornHolds(s, op, n);
    } else {
      WholeLogHolds(s.disk.log, s.ops);
    }
  }

  lemma {:induction false} GrowRight(ops: seq<WalOp>, op: WalOp, snapshot: Option<PersistedSnapshot>)
    requires MarkersRight(ops) && SnapshotRight(ops, snapshot)
    requires op.Checkpoint? ==> op.stateRoot == Root(Store(ops))
    ensures MarkersRight(ops + [op]) && SnapshotRight(ops + [op], snapshot)
    ensures Store(ops + [op]) == if op.Apply? then ApplyTx(Store(ops), op.tx) else Store(ops)
  {
    var grown := ops + [op];
    assert grown[..|ops|] == ops;
    assert forall j :: 0 <= j <= |ops| ==> grown[..j] == ops[..j];
    forall j | 0 <= j < |grown|
      ensures MarkerRightAt(grown, j)
    {
      if j < |ops| { assert MarkerRightAt(ops, j); }
    }
    if snapshot.Some? {
      var i :| 0 <= i <= |ops| && snapshot.value.entries == Store(ops[..i]);
      assert grown[..i] == ops[..i];
    }
  }

  lemma {:induction false} SnapshotStaysRight(s: Node, t: Node, fate: SnapshotFate)
    requires StoresRight(s) && SnapshotAfterCrash(s, t, fate)
    ensures SnapshotRight(s.ops, t.disk.snapshot)
  {
    assert s.ops[..|s.ops|] == s.ops;
  }

  lemma StoresAppend(s: Node, op: WalOp, phase: Phase)
    requires StoresRight(s) && MayAppend(s, op) && (op.Apply? ==> phase == Logged(op.tx)) && (phase.Logged? ==> op.Apply?)
    ensures StoresRight(AppendRecord(s, op, phase))
  {
    hide Encode, RecordHash, Root, ApplyTx;
    GrowRight(s.ops, op, s.disk.snapshot);
    assert (s.ops + [op])[..|s.ops|] == s.ops;
  }

  lemma StoresApplied(s: Node, t: Node)
    requires Durable(s) && StoresRight(s) && FinishApply(s, t)
    ensures StoresRight(t)
  {
    hide LogHolds, Root, ApplyTx;
  }

  lemma StoresFile(s: Node, t: Node, w: FileWrite)
    requires StoresRight(s) && (FinishCheckpoint(s, t) || CheckpointFails(s, t, w))
    ensures StoresRight(t)
  {
    hide Root;
    assert s.ops[..|s.ops|] == s.ops;
  }

  lemma StoresCrashed(s: Node, t: Node, fate: SnapshotFate)
    requires StoresRight(s) && Crash(s, t, fate)
    ensures StoresRight(t)
  {
    hide Root;
    SnapshotStaysRight(s, t, fate);
  }

  lemma StoresTorn(s: Node, t: Node, op: WalOp, n: nat, fate: SnapshotFate)
    requires StoresRight(s) && TornCrash(s, t, op, n, fate)
    ensures StoresRight(t)
  {
    hide Encode, Root;
    SnapshotStaysRight(s, t, fate);
    GrowRight(s.ops, op, t.disk.snapshot);
  }

  lemma StoresReopened(s: Node, t: Node)
    requires Durable(s) && StoresRight(s) && Reopen(s, t) && WellFormedOps(s.ops) && !CollisionIn(RunTexts(s.ops))
    ensures StoresRight(t)
  {
    hide WellFormedOps, Root, Recover, Replay, LogHolds, RunTexts, CollisionIn;
    WholeLogHolds(s.disk.log, s.ops);
    RecoveryPathsAgree(s.ops, s.disk.snapshot);
  }

  lemma {:induction false} StoresStep(s: Node, t: Node)
    requires Durable(s) && StoresRight(s) && Next(s, t) && Careful(s, t)
    requires WellFormedOps(t.ops) && !CollisionIn(RunTexts(t.ops))
    ensures StoresRight(t)
  {
    hide WellFormedOps, Durable, StoresRight, Encode, RecordHash, Root, ApplyTx, RunTexts, CollisionIn, OpenDisk;
    if tx :| BeginApply(s, t, tx) {
      StoresAppend(s, Apply(tx), Logged(tx));
    } else if FinishApply(s, t) {
      StoresApplied(s, t);
    } else if height, tip :| BeginCheckpoint(s, t, height, tip) {
      StoresAppend(s, Checkpoint(height, tip, Root(s.process.store)), Marked(height, tip));
    } else if FinishCheckpoint(s, t) {
      StoresFile(s, t, Complete);
    } else if w :| CheckpointFails(s, t, w) {
      StoresFile(s, t, w);
    } else if fate :| Crash(s, t, fate) {
      StoresCrashed(s, t, fate);
    } else if op, n, fate :| TornCrash(s, t, op, n, fate) {
      StoresTorn(s, t, op, n, fate);
    } else {
      StoresReopened(s, t);
    }
  }

  lemma {:induction false} RunTextsGrow(a: seq<WalOp>, b: seq<WalOp>)
    requires a <= b
    ensures RunTexts(a) <= RunTexts(b)
    decreases |b|
  {
    if |a| < |b| {
      RunTextsGrow(a, b[..|b| - 1]);
    } else {
      assert a == b;
    }
  }

  ghost predicate Invariant(s: Node) {
    Durable(s) && (StoresRight(s) || !WellFormedOps(s.ops) || CollisionIn(RunTexts(s.ops)))
  }

  lemma InvariantStart(s: Node)
    requires Init(s)
    ensures Invariant(s)
  {
    hide LogHolds, RunTexts, CollisionIn, TipHash, Root;
    HoldsWhole([]);
    assert LogText([]) == "";
  }

  lemma {:induction false} InvariantStep(s: Node, t: Node)
    requires Invariant(s) && Next(s, t) && Careful(s, t)
    ensures Invariant(t)
  {
    hide Next, Careful, Durable, StoresRight, RunTexts, CollisionIn;
    DurableStep(s, t);
    RunTextsGrow(s.ops, t.ops);
    if WellFormedOps(t.ops) && !CollisionIn(RunTexts(t.ops)) {
      NoCollisionInSubset(RunTexts(s.ops), RunTexts(t.ops));
      StoresStep(s, t);
    }
  }

  lemma {:induction false} RunInvariant(run: seq<Node>)
    requires IsCarefulRun(run)
    ensures Invariant(run[|run| - 1])
    decreases |run|
  {
    hide Init, Next, Careful, Invariant;
    if |run| == 1 {
      InvariantStart(run[0]);
    } else {
      var before := run[..|run| - 1];
      assert forall i :: 0 <= i < |before| - 1 ==> Next(run[i], run[i + 1]) && Careful(run[i], run[i + 1]);
      RunInvariant(before);
      assert Next(run[|run| - 2], run[|run| - 2 + 1]);
      InvariantStep(run[|run| - 2], run[|run| - 1]);
    }
  }

  /** Crash recovery: at the end of every careful run, reopening succeeds, and the log holds every
      transaction whose `apply` returned, at the number returned.  The store is exactly the fold
      of all logged transactions, unless one of their keys is a digest or holds a bar, or two
      texts hashed for the roots collide. */
  lemma {:induction false} CrashRecovery(run: seq<Node>)
    requires IsCarefulRun(run)
    ensures var s := run[|run| - 1];
            && OpenDisk(s.disk).Ok?
            && Replay(s.disk.log) == Ok(After(s.ops))
            && OpenDisk(s.disk).value.handle == HandleAfter(s.ops)
            && (forall k :: k in s.returned ==> 1 <= k <= |s.ops| && s.ops[k - 1] == Apply(s.returned[k]))
            && (|| OpenDisk(s.disk).value.store == Store(s.ops)
                || !WellFormedOps(s.ops)
                || CollisionIn(RunTexts(s.ops)))
  {
    hide Next, Careful, Replay, Recover, Root, RunTexts, CollisionIn, LogHolds, WellFormedOps;
    RunInvariant(run);
    var s := run[|run| - 1];
    WholeLogHolds(s.disk.log, s.ops);
    if StoresRight(s) { RecoveryPathsAgree(s.ops, s.disk.snapshot); }
  }

  // ---------- stopping after a failed append ----------

  /** A process that stops after a failed append leaves what a crash leaves: between two writes,
      inside the record, or behind it. */
  lemma {:induction false} StopAfterFailure(s: Node, t: Node, op: WalOp, n: nat) returns (mid: Node)
    requires AppendFails(s, t, op, n)
    ensures var (line, down) := (LineFor(s.process.handle, op), t.(process := Down));
            if n == 0 then Crash(s, down, Kept) && Next(s, down)
            else if n < |line| then TornCrash(s, down, op, n, Kept) && Next(s, down)
            else Crash(mid, down, Kept) && Next(s, mid) && Next(mid, down) && match op
                 case Apply(tx) => BeginApply(s, mid, tx)
                 case Checkpoint(height, tip, _) => BeginCheckpoint(s, mid, height, tip)
  {
    hide Encode, RecordHash, Root;
    var line := LineFor(s.process.handle, op);
    mid := s;
    if n == 0 {
      assert s.disk.log + line[..0] == s.disk.log;
    } else if n < |line| {
      assert line[..n] == Encode(NextRecord(s.process.handle, op))[..n];
    } else {
      assert line[..n] == line;
      mid := AppendRecord(s, op, if op.Apply? then Logged(op.tx) else Marked(op.height, op.tipBlockHash));
      match op
      case Apply(tx) => assert BeginApply(s, mid, tx);
      case Checkpoint(height, tip, _) => assert BeginCheckpoint(s, mid, height, tip);
    }
  }

  // ---------- careless steps ----------

  lemma HeldIsWritten(log: string, ops: seq<WalOp>)
    requires LogHolds(log, ops)
    ensures IsWrittenLog(log)
  {
    var all, cut :| HoldsCut(log, ops, all, cut);
    if IsWhole(log) {
      WholeIsWritten(log);
    } else {
      var j, n := SplitCut(all, cut);
      WholeIsWritten(LogText(all[..j]));
      WriteKeepsShape(LogText(all[..j]), HandleAfter(all[..j]), all[j], n);
      assert LineFor(HandleAfter(all[..j]), all[j])[..n] == Encode(RecordAt(all, j))[..n];
    }
  }

  /** At the end of a careful run, what `apply` logs next is replayed exactly if the log ends
      behind a line break. */
  lemma {:induction false} LoggedIffWhole(run: seq<Node>, t: Node, tx: Tx)
    requires IsCarefulRun(run) && BeginApply(run[|run| - 1], t, tx)
    ensures Replay(t.disk.log) == Ok(After(t.ops)) <==> IsWhole(run[|run| - 1].disk.log)
  {
    hide Next, Careful, Replay, LogHolds, Encode, RecordHash, TipHash, Lines;
    RunInvariant(run);
    var s := run[|run| - 1];
    var h := s.process.handle;
    WholeLogHolds(s.disk.log, s.ops);
    if IsWhole(s.disk.log) {
      AppendWhole(s.ops, Apply(tx));
      ReplayWhole(t.ops);
    } else {
      HeldIsWritten(s.disk.log, s.ops);
      AppendReplayedIff(s.disk.log, h, Apply(tx));
    }
  }

  /** At the end of a careful run an append fails and the process goes on: whatever `apply` logs
      next is not replayed under the number it returns, unless the chain hash repeats. */
  lemma {:induction false} LostAfterFailure(run: seq<Node>, t: Node, op: WalOp, n: nat, u: Node, tx: Tx)
    requires IsCarefulRun(run) && AppendFails(run[|run| - 1], t, op, n) && BeginApply(t, u, tx)
    ensures var p := Replay(u.disk.log);
            (p.Ok? ==> |p.value.ops| < u.process.handle.seqNo) || ChainRepeats(ChainTexts(run[|run| - 1].ops + [op]))
  {
    hide Next, Careful, Replay, LogHolds, Encode, RecordHash, TipHash, Lines, ChainRepeats, ChainTexts;
    RunInvariant(run);
    var s := run[|run| - 1];
    WholeLogHolds(s.disk.log, s.ops);
    HeldIsWritten(s.disk.log, s.ops);
    var before, a := LogState(s.disk.log, s.process.handle), Attempt(op, n, false);
    if TipHash(s.ops + [op]) == TipHash(s.ops) {
      RepeatedTip(s.ops, op);
    } else {
      if IsWhole(s.disk.log) {
        ClosedLogText(s.ops);
        FailureMakesStale(before, s.ops, a);
      } else {
        TornIsStale(before, s.ops);
        StaleStays(before, a);
      }
      StaleNotReplayed(AfterAttempt(before, a), Apply(tx));
      if Replay(u.disk.log).Ok? { AcceptedIsChain(u.disk.log); }
    }
  }

  lemma TornIsStale(s: LogState, ops: seq<WalOp>)
    requires IsWrittenLog(s.log) && !IsWhole(s.log) && Replay(s.log) == Ok(After(ops)) && s.handle == HandleAfter(ops)
    ensures Stale(s)
  {
    hide Replay, Encode, TipHash, Lines;
    LastLineAdds(s.log);
    if Surviving(s.log).Ok? { AcceptedIsChain(Settled(s.log) + "\n"); }
  }
}
