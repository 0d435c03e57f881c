/** Careful runs after which a disk reopens to the wrong store, for every two stores that share a
    root: the condition on the keys in Recovery cannot be dropped. */
module RecoveryLosses {
  import opened Results
  import opened Hashing
  import opened Ordering
  import opened Merkle
  import opened MerkleBinding
  import opened StateStores
  import opened WalJson
  import opened WalCodec
  import opened Persistence
  import opened WriteAheadLogs
  import opened LogReplay
  import opened WrittenLogs
  import opened PersistentStates
  import opened Recovery

  // ---------- building careful runs ----------

  lemma RunThen(run: seq<Node>, t: Node)
    requires IsCarefulRun(run) && Next(run[|run| - 1], t) && Careful(run[|run| - 1], t)
    ensures IsCarefulRun(run + [t])
  {
    hide Next, Careful, Init;
    var longer := run + [t];
    forall i | 0 <= i < |longer| - 1
      ensures Next(longer[i], longer[i + 1]) && Careful(longer[i], longer[i + 1])
    {
      if i < |run| - 1 { assert longer[i] == run[i] && longer[i + 1] == run[i + 1]; }
    }
  }

  /** A step is careful if it does not write to a torn log and does not look like a failed append,
      which ends between two calls with a raised sequence number. */
  lemma CarefulStep(s: Node, t: Node)
    requires IsWhole(s.disk.log)
    requires s.process.Up? && t.process.Up? && t.process.phase == Idle ==>
               t.process.handle.seqNo != s.process.handle.seqNo + 1
    ensures Careful(s, t)
  {
  }

  /** The run that ends with `s`, a running process between two calls, with everything in order. */
  ghost predicate Rests(run: seq<Node>, s: Node) {
    && IsCarefulRun(run) && run[|run| - 1] == s
    && s.process == Up(Store(s.ops), HandleAfter(s.ops), Idle) && s.disk.log == LogText(s.ops)
  }

  lemma Start() returns (run: seq<Node>, s: Node)
    ensures Rests(run, s) && s.ops == [] && s.process.store == map[]
  {
    hide Replay, Encode;
    var s0 := Node(DiskState("", None), Down, [], map[]);
    s := s0.(process := Up(map[], HandleAfter([]), Idle));
    ReplayWhole([]);
    assert LogText([]) == "" && Replay("") == Ok(After([]));
    assert Reopen(s0, s) && Next(s0, s);
    CarefulStep(s0, s);
    RunThen([s0], s);
    run := [s0] + [s];
  }

  /** The node after `op` was logged and, if it is a transaction, applied. */
  lemma LogOne(run: seq<Node>, s: Node, op: WalOp, phase: Phase) returns (longer: seq<Node>, mid: Node)
    requires Rests(run, s)
    requires match op
             case Apply(tx) => phase == Logged(tx)
             case Checkpoint(height, tip, root) => phase == Marked(height, tip) && root == Root(s.process.store)
    ensures IsCarefulRun(longer) && longer[|longer| - 1] == mid
    ensures mid == Node(DiskState(LogText(s.ops + [op]), s.disk.snapshot),
                        Up(s.process.store, HandleAfter(s.ops + [op]), phase), s.ops + [op], s.returned)
  {
    hide IsCarefulRun, Encode, RecordHash, Root, LogText, TipHash, IsWhole;
    AppendWhole(s.ops, op);
    mid := AppendRecord(s, op, phase);
    assert Next(s, mid) by {
      match op
      case Apply(tx) => assert BeginApply(s, mid, tx);
      case Checkpoint(height, tip, _) => assert BeginCheckpoint(s, mid, height, tip);
    }
    CarefulStep(s, mid);
    RunEnds(run, s);
    RunThen(run, mid);
    longer := run + [mid];
  }

  lemma RunEnds(run: seq<Node>, s: Node)
    requires Rests(run, s)
    ensures run != [] && run[|run| - 1] == s
  {
  }

  lemma ApplyOne(run: seq<Node>, s: Node, tx: Tx) returns (longer: seq<Node>, t: Node)
    requires Rests(run, s)
    ensures Rests(longer, t) && t.ops == s.ops + [Apply(tx)] && t.disk.snapshot == s.disk.snapshot
    ensures t.process.store == ApplyTx(s.process.store, tx)
  {
    hide IsCarefulRun, LogText, TipHash, ApplyTx, Root;
    var mid;
    longer, mid := LogOne(run, s, Apply(tx), Logged(tx));
    t := mid.(process := Up(ApplyTx(s.process.store, tx), mid.process.handle, Idle),
              returned := mid.returned[mid.process.handle.seqNo := tx]);
    assert FinishApply(mid, t) && Next(mid, t);
    AppendWhole(s.ops + [Apply(tx)], Apply(tx));
    CarefulStep(mid, t);
    CarefulEnds(longer, mid);
    RunThen(longer, t);
    longer := longer + [t];
    assert (s.ops + [Apply(tx)])[..|s.ops|] == s.ops;
  }

  lemma CarefulEnds(run: seq<Node>, s: Node)
    requires IsCarefulRun(run)
    ensures run != []
  {
  }

  lemma {:induction false} ApplyMany(run: seq<Node>, s: Node, txs: seq<Tx>) returns (longer: seq<Node>, t: Node)
    requires Rests(run, s)
    ensures Rests(longer, t) && t.disk.snapshot == s.disk.snapshot
    ensures t.process.store == ApplyAll(s.process.store, txs)
    decreases |txs|
  {
    hide Rests, ApplyTx;
    longer, t := run, s;
    if txs != [] {
      longer, t := ApplyMany(run, s, txs[..|txs| - 1]);
      longer, t := ApplyOne(longer, t, txs[|txs| - 1]);
    }
  }

  lemma CheckpointOne(run: seq<Node>, s: Node, height: nat, tip: string) returns (longer: seq<Node>, t: Node)
    requires Rests(run, s)
    ensures Rests(longer, t) && t.process.store == s.process.store
    ensures t.disk.snapshot == Some(FromStore(s.process.store, height, tip))
  {
    hide IsCarefulRun, LogText, TipHash, Root;
    var op, mid := Checkpoint(height, tip, Root(s.process.store)), s;
    longer, mid := LogOne(run, s, op, Marked(height, tip));
    t := mid.(disk := mid.disk.(snapshot := Some(FromStore(s.process.store, height, tip))),
              process := Up(s.process.store, mid.process.handle, Idle));
    assert FinishCheckpoint(mid, t) && Next(mid, t);
    AppendWhole(s.ops + [op], op);
    CarefulStep(mid, t);
    CarefulEnds(longer, mid);
    RunThen(longer, t);
    longer := longer + [t];
    assert (s.ops + [op])[..|s.ops|] == s.ops;
  }

  // ---------- from one store to another ----------

  function Sets(list: seq<(string, string)>): seq<Tx> {
    if list == [] then []
    else Sets(list[..|list| - 1]) + [SetTx(list[|list| - 1].0, list[|list| - 1].1)]
  }

  function Removes(keys: seq<string>): seq<Tx> {
    if keys == [] then [] else Removes(keys[..|keys| - 1]) + [RemoveTx(keys[|keys| - 1])]
  }

  lemma {:induction false} SetsRebuild(list: seq<(string, string)>)
    ensures ApplyAll(map[], Sets(list)) == Rebuild(list)
  {
    if list != [] {
      SetsRebuild(list[..|list| - 1]);
      assert Sets(list)[..|Sets(list)| - 1] == Sets(list[..|list| - 1]);
    }
  }

  lemma {:induction false} RemovesTakeAway(m: Entries, keys: seq<string>)
    ensures forall k :: k in ApplyAll(m, Removes(keys)) ==> k in m && k !in keys
  {
    if keys != [] {
      RemovesTakeAway(m, keys[..|keys| - 1]);
      assert Removes(keys)[..|Removes(keys)| - 1] == Removes(keys[..|keys| - 1]);
      assert keys == keys[..|keys| - 1] + [keys[|keys| - 1]];
    }
  }

  lemma RemoveAll(m: Entries)
    ensures ApplyAll(m, Removes(SortedKeys(m.Keys))) == map[]
  {
    hide ApplyAll, Removes;
    RemovesTakeAway(m, SortedKeys(m.Keys));
    assert forall k :: k in ApplyAll(m, Removes(SortedKeys(m.Keys))) ==> k in SortedKeys(m.Keys);
  }

  // ---------- two stores with one root ----------

  lemma RecoverOld(ops: seq<WalOp>, op: WalOp, a: Entries)
    requires op.Checkpoint? && op.stateRoot == Root(a)
    ensures Recover(ops + [op], Some(FromStore(a, 1, ""))) == a && Store(ops + [op]) == Store(ops)
  {
    hide Root;
    assert (ops + [op])[..|ops|] == ops && (ops + [op])[|ops| + 1..] == [];
  }

  lemma CrashBehindMarker(run: seq<Node>, s: Node, a: Entries) returns (longer: seq<Node>)
    requires Rests(run, s) && s.disk.snapshot == Some(FromStore(a, 1, "")) && Root(a) == Root(s.process.store)
    ensures IsCarefulRun(longer)
    ensures var t := longer[|longer| - 1];
            Store(t.ops) == s.process.store && OpenDisk(t.disk) == Ok(Opened(a, HandleAfter(t.ops)))
  {
    hide IsCarefulRun, Root, LogText, TipHash, Replay, Recover, Store;
    var op, mid := Checkpoint(2, "", Root(s.process.store)), s;
    longer, mid := LogOne(run, s, op, Marked(2, ""));
    var t := mid.(process := Down);
    assert Crash(mid, t, Kept) && Next(mid, t);
    AppendWhole(s.ops + [op], op);
    CarefulStep(mid, t);
    CarefulEnds(longer, mid);
    RunThen(longer, t);
    longer := longer + [t];
    ReplayWhole(s.ops + [op]);
    RecoverOld(s.ops, op, a);
  }

  /** For every two stores with one root: the run that fills the first, checkpoints it, turns it
      into the second, and crashes between the marker and the snapshot of the second checkpoint.
      Every step succeeds and is careful, and the disk reopens to the first store. */
  lemma {:induction false} LostIfRootsAgree(a: Entries, b: Entries) returns (run: seq<Node>)
    requires Root(a) == Root(b)
    ensures IsCarefulRun(run)
    ensures var s := run[|run| - 1];
            Store(s.ops) == b && OpenDisk(s.disk) == Ok(Opened(a, HandleAfter(s.ops)))
  {
    hide Rests, IsCarefulRun, Root, LogText, TipHash, Replay, ApplyAll, Rebuild;
    var s;
    run, s := Start();
    SetsRebuild(EntryList(a));
    RebuildEntryList(a);
    run, s := ApplyMany(run, s, Sets(EntryList(a)));
    run, s := CheckpointOne(run, s, 1, "");
    RemoveAll(a);
    run, s := ApplyMany(run, s, Removes(SortedKeys(a.Keys)));
    SetsRebuild(EntryList(b));
    RebuildEntryList(b);
    run, s := ApplyMany(run, s, Sets(EntryList(b)));
    run := CrashBehindMarker(run, s, a);
  }

  /** So for every key with a bar there is such a run. */
  lemma {:induction false} LostWithBarKey(key: string, value: string) returns (run: seq<Node>)
    requires '|' in key
    ensures IsCarefulRun(run)
    ensures var s := run[|run| - 1];
            OpenDisk(s.disk).Ok? && OpenDisk(s.disk).value.store == map[key := value] != Store(s.ops)
  {
    hide IsCarefulRun, Root, OpenDisk, Store;
    BarKeyAliases(key, value);
    var k, v :| k != key && Root(map[k := v]) == Root(map[key := value]);
    run := LostIfRootsAgree(map[key := value], map[k := v]);
    assert key !in map[k := v];
  }

  /** And for every store of two or more entries, whose root is that of a single entry with a
      digest for its key. */
  lemma {:induction false} LostWithDigestKey(m: Entries) returns (run: seq<Node>)
    requires |m| > 1
    ensures IsCarefulRun(run)
    ensures var s := run[|run| - 1];
            OpenDisk(s.disk).Ok? && OpenDisk(s.disk).value.store == m != Store(s.ops)
  {
    hide IsCarefulRun, Root, OpenDisk, Store;
    DigestKeyAliases(m);
    var d, v :| IsDigest(d) && m != map[d := v] && Root(map[d := v]) == Root(m);
    run := LostIfRootsAgree(m, map[d := v]);
  }
}
