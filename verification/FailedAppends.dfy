/** Runs of appends by one handle, any of which may fail: when the log still takes the next one. */
module FailedAppends {
  import opened Results
  import opened Hashing
  import opened Decimal
  import opened WalJson
  import opened WalCodec
  import opened WriteAheadLogs
  import opened LogReplay
  import opened LogBinding
  import opened WrittenLogs

  // ---------- one failed append ----------

  /** A log of `ops` gives back an appended record exactly if the handle stands behind `ops`. */
  lemma {:induction false} LogTakesOnlyItsHandle(ops: seq<WalOp>, h: Handle, op: WalOp)
    ensures Replay(LogText(ops) + LineFor(h, op)) == Ok(After(ops + [op])) <==> h == HandleAfter(ops)
  {
    hide LogText, TipHash, RecordHash, Replay, Encode, Lines;
    var line := LineFor(h, op);
    ClosedLogText(ops);
    WriteToWhole(LogText(ops), h, op, |line|);
    assert line[..|line|] == line;
    TipSnoc(ops, op);
  }

  /** What the next append of a handle brings, after an append that failed with `written`
      characters of its line in the file.  Nothing written: the raised sequence number breaks
      the chain.  A part written: the next record is glued to it and silently lost.  All written
      but not synced: the old previous hash breaks the chain, unless it is also the new one. */
  lemma {:induction false} AppendAfterFailure(ops: seq<WalOp>, op: WalOp, written: nat, next: WalOp)
    requires written <= |LineFor(HandleAfter(ops), op)|
    ensures var line := LineFor(HandleAfter(ops), op);
            var after := Replay(LogText(ops) + line[..written] + LineFor(Handle(|ops| + 1, TipHash(ops)), next));
            && (written == 0 ==>
                  after == Err(ChainBroken(|ops| + 1, "seq " + Show(|ops| + 1), "seq " + Show(|ops| + 2))))
            && (0 < written < |line| ==> after == Ok(After(ops)))
            && (written == |line| ==>
                  after == if TipHash(ops + [op]) == TipHash(ops) then Ok(After(ops + [op, next]))
                           else Err(ChainBroken(|ops| + 2, TipHash(ops + [op]), TipHash(ops))))
  {
    hide LogText, TipHash, RecordHash, Replay, Encode, Lines, IsWhole;
    var line, h := LineFor(HandleAfter(ops), op), Handle(|ops| + 1, TipHash(ops));
    var line2 := LineFor(h, next);
    assert line2[..|line2|] == line2;
    ClosedLogText(ops);
    if written == 0 {
      assert LogText(ops) + line[..0] == LogText(ops);
      LinesOfLog(ops, "");
      NoLines();
      assert LogText(ops) + "" == LogText(ops);
      WriteToWhole(LogText(ops), h, next, |line2|);
    } else if written < |line| {
      var log := LogText(ops) + line[..written];
      WholeIsWritten(LogText(ops));
      WriteKeepsShape(LogText(ops), HandleAfter(ops), op, written);
      PartIsTorn(LogText(ops), HandleAfter(ops), op, written);
      WriteToTorn(log, h, next, |line2|);
    } else {
      var all := ops + [op];
      assert line[..written] == line;
      AppendWhole(ops, op);
      ClosedLogText(all);
      LinesOfLog(all, "");
      NoLines();
      assert LogText(all) + "" == LogText(all);
      WriteToWhole(LogText(all), h, next, |line2|);
      TipSnoc(all, next);
      assert all + [next] == ops + [op, next];
    }
  }

  /** A part of a line leaves a torn log with the same settled lines. */
  lemma PartIsTorn(log: string, h: Handle, op: WalOp, n: nat)
    requires IsWrittenLog(log) && 0 < n < |LineFor(h, op)|
    ensures !IsWhole(log + LineFor(h, op)[..n])
    ensures Settled(log + LineFor(h, op)[..n]) == Settled(log)
  {
    hide Encode, Glued, IsShards;
    var r := NextRecord(h, op);
    var shards := ShardsOf(log);
    assert LineFor(h, op)[..n] == Encode(r)[..n];
    GluedIsLine(shards);
    assert log + Encode(r)[..n] == Settled(log) + (Glued(shards) + Encode(r)[..n]);
    SettledOf(Settled(log), Glued(shards) + Encode(r)[..n]);
  }

  // ---------- runs of appends ----------

  /** One call of `append_op`: how much of the line is written at most, and whether the sync
      succeeds. */
  datatype Attempt = Attempt(op: WalOp, written: nat, synced: bool)

  datatype LogState = LogState(log: string, handle: Handle)

  predicate Succeeds(s: LogState, a: Attempt) {
    a.synced && |LineFor(s.handle, a.op)| <= a.written
  }

  function Written(s: LogState, a: Attempt): (n: nat)
    ensures n <= |LineFor(s.handle, a.op)|
  {
    var n := |LineFor(s.handle, a.op)|;
    if a.written < n then a.written else n
  }

  function AfterAttempt(s: LogState, a: Attempt): LogState {
    LogState(s.log + LineFor(s.handle, a.op)[..Written(s, a)],
             if Succeeds(s, a) then HandleBehind(s.handle, a.op) else Handle(s.handle.seqNo + 1, s.handle.prevHash))
  }

  function AfterAttempts(s: LogState, attempts: seq<Attempt>): LogState {
    if attempts == [] then s
    else AfterAttempt(AfterAttempts(s, attempts[..|attempts| - 1]), attempts[|attempts| - 1])
  }

  predicate AllSucceed(s: LogState, attempts: seq<Attempt>) {
    attempts == []
    || (var front := attempts[..|attempts| - 1];
        AllSucceed(s, front) && Succeeds(AfterAttempts(s, front), attempts[|attempts| - 1]))
  }

  function OpsOf(attempts: seq<Attempt>): (ops: seq<WalOp>)
    ensures |ops| == |attempts|
  {
    if attempts == [] then [] else OpsOf(attempts[..|attempts| - 1]) + [attempts[|attempts| - 1].op]
  }

  method TryAppend(wal: WriteAheadLog, a: Attempt) returns (r: Option<nat>)
    modifies wal, wal.disk`log
    ensures LogState(wal.disk.log, wal.State()) == AfterAttempt(old(LogState(wal.disk.log, wal.State())), a)
    ensures r == if Succeeds(old(LogState(wal.disk.log, wal.State())), a) then Some(old(wal.seqNo) + 1) else None
  {
    var n := |LineFor(wal.State(), a.op)|;
    r := wal.AppendOp(a.op, if a.written < n then a.written else n, a.synced);
  }

  /** No record that the handle appends from now on will be replayed. */
  ghost predicate Stale(s: LogState) {
    && IsWrittenLog(s.log)
    && (Surviving(s.log).Ok? ==>
          var p := Surviving(s.log).value;
          s.handle.seqNo >= p.seqNo && (IsWhole(s.log) ==> s.handle != Handle(p.seqNo, p.tip)))
  }

  lemma {:induction false} StaleStays(s: LogState, a: Attempt)
    requires Stale(s)
    ensures Stale(AfterAttempt(s, a))
  {
    hide Encode, Replay, RecordHash, Lines, IsWrittenLog;
    var n, line := Written(s, a), LineFor(s.handle, a.op);
    var t := AfterAttempt(s, a);
    WriteKeepsShape(s.log, s.handle, a.op, n);
    if n == 0 {
      assert s.log + line[..0] == s.log;
    } else if n < |line| {
      PartIsTorn(s.log, s.handle, a.op, n);
    } else {
      WholeLine(s.log, s.handle, a.op);
      if IsWhole(s.log) {
        WriteToWhole(s.log, s.handle, a.op, n);
      } else {
        WriteToTorn(s.log, s.handle, a.op, n);
      }
    }
  }

  lemma WholeLine(log: string, h: Handle, op: WalOp)
    ensures IsWhole(log + LineFor(h, op)) && LineFor(h, op)[..|LineFor(h, op)|] == LineFor(h, op)
  {
    assert (log + LineFor(h, op))[|log + LineFor(h, op)| - 1] == '\n';
  }

  lemma {:induction false} StaleNotReplayed(s: LogState, op: WalOp)
    requires Stale(s)
    ensures var p := Replay(s.log + LineFor(s.handle, op)); p.Ok? ==> p.value.seqNo <= s.handle.seqNo
  {
    hide Encode, Replay, RecordHash, Lines, IsWrittenLog;
    var line := LineFor(s.handle, op);
    WholeLine(s.log, s.handle, op);
    if IsWhole(s.log) {
      WriteToWhole(s.log, s.handle, op, |line|);
    } else {
      WriteToTorn(s.log, s.handle, op, |line|);
    }
  }

  /** The chain hash comes back although it should have moved on: two of the texts collide, or
      one of them has the genesis hash as its digest. */
  ghost predicate ChainRepeats(texts: set<string>) {
    CollisionIn(texts) || exists t :: t in texts && Sha(t) == GENESIS_PREV
  }

  lemma RepeatedTip(ops: seq<WalOp>, op: WalOp)
    requires TipHash(ops + [op]) == TipHash(ops)
    ensures ChainRepeats(ChainTexts(ops + [op]))
  {
    var all := ops + [op];
    assert all[..|ops|] == ops;
    if ops == [] {
      var t := RecordText(RecordAt(all, 0));
      assert t in ChainTexts(all) && Sha(t) == GENESIS_PREV;
    } else {
      TipBinding(all, ops);
      assert ChainTexts(all) + ChainTexts(ops) == ChainTexts(all);
    }
  }

  /** The log is as `ops` left it and takes the next append. */
  predicate InOrder(s: LogState, ops: seq<WalOp>) {
    TakesAppend(s.log, s.handle) && Replay(s.log) == Ok(After(ops))
  }

  lemma InOrderAppend(s: LogState, ops: seq<WalOp>, op: WalOp)
    requires InOrder(s, ops)
    ensures s.handle == HandleAfter(ops)
    ensures InOrder(LogState(s.log + LineFor(s.handle, op), HandleBehind(s.handle, op)), ops + [op])
  {
    hide Encode, Replay, RecordHash, Lines, IsWhole;
    AppendTaken(s.log, s.handle, op);
    TipSnoc(ops, op);
  }

  lemma {:induction false} FailureMakesStale(s: LogState, ops: seq<WalOp>, a: Attempt)
    requires InOrder(s, ops) && !Succeeds(s, a) && TipHash(ops + [a.op]) != TipHash(ops)
    ensures Stale(AfterAttempt(s, a))
  {
    hide Encode, Replay, RecordHash, Lines, IsWrittenLog, TipHash;
    var n, line := Written(s, a), LineFor(s.handle, a.op);
    WholeIsWritten(s.log);
    WriteKeepsShape(s.log, s.handle, a.op, n);
    InOrderAppend(s, ops, a.op);
    ClosedReplays(s.log);
    if n == 0 {
      assert s.log + line[..0] == s.log;
    } else if n < |line| {
      PartIsTorn(s.log, s.handle, a.op, n);
    } else {
      WholeLine(s.log, s.handle, a.op);
      ClosedReplays(s.log + line);
      TipSnoc(ops, a.op);
    }
  }

  /** After any appends, the log is in order if all succeeded and the handle is stale if one
      failed. */
  lemma {:induction false} AttemptsKeepOrder(s: LogState, ops: seq<WalOp>, attempts: seq<Attempt>)
    requires InOrder(s, ops)
    ensures var (t, all) := (AfterAttempts(s, attempts), ops + OpsOf(attempts));
            || (if AllSucceed(s, attempts) then InOrder(t, all) else Stale(t))
            || ChainRepeats(ChainTexts(all))
    ensures AfterAttempts(s, attempts).handle.seqNo == |ops| + |attempts|
    decreases |attempts|
  {
    hide InOrder, Stale, ChainTexts, ChainRepeats, TipHash, Succeeds;
    if attempts == [] {
      assert ops + [] == ops;
      assert s.handle == HandleAfter(ops) by { InOrderAppend(s, ops, Checkpoint(0, "", "")); }
    } else {
      var front, a := attempts[..|attempts| - 1], attempts[|attempts| - 1];
      var mid, before := AfterAttempts(s, front), ops + OpsOf(front);
      AttemptsKeepOrder(s, ops, front);
      assert ops + OpsOf(attempts) == before + [a.op];
      RepeatsGrow(before, a.op);
      if !ChainRepeats(ChainTexts(before + [a.op])) {
        if !AllSucceed(s, front) {
          StaleStays(mid, a);
        } else if Succeeds(mid, a) {
          InOrderAppend(mid, before, a.op);
          WholeLine(mid.log, mid.handle, a.op);
          SucceedsInFull(mid, a);
        } else {
          if TipHash(before + [a.op]) == TipHash(before) { RepeatedTip(before, a.op); }
          FailureMakesStale(mid, before, a);
        }
      }
    }
  }

  lemma SucceedsInFull(s: LogState, a: Attempt)
    requires Succeeds(s, a)
    ensures AfterAttempt(s, a) == LogState(s.log + LineFor(s.handle, a.op), HandleBehind(s.handle, a.op))
  {
    WholeLine(s.log, s.handle, a.op);
  }

  lemma RepeatsGrow(ops: seq<WalOp>, op: WalOp)
    ensures ChainRepeats(ChainTexts(ops)) ==> ChainRepeats(ChainTexts(ops + [op]))
  {
    assert (ops + [op])[..|ops|] == ops;
    NoCollisionInSubset(ChainTexts(ops), ChainTexts(ops + [op]));
  }

  /** A handle of a log in order makes any appends, some of which may fail, and then one more
      that is reported as written: replay gives back all of them exactly if none had failed,
      and otherwise it fails or returns fewer records than the last number handed out. */
  lemma {:induction false} AppendsSurviveIffNoneFailed(s: LogState, attempts: seq<Attempt>, op: WalOp)
    requires TakesAppend(s.log, s.handle)
    ensures var (t, ops) := (AfterAttempts(s, attempts), ReplayClosed(s.log).value.ops + OpsOf(attempts) + [op]);
            var after := Replay(t.log + LineFor(t.handle, op));
            || ((after == Ok(After(ops)) <==> AllSucceed(s, attempts))
                && (!AllSucceed(s, attempts) && after.Ok? ==> after.value.seqNo < |ops|))
            || ChainRepeats(ChainTexts(ops[..|ops| - 1]))
  {
    hide Encode, Replay, RecordHash, Lines, ChainRepeats, ChainTexts, Stale, Succeeds;
    var ops := ReplayClosed(s.log).value.ops;
    ClosedReplays(s.log);
    AcceptedIsChain(s.log);
    AttemptsKeepOrder(s, ops, attempts);
    var t, all := AfterAttempts(s, attempts), ops + OpsOf(attempts);
    assert (all + [op])[..|all|] == all;
    if !ChainRepeats(ChainTexts(all)) {
      if AllSucceed(s, attempts) {
        InOrderAppend(t, all, op);
      } else {
        StaleNotReplayed(t, op);
      }
    }
  }
}
