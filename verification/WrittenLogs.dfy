/** Replay of every log that appending can leave behind: any text up to a line break, and behind
    it, on the last line, whatever failed and torn writes have left of records. */
module WrittenLogs {
  import opened Results
  import opened Decimal
  import opened WalJson
  import opened WalCodec
  import opened WriteAheadLogs
  import opened LogReplay

  // ---------- lines of texts put together ----------

  lemma CutAtBreak(a: string, b: string)
    requires a != "" && IsWhole(a)
    ensures var n := LineLength(a);
            && n < |a| && LineLength(a + b) == n && (a + b)[..n] == a[..n]
            && (a + b)[n + 1..] == a[n + 1..] + b && IsWhole(a[n + 1..])
  {
    hide LineLength;
    var n, t := LineLength(a), a + b;
    assert t[n] == '\n';
    assert forall i :: 0 <= i < n ==> t[i] == a[i];
    assert t[..n] == a[..n] && t[n + 1..] == a[n + 1..] + b;
  }

  lemma LinesStep(t: string)
    requires t != "" && LineLength(t) < |t|
    ensures Lines(t) == [StripReturn(t[..LineLength(t)])] + Lines(t[LineLength(t) + 1..])
  {
  }

  lemma {:induction false} LinesThen(a: string, b: string)
    requires IsWhole(a)
    ensures Lines(a + b) == Lines(a) + Lines(b)
    decreases |a|
  {
    hide Lines, LineLength, StripReturn;
    if a == "" {
      assert a + b == b;
      NoLines();
    } else {
      var n := LineLength(a);
      CutAtBreak(a, b);
      LinesStep(a);
      LinesStep(a + b);
      LinesThen(a[n + 1..], b);
    }
  }

  lemma LinesOfBreak()
    ensures Lines("\n") == [""]
  {
    assert "" + ("\n" + "") == "\n";
    FirstLine("", "");
  }

  // ---------- lines with more lines behind them ----------

  /** A blank line at the end changes nothing, except that a last line that does not decode is
      no longer the last one. */
  lemma {:induction false} ScanThen(a: seq<string>, b: seq<string>, i: nat, acc: Replayed)
    requires b != [] && i <= |a|
    ensures Scan(a + b, i, acc) ==
      match Scan(a + [""], i, acc)
      case Err(e) => Err(e)
      case Ok(p) => Scan(a + b, |a|, p)
    decreases |a| - i
  {
    if i < |a| {
      if IsBlank(a[i]) {
        ScanThen(a, b, i + 1, acc);
      } else if Decode(a[i]).Some? {
        var r := Decode(a[i]).value;
        ScanThen(a, b, i + 1, Replayed(acc.ops + [r.op], r.seqNo, RecordHash(r)));
      }
    }
  }

  lemma {:induction false} ScanClosed(a: seq<string>, i: nat, acc: Replayed)
    requires i <= |a|
    ensures Scan(a + [""], i, acc).Ok? ==> Scan(a, i, acc) == Scan(a + [""], i, acc)
    decreases |a| - i
  {
    if i < |a| {
      if IsBlank(a[i]) {
        ScanClosed(a, i + 1, acc);
      } else if Decode(a[i]).Some? {
        var r := Decode(a[i]).value;
        ScanClosed(a, i + 1, Replayed(acc.ops + [r.op], r.seqNo, RecordHash(r)));
      }
    }
  }

  /** What replay makes of the lines of a whole log once another line stands behind them. */
  function ReplayClosed(log: string): Result<Replayed, WalError> {
    Replay(log + "\n")
  }

  lemma ClosedIsScan(log: string)
    requires IsWhole(log)
    ensures ReplayClosed(log) == Scan(Lines(log) + [""], 0, EMPTY_LOG)
  {
    LinesThen(log, "\n");
    LinesOfBreak();
  }

  lemma ClosedReplays(log: string)
    requires IsWhole(log) && ReplayClosed(log).Ok?
    ensures Replay(log) == ReplayClosed(log)
  {
    ClosedIsScan(log);
    ScanClosed(Lines(log), 0, EMPTY_LOG);
  }

  lemma ReplayBehind(log: string, rest: string)
    requires IsWhole(log) && Lines(rest) != []
    ensures Replay(log + rest) ==
      match ReplayClosed(log)
      case Err(e) => Err(e)
      case Ok(p) => Scan(Lines(log) + Lines(rest), |Lines(log)|, p)
  {
    LinesThen(log, rest);
    ClosedIsScan(log);
    ScanThen(Lines(log), Lines(rest), 0, EMPTY_LOG);
  }

  // ---------- one more line ----------

  /** One decoded record behind `p`, on line number `line`. */
  function Continue(p: Replayed, r: WalRecord, line: nat): Result<Replayed, WalError> {
    if r.seqNo != p.seqNo + 1 then Err(ChainBroken(line, "seq " + Show(p.seqNo + 1), "seq " + Show(r.seqNo)))
    else if r.prevHash != p.tip then Err(ChainBroken(line, p.tip, r.prevHash))
    else Ok(Replayed(p.ops + [r.op], r.seqNo, RecordHash(r)))
  }

  lemma LinesOfLast(t: string)
    requires OneLine(t) && t != ""
    ensures Lines(t) == Lines(t + "\n") == [t] && Lines(t + "\n\n") == [t, ""]
  {
    OnlyLine(t);
    FirstLine(t, "");
    FirstLine(t, "\n");
    LinesOfBreak();
    assert t + ("\n" + "") == t + "\n" && t + ("\n" + "\n") == t + "\n\n";
  }

  lemma ScanBlankEnd(lines: seq<string>, acc: Replayed)
    requires lines != [] && IsBlank(lines[|lines| - 1])
    ensures Scan(lines, |lines| - 1, acc) == Ok(acc)
  {
  }

  /** A last line that decodes is read, with or without its line break. */
  lemma {:induction false} ReplayRecordLine(log: string, t: string, r: WalRecord)
    requires IsWhole(log) && OneLine(t) && !IsBlank(t) && Decode(t) == Some(r)
    ensures Replay(log + t) == Replay(log + (t + "\n")) == Replay(log + (t + "\n\n")) ==
      match ReplayClosed(log)
      case Err(e) => Err(e)
      case Ok(p) => Continue(p, r, |Lines(log)| + 1)
  {
    hide Lines, RecordHash, Replay, ReplayClosed;
    LinesOfLast(t);
    ReplayBehind(log, t);
    ReplayBehind(log, t + "\n");
    ReplayBehind(log, t + "\n\n");
    assert (Lines(log) + [t])[|Lines(log)|] == t;
    assert (Lines(log) + [t, ""])[|Lines(log)|] == t;
    if ReplayClosed(log).Ok? && Continue(ReplayClosed(log).value, r, |Lines(log)| + 1).Ok? {
      ScanBlankEnd(Lines(log) + [t, ""], Continue(ReplayClosed(log).value, r, |Lines(log)| + 1).value);
    }
  }

  /** A last line that does not decode is dropped, with or without its line break; with a line
      behind it replay fails. */
  lemma {:induction false} ReplayGarbledLine(log: string, t: string)
    requires IsWhole(log) && OneLine(t) && !IsBlank(t) && Decode(t) == None
    ensures Replay(log + t) == Replay(log + (t + "\n")) == ReplayClosed(log)
    ensures Replay(log + (t + "\n\n")) ==
      if ReplayClosed(log).Err? then ReplayClosed(log) else Err(MalformedRecord(|Lines(log)| + 1))
  {
    hide Lines, RecordHash, Replay, ReplayClosed;
    LinesOfLast(t);
    ReplayBehind(log, t);
    ReplayBehind(log, t + "\n");
    ReplayBehind(log, t + "\n\n");
    assert (Lines(log) + [t])[|Lines(log)|] == t;
    assert (Lines(log) + [t, ""])[|Lines(log)|] == t;
  }

  // ---------- the logs that appending leaves behind ----------

  ghost predicate HoldsShards(log: string, settled: string, shards: seq<Shard>) {
    IsWhole(settled) && IsShards(shards) && log == settled + Glued(shards)
  }

  /** Any lines, and behind them some shards of records. */
  ghost predicate IsWrittenLog(log: string) {
    exists settled, shards :: HoldsShards(log, settled, shards)
  }

  /** The log up to its last line break. */
  function Settled(log: string): (s: string)
    ensures IsWhole(s)
  {
    if IsWhole(log) then log else Settled(log[..|log| - 1])
  }

  lemma {:induction false} SettledOf(settled: string, tail: string)
    requires IsWhole(settled) && '\n' !in tail
    ensures Settled(settled + tail) == settled
    ensures IsWhole(settled + tail) <==> tail == ""
    decreases |tail|
  {
    if tail == "" {
      assert settled + tail == settled;
    } else {
      var t := settled + tail;
      assert t[|t| - 1] == tail[|tail| - 1];
      assert t[..|t| - 1] == settled + tail[..|tail| - 1];
      SettledOf(settled, tail[..|tail| - 1]);
    }
  }

  lemma {:induction false} GluedIsLine(shards: seq<Shard>)
    requires IsShards(shards)
    ensures OneLine(Glued(shards))
    ensures shards != [] ==> Glued(shards) != "" && !IsBlank(Glued(shards))
  {
    if shards != [] {
      var front, last := shards[..|shards| - 1], shards[|shards| - 1];
      GluedIsLine(front);
      var part := Encode(last.record)[..last.n];
      assert Glued(shards) == Glued(front) + part;
      RecordNotBlank(last.record);
      if front == [] {
        assert "" + part == part;
      } else {
        var k :| 0 <= k < |Glued(front)| && !IsWhitespace(Glued(front)[k]);
        assert Glued(shards)[k] == Glued(front)[k];
      }
      assert OneLine(part);
    }
  }

  lemma GluedNone()
    ensures IsShards([]) && Glued([]) == ""
  {
  }

  lemma GluedOne(r: WalRecord, n: nat)
    requires 0 < n <= |Encode(r)|
    ensures IsShards([Shard(r, n)]) && Glued([Shard(r, n)]) == Encode(r)[..n]
  {
    GluedNone();
    GluedSnoc([], r, n);
    assert [] + [Shard(r, n)] == [Shard(r, n)] && "" + Encode(r)[..n] == Encode(r)[..n];
  }

  lemma ShardsOf(log: string) returns (shards: seq<Shard>)
    requires IsWrittenLog(log)
    ensures HoldsShards(log, Settled(log), shards)
    ensures IsWhole(log) <==> shards == []
  {
    var settled, found :| HoldsShards(log, settled, found);
    GluedIsLine(found);
    SettledOf(settled, Glued(found));
    shards := found;
  }

  lemma WholeIsWritten(log: string)
    requires IsWhole(log)
    ensures IsWrittenLog(log)
  {
    assert HoldsShards(log, log, []) by { assert log + "" == log; }
  }

  /** Every write of any part of a record line leaves such a log. */
  lemma {:induction false} WriteKeepsShape(log: string, h: Handle, op: WalOp, n: nat)
    requires IsWrittenLog(log) && n <= |LineFor(h, op)|
    ensures IsWrittenLog(log + LineFor(h, op)[..n])
  {
    hide Encode, Glued, IsShards;
    var line := LineFor(h, op);
    var r := NextRecord(h, op);
    if n == 0 {
      assert log + line[..n] == log;
    } else if n == |line| {
      var t := log + line[..n];
      assert t[|t| - 1] == '\n';
      WholeIsWritten(t);
    } else {
      var shards := ShardsOf(log);
      assert line[..n] == Encode(r)[..n];
      GluedSnoc(shards, r, n);
      assert log + line[..n] == Settled(log) + (Glued(shards) + Encode(r)[..n]);
      assert HoldsShards(log + line[..n], Settled(log), shards + [Shard(r, n)]);
    }
  }

  // ---------- what one more write makes of a log ----------

  /** What replay returns of a log once another record was written behind it. */
  function Surviving(log: string): Result<Replayed, WalError> {
    ReplayClosed(Settled(log))
  }

  lemma {:induction false} WriteToWhole(log: string, h: Handle, op: WalOp, n: nat)
    requires IsWhole(log) && 0 < n <= |LineFor(h, op)|
    ensures Replay(log + LineFor(h, op)[..n]) ==
      if Surviving(log).Err? || n + 1 < |LineFor(h, op)| then Surviving(log)
      else Continue(Surviving(log).value, NextRecord(h, op), |Lines(log)| + 1)
    ensures n == |LineFor(h, op)| ==> ReplayClosed(log + LineFor(h, op)) == Replay(log + LineFor(h, op))
  {
    hide Encode, Decode, Replay, Continue, Lines;
    var r, line := NextRecord(h, op), LineFor(h, op);
    var text := Encode(r);
    RecordNotBlank(r);
    if n < |text| {
      assert line[..n] == text[..n] && OneLine(text[..n]);
      DecodeTruncated(r, n);
      ReplayGarbledLine(log, text[..n]);
    } else {
      assert text[..|text|] == text;
      DecodeEncoded(r);
      ReplayRecordLine(log, text, r);
      assert line == text + "\n" && (n == |text| ==> line[..n] == text) && (n == |line| ==> line[..n] == line);
      assert log + line + "\n" == log + (text + "\n\n") by { assert (text + "\n") + "\n" == text + "\n\n"; }
    }
  }

  lemma {:induction false} WriteToTorn(log: string, h: Handle, op: WalOp, n: nat)
    requires IsWrittenLog(log) && !IsWhole(log) && 0 < n <= |LineFor(h, op)|
    ensures Replay(log + LineFor(h, op)[..n]) == Surviving(log)
    ensures n == |LineFor(h, op)| ==> ReplayClosed(log + LineFor(h, op)).Err?
  {
    hide Encode, Decode, Replay, Lines, Glued, IsShards, IsBlank;
    var r, line, settled := NextRecord(h, op), LineFor(h, op), Settled(log);
    var text := Encode(r);
    var shards := ShardsOf(log);
    var m := if n < |line| then n else |text|;
    var glued := Glued(shards) + text[..m];
    GluedSnoc(shards, r, m);
    DecodeGlued(shards + [Shard(r, m)]);
    GluedIsLine(shards + [Shard(r, m)]);
    ReplayGarbledLine(settled, glued);
    if n < |line| {
      assert log + line[..n] == settled + glued by { assert line[..n] == text[..m]; }
    } else {
      assert text[..m] == text && line[..n] == line;
      assert log + line == settled + (glued + "\n");
      assert log + line + "\n" == settled + (glued + "\n\n") by { assert (glued + "\n") + "\n" == glued + "\n\n"; }
    }
  }

  /** The log ends behind a line break, replay would read it to the end with more lines behind
      it, and the handle stands behind its last record. */
  predicate TakesAppend(log: string, h: Handle) {
    && IsWhole(log) && ReplayClosed(log).Ok?
    && h == Handle(ReplayClosed(log).value.seqNo, ReplayClosed(log).value.tip)
  }

  function HandleBehind(h: Handle, op: WalOp): Handle {
    Handle(h.seqNo + 1, RecordHash(NextRecord(h, op)))
  }

  lemma AppendTaken(log: string, h: Handle, op: WalOp)
    requires TakesAppend(log, h)
    ensures TakesAppend(log + LineFor(h, op), HandleBehind(h, op))
    ensures Replay(log) == ReplayClosed(log)
    ensures Replay(log + LineFor(h, op))
         == Ok(Replayed(Replay(log).value.ops + [op], h.seqNo + 1, RecordHash(NextRecord(h, op))))
  {
    hide Encode, Replay, ReplayClosed, Lines;
    var line := LineFor(h, op);
    ClosedReplays(log);
    WriteToWhole(log, h, op, |line|);
    assert line[..|line|] == line;
    assert (log + line)[|log + line| - 1] == '\n';
  }

  /** An appended record is replayed behind everything that was replayed before it exactly if
      the log takes it. */
  lemma {:induction false} AppendReplayedIff(log: string, h: Handle, op: WalOp)
    requires IsWrittenLog(log)
    ensures var (before, after) := (Replay(log), Replay(log + LineFor(h, op)));
            before.Ok? && after.Ok? && after.value.ops == before.value.ops + [op] <==> TakesAppend(log, h)
  {
    hide Encode, Replay, ReplayClosed, Lines, IsWrittenLog;
    var line := LineFor(h, op);
    assert line[..|line|] == line;
    if IsWhole(log) {
      if ReplayClosed(log).Ok? { ClosedReplays(log); }
      WriteToWhole(log, h, op, |line|);
    } else {
      WriteToTorn(log, h, op, |line|);
      LastLineAdds(log);
    }
  }

  /** The last line of a torn log adds at most records to what survives. */
  lemma LastLineAdds(log: string)
    requires IsWrittenLog(log) && !IsWhole(log)
    ensures Replay(log).Ok? ==> Surviving(log).Ok? && Surviving(log).value.ops <= Replay(log).value.ops
  {
    hide Encode, Replay, ReplayClosed, Lines, Glued, IsShards, IsBlank;
    var shards := ShardsOf(log);
    GluedIsLine(shards);
    if Decode(Glued(shards)).Some? {
      ReplayRecordLine(Settled(log), Glued(shards), Decode(Glued(shards)).value);
    } else {
      ReplayGarbledLine(Settled(log), Glued(shards));
    }
  }

  lemma {:induction false} ClosedLogText(ops: seq<WalOp>)
    ensures ReplayClosed(LogText(ops)) == Ok(After(ops))
    ensures TakesAppend(LogText(ops), HandleAfter(ops))
  {
    ReplayThen(ops, "\n");
    LinesOfBreak();
    assert IsWhole(LogText(ops));
  }
}
