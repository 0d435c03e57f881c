/** What replay recovers: every record of a whole log, every complete record of a log cut
    anywhere, and nothing else; and where appending to a cut log goes wrong. */
module LogReplay {
  import opened Results
  import opened Hashing
  import opened Decimal
  import opened WalJson
  import opened WalCodec
  import opened Persistence
  import opened WriteAheadLogs

  // ---------- lines of a written log ----------

  lemma {:induction false} LineLengthOf(line: string, rest: string)
    requires '\n' !in line
    ensures LineLength(line + ("\n" + rest)) == |line|
  {
    var t := line + ("\n" + rest);
    assert t[|line|] == '\n';
    assert forall i :: 0 <= i < |line| ==> t[i] == line[i];
  }

  lemma FirstLine(line: string, rest: string)
    requires OneLine(line)
    ensures Lines(line + ("\n" + rest)) == [line] + Lines(rest)
  {
    var t := line + ("\n" + rest);
    LineLengthOf(line, rest);
    assert t[..|line|] == line && t[|line| + 1..] == rest;
  }

  lemma FirstLineOf(line: string, rest: string)
    requires '\n' !in line
    ensures Lines(line + ("\n" + rest)) == [StripReturn(line)] + Lines(rest)
  {
    var t := line + ("\n" + rest);
    LineLengthOf(line, rest);
    assert t[..|line|] == line && t[|line| + 1..] == rest;
  }

  lemma NoLines()
    ensures Lines("") == []
  {
  }

  lemma OnlyLine(line: string)
    requires '\n' !in line && line != ""
    ensures Lines(line) == [line]
  {
    assert LineLength(line) == |line|;
  }

  /** A carriage return before the line break does not belong to the line; one at the end of a
      line without a break does. */
  lemma {:induction false} LinesMeaning(line: string, rest: string)
    requires '\n' !in line
    ensures Lines("") == [] && (line != "" ==> Lines(line) == [line])
    ensures Lines(line + "\r" + ("\n" + rest)) == [line] + Lines(rest)
    ensures (line == "" || line[|line| - 1] != '\r') ==> Lines(line + ("\n" + rest)) == [line] + Lines(rest)
  {
    hide Lines;
    NoLines();
    if line != "" { OnlyLine(line); }
    FirstLineOf(line, rest);
    FirstLineOf(line + "\r", rest);
    assert (line + "\r")[..|line|] == line;
  }

  ghost function RecordLines(ops: seq<WalOp>): (lines: seq<string>)
    ensures |lines| == |ops|
    ensures forall i :: 0 <= i < |ops| ==> lines[i] == Encode(RecordAt(ops, i))
  {
    seq(|ops|, i requires 0 <= i < |ops| => Encode(RecordAt(ops, i)))
  }

  lemma Regroup(a: string, line: string, rest: string)
    ensures a + (line + "\n") + rest == a + (line + ("\n" + rest))
  {
  }

  lemma {:induction false} LinesOfLog(ops: seq<WalOp>, rest: string)
    ensures Lines(LogText(ops) + rest) == RecordLines(ops) + Lines(rest)
    decreases |ops|
  {
    hide TipHash, Encode, Lines;
    if ops == [] {
      assert LogText(ops) + rest == rest;
    } else {
      var init := ops[..|ops| - 1];
      var line := Encode(RecordAt(ops, |ops| - 1));
      Regroup(LogText(init), line, rest);
      LinesOfLog(init, line + ("\n" + rest));
      FirstLine(line, rest);
      RecordLinesSnoc(ops);
    }
  }

  lemma RecordLinesSnoc(ops: seq<WalOp>)
    requires ops != []
    ensures RecordLines(ops) == RecordLines(ops[..|ops| - 1]) + [Encode(RecordAt(ops, |ops| - 1))]
  {
    var init := ops[..|ops| - 1];
    forall i | 0 <= i < |init|
      ensures RecordAt(init, i) == RecordAt(ops, i)
    {
      assert init[..i] == ops[..i];
    }
  }

  lemma RecordNotBlank(r: WalRecord)
    ensures forall n :: 0 < n <= |Encode(r)| ==> !IsBlank(Encode(r)[..n])
  {
    forall n | 0 < n <= |Encode(r)|
      ensures !IsBlank(Encode(r)[..n])
    {
      assert Encode(r)[..n][0] == '{';
    }
  }

  // ---------- scanning a written log ----------

  function After(ops: seq<WalOp>): Replayed {
    Replayed(ops, |ops|, TipHash(ops))
  }

  lemma ScanOne(lines: seq<string>, i: nat, acc: Replayed, r: WalRecord)
    requires i < |lines| && lines[i] == Encode(r)
    requires r.seqNo == acc.seqNo + 1 && r.prevHash == acc.tip
    ensures Scan(lines, i, acc) == Scan(lines, i + 1, Replayed(acc.ops + [r.op], r.seqNo, RecordHash(r)))
  {
    RecordNotBlank(r);
    DecodeEncoded(r);
    assert Encode(r)[..|Encode(r)|] == Encode(r);
  }

  lemma TipSnoc(ops: seq<WalOp>, op: WalOp)
    ensures TipHash(ops + [op]) == RecordHash(WalRecord(|ops| + 1, TipHash(ops), op))
  {
    assert (ops + [op])[..|ops|] == ops;
  }

  lemma AfterNone()
    ensures After([]) == EMPTY_LOG
  {
  }

  lemma {:induction false} ScanUntouched(ops: seq<WalOp>, lines: seq<string>, n: nat)
    requires n <= |ops| <= |lines|
    requires forall k :: 0 <= k < n ==> lines[k] == Encode(RecordAt(ops, k))
    ensures Scan(lines, 0, EMPTY_LOG) == Scan(lines, n, After(ops[..n]))
    decreases n
  {
    hide RecordHash, Encode, Decode, Scan, TipHash;
    if n == 0 {
      assert ops[..0] == [];
      AfterNone();
    } else {
      ScanUntouched(ops, lines, n - 1);
      ScanOne(lines, n - 1, After(ops[..n - 1]), RecordAt(ops, n - 1));
      TipSnoc(ops[..n - 1], ops[n - 1]);
      assert ops[..n - 1] + [ops[n - 1]] == ops[..n] && ops[..n][..n - 1] == ops[..n - 1];
    }
  }

  lemma {:induction false} ReplayThen(ops: seq<WalOp>, rest: string)
    ensures |RecordLines(ops)| == |ops|
    ensures Replay(LogText(ops) + rest) == Scan(RecordLines(ops) + Lines(rest), |ops|, After(ops))
  {
    LinesOfLog(ops, rest);
    ScanUntouched(ops, RecordLines(ops) + Lines(rest), |ops|);
    assert ops[..|ops|] == ops;
  }

  lemma {:induction false} ReplayThenLine(ops: seq<WalOp>, line: string, rest: string)
    requires OneLine(line)
    ensures var lines := RecordLines(ops) + ([line] + Lines(rest));
            && |lines| == |ops| + 1 + |Lines(rest)| && lines[|ops|] == line
            && Replay(LogText(ops) + (line + ("\n" + rest))) == Scan(lines, |ops|, After(ops))
  {
    ReplayThen(ops, line + ("\n" + rest));
    FirstLine(line, rest);
  }

  lemma {:induction false} ReplayWhole(ops: seq<WalOp>)
    ensures Replay(LogText(ops)) == Ok(After(ops))
  {
    ReplayThen(ops, "");
    assert LogText(ops) + "" == LogText(ops);
    assert RecordLines(ops) + Lines("") == RecordLines(ops);
  }

  /** A last line that does not decode is dropped. */
  lemma ReplayDropsTorn(ops: seq<WalOp>, torn: string)
    requires torn != "" && '\n' !in torn && !IsBlank(torn) && Decode(torn) == None
    ensures Replay(LogText(ops) + torn) == Ok(After(ops))
  {
    ReplayThen(ops, torn);
    OnlyLine(torn);
    assert (RecordLines(ops) + [torn])[|ops|] == torn;
  }

  // ---------- torn tail ----------

  /** How many records of a log are complete in its first `cut` characters; only the line
      break behind the last of them may be missing. */
  function CompleteRecords(ops: seq<WalOp>, cut: nat): (k: nat)
    ensures k <= |ops|
  {
    if ops == [] then 0
    else if |LogText(ops)| <= cut + 1 then |ops|
    else CompleteRecords(ops[..|ops| - 1], cut)
  }

  /** The text of record `k` is complete exactly if its last character lies before the cut. */
  lemma {:induction false} CompleteRecordsMeaning(ops: seq<WalOp>, cut: nat, i: nat)
    requires i < |ops|
    ensures i < CompleteRecords(ops, cut) <==> |LogText(ops[..i + 1])| - 1 <= cut
    decreases |ops|
  {
    var init := ops[..|ops| - 1];
    if i == |ops| - 1 {
      assert ops[..i + 1] == ops;
    } else {
      CompleteRecordsMeaning(init, cut, i);
      assert init[..i + 1] == ops[..i + 1];
      LogTextGrows(ops, i + 1);
    }
  }

  lemma {:induction false} LogTextGrows(ops: seq<WalOp>, i: nat)
    requires i <= |ops|
    ensures LogText(ops[..i]) <= LogText(ops)
    decreases |ops|
  {
    if i == |ops| {
      assert ops[..i] == ops;
    } else {
      var init := ops[..|ops| - 1];
      LogTextGrows(init, i);
      assert init[..i] == ops[..i];
    }
  }

  lemma {:induction false} ScanLast(before: seq<string>, acc: Replayed, r: WalRecord)
    requires r.seqNo == acc.seqNo + 1 && r.prevHash == acc.tip
    ensures Scan(before + [Encode(r)], |before|, acc) == Ok(Replayed(acc.ops + [r.op], r.seqNo, RecordHash(r)))
  {
    hide RecordHash, Encode, Decode, IsBlank;
    ScanOne(before + [Encode(r)], |before|, acc, r);
  }

  lemma {:induction false} ReplayUnterminated(init: seq<WalOp>, op: WalOp)
    ensures Replay(LogText(init) + Encode(WalRecord(|init| + 1, TipHash(init), op))) == Ok(After(init + [op]))
  {
    hide LogText, TipHash, RecordHash, Replay, Lines, Scan, Encode;
    var r := WalRecord(|init| + 1, TipHash(init), op);
    ReplayThen(init, Encode(r));
    OnlyLine(Encode(r));
    ScanLast(RecordLines(init), After(init), r);
    TipSnoc(init, op);
  }

  lemma ReplayWithoutLineBreak(ops: seq<WalOp>)
    requires ops != []
    ensures Replay(LogText(ops)[..|LogText(ops)| - 1]) == Ok(After(ops))
  {
    hide TipHash, Replay, Encode;
    var init, op := ops[..|ops| - 1], ops[|ops| - 1];
    ReplayUnterminated(init, op);
    assert init + [op] == ops;
    assert LogText(ops)[..|LogText(ops)| - 1] == LogText(init) + Encode(RecordAt(ops, |ops| - 1));
  }

  /** Torn tail: cut a written log after any number of characters, and replay still succeeds
      and returns exactly the complete records, with their count and chain hash. */
  lemma {:induction false} TornTail(ops: seq<WalOp>, cut: nat)
    requires cut <= |LogText(ops)|
    ensures Replay(LogText(ops)[..cut]) == Ok(After(ops[..CompleteRecords(ops, cut)]))
    decreases |ops|
  {
    hide TipHash, Replay, Decode, Encode;
    var text := LogText(ops);
    if ops == [] || cut == |text| {
      assert text[..cut] == text && ops[..|ops|] == ops;
      ReplayWhole(ops);
    } else if cut == |text| - 1 {
      assert ops[..|ops|] == ops;
      ReplayWithoutLineBreak(ops);
    } else {
      var init, r := ops[..|ops| - 1], RecordAt(ops, |ops| - 1);
      assert forall k :: 0 <= k <= |init| ==> init[..k] == ops[..k];
      if cut <= |LogText(init)| {
        assert text[..cut] == LogText(init)[..cut];
        TornTail(init, cut);
      } else {
        var n := cut - |LogText(init)|;
        assert text[..cut] == LogText(init) + Encode(r)[..n];
        RecordNotBlank(r);
        DecodeTruncated(r, n);
        ReplayDropsTorn(init, Encode(r)[..n]);
        if init != [] { assert |LogText(init)| <= cut + 1; }
      }
    }
  }

  // ---------- appending ----------

  predicate IsWhole(log: string) {
    log == "" || log[|log| - 1] == '\n'
  }

  function HandleAfter(ops: seq<WalOp>): Handle {
    Handle(|ops|, TipHash(ops))
  }

  lemma AppendWhole(ops: seq<WalOp>, op: WalOp)
    ensures LogText(ops) + LineFor(HandleAfter(ops), op) == LogText(ops + [op])
    ensures TipHash(ops + [op]) == RecordHash(NextRecord(HandleAfter(ops), op))
    ensures IsWhole(LogText(ops))
  {
    assert (ops + [op])[..|ops|] == ops;
  }

  /** A cut log is whole exactly if it ends behind a line break, and then it is the log of its
      complete records. */
  lemma {:induction false} WholeCut(ops: seq<WalOp>, cut: nat)
    requires cut <= |LogText(ops)|
    ensures var k := CompleteRecords(ops, cut);
            IsWhole(LogText(ops)[..cut]) <==> LogText(ops)[..cut] == LogText(ops[..k])
    decreases |ops|
  {
    hide TipHash, Encode;
    var text := LogText(ops);
    if ops == [] || cut == |text| {
      assert text[..cut] == text && ops[..|ops|] == ops;
    } else {
      var init, r := ops[..|ops| - 1], RecordAt(ops, |ops| - 1);
      RecordNotBlank(r);
      assert forall k :: 0 <= k <= |init| ==> init[..k] == ops[..k];
      if cut <= |LogText(init)| {
        assert text[..cut] == LogText(init)[..cut];
        WholeCut(init, cut);
        assert cut < |text| - 1;
      } else {
        var n := cut - |LogText(init)|;
        assert text[..cut] == LogText(init) + Encode(r)[..n];
        assert text[..cut][cut - 1] == Encode(r)[n - 1];
        assert Encode(r)[n - 1] in Encode(r);
        assert |text[..cut]| != |LogText(init)| && |text[..cut]| != |text|;
        assert ops[..|ops|] == ops;
      }
    }
  }

  /** The part of a cut log that ends with its last line break, and the torn rest. */
  lemma {:induction false} SplitCut(ops: seq<WalOp>, cut: nat) returns (j: nat, n: nat)
    requires cut <= |LogText(ops)| && !IsWhole(LogText(ops)[..cut])
    ensures j < |ops| && 0 < n <= |Encode(RecordAt(ops, j))|
    ensures LogText(ops)[..cut] == LogText(ops[..j]) + Encode(RecordAt(ops, j))[..n]
    ensures j <= CompleteRecords(ops, cut) <= j + 1
    decreases |ops|
  {
    hide TipHash, Encode;
    var text, init := LogText(ops), ops[..|ops| - 1];
    assert text[..|text|] == text;
    assert forall k :: 0 <= k <= |init| ==> init[..k] == ops[..k];
    if cut <= |LogText(init)| {
      assert text[..cut] == LogText(init)[..cut];
      j, n := SplitCut(init, cut);
      assert init[..j] == ops[..j] && RecordAt(init, j) == RecordAt(ops, j);
      assert |LogText(ops)| > cut + 1;
    } else {
      j, n := |init|, cut - |LogText(init)|;
      assert text[..cut] == LogText(init) + Encode(RecordAt(ops, j))[..n];
      if init != [] { assert |LogText(init)| <= cut + 1; }
    }
  }

  /** What two appends make of a log that was cut inside a record and reopened.  The first one
      is reported as written, lands on the torn line and is dropped by replay, together with
      the cut record even if only its line break was missing.  After the second one replay
      fails. */
  lemma {:induction false} AppendAfterTear(ops: seq<WalOp>, cut: nat, h: Handle, op: WalOp, g: Handle, op2: WalOp)
    requires cut <= |LogText(ops)| && !IsWhole(LogText(ops)[..cut])
    ensures exists j :: CompleteRecords(ops, cut) - 1 <= j <= CompleteRecords(ops, cut) && 0 <= j < |ops|
              && Replay(LogText(ops)[..cut] + LineFor(h, op)) == Ok(After(ops[..j]))
              && Replay(LogText(ops)[..cut] + LineFor(h, op) + LineFor(g, op2)) == Err(MalformedRecord(j + 1))
  {
    var j, n := SplitCut(ops, cut);
    var kept, glued := ops[..j], Encode(RecordAt(ops, j))[..n] + Encode(NextRecord(h, op));
    var line2 := Encode(NextRecord(g, op2));
    GluedLine(RecordAt(ops, j), n, NextRecord(h, op));
    TextOfAppends(LogText(kept), Encode(RecordAt(ops, j))[..n], Encode(NextRecord(h, op)), line2);
    ReplayThenLine(kept, glued, "");
    ReplayThenLine(kept, glued, line2 + ("\n" + ""));
    FirstLine(line2, "");
  }

  lemma TextOfAppends(whole: string, torn: string, a: string, b: string)
    ensures whole + torn + (a + "\n") == whole + (torn + a + ("\n" + ""))
    ensures whole + torn + (a + "\n") + (b + "\n") == whole + (torn + a + ("\n" + (b + ("\n" + ""))))
  {
  }

  lemma GluedLine(r: WalRecord, n: nat, s: WalRecord)
    requires 0 < n <= |Encode(r)|
    ensures var glued := Encode(r)[..n] + Encode(s);
            OneLine(glued) && !IsBlank(glued) && Decode(glued) == None
  {
    RecordNotBlank(r);
    GluedSnoc([], r, n);
    GluedSnoc([Shard(r, n)], s, |Encode(s)|);
    assert Encode(s)[..|Encode(s)|] == Encode(s) && "" + Encode(r)[..n] == Encode(r)[..n];
    DecodeGlued([Shard(r, n)] + [Shard(s, |Encode(s)|)]);
    var glued := Encode(r)[..n] + Encode(s);
    assert glued[0] == '{';
    assert OneLine(Encode(r)[..n]);
  }

  /** Reopening a cut log and appending to it keeps the new record exactly if the log was cut
      behind a line break. */
  lemma {:induction false} AppendSurvivesIffWhole(ops: seq<WalOp>, cut: nat, op: WalOp)
    requires cut <= |LogText(ops)|
    ensures var kept := ops[..CompleteRecords(ops, cut)];
            Replay(LogText(ops)[..cut] + LineFor(HandleAfter(kept), op)) == Ok(After(kept + [op]))
            <==> IsWhole(LogText(ops)[..cut])
  {
    var kept := ops[..CompleteRecords(ops, cut)];
    if IsWhole(LogText(ops)[..cut]) {
      WholeCut(ops, cut);
      AppendWhole(kept, op);
      ReplayWhole(kept + [op]);
    } else {
      AppendAfterTear(ops, cut, HandleAfter(kept), op, HandleAfter(kept), op);
    }
  }
}
