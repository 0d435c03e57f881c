/** What the chain hash of a log binds: every operation before it, in order. */
module LogBinding {
  import opened Results
  import opened Hashing
  import opened Texts
  import opened Decimal
  import opened WalJson
  import opened WalCodec
  import opened WriteAheadLogs
  import opened LogReplay
  import opened WrittenLogs

  /** The texts hashed along the chain of `ops`. */
  ghost function ChainTexts(ops: seq<WalOp>): set<string> {
    if ops == [] then {}
    else ChainTexts(ops[..|ops| - 1]) + {RecordText(RecordAt(ops, |ops| - 1))}
  }

  lemma TipIsDigest(ops: seq<WalOp>)
    ensures IsDigest(TipHash(ops))
  {
  }

  lemma RecordTextInjective(a: WalRecord, b: WalRecord)
    requires IsDigest(a.prevHash) && IsDigest(b.prevHash)
    requires RecordText(a) == RecordText(b)
    ensures a == b
  {
    FirstBar(Show(a.seqNo), PairText(a.prevHash, OpText(a.op)), Show(b.seqNo), PairText(b.prevHash, OpText(b.op)));
    ShowInjective(a.seqNo, b.seqNo);
    SplitAt(a.prevHash, OpText(a.op), b.prevHash, OpText(b.op));
    OpTextInjective(a.op, b.op);
  }

  lemma {:induction false} TipBinding(a: seq<WalOp>, b: seq<WalOp>)
    requires a != [] && b != [] && TipHash(a) == TipHash(b)
    ensures a == b || CollisionIn(ChainTexts(a) + ChainTexts(b))
    decreases |a|
  {
    var texts := ChainTexts(a) + ChainTexts(b);
    if !CollisionIn(texts) {
      var a', b' := a[..|a| - 1], b[..|b| - 1];
      var r, s := RecordAt(a, |a| - 1), RecordAt(b, |b| - 1);
      SameDigestSameText(RecordText(r), RecordText(s), texts);
      TipIsDigest(a');
      TipIsDigest(b');
      RecordTextInjective(r, s);
      if a' != [] {
        TipBinding(a', b');
        NoCollisionInSubset(ChainTexts(a') + ChainTexts(b'), texts);
      }
      assert a == a' + [r.op] && b == b' + [s.op];
    }
  }

  // ---------- every accepted log is a chain ----------

  lemma {:induction false} ScanKeepsChain(lines: seq<string>, i: nat, acc: Replayed)
    requires i <= |lines| && acc == After(acc.ops)
    ensures var r := Scan(lines, i, acc);
            r.Ok? ==> r.value == After(r.value.ops) && acc.ops <= r.value.ops
    decreases |lines| - i
  {
    if i < |lines| {
      if IsBlank(lines[i]) {
        ScanKeepsChain(lines, i + 1, acc);
      } else if Decode(lines[i]).Some? {
        var r := Decode(lines[i]).value;
        if r.seqNo == acc.seqNo + 1 && r.prevHash == acc.tip {
          assert (acc.ops + [r.op])[..|acc.ops|] == acc.ops;
          ScanKeepsChain(lines, i + 1, Replayed(acc.ops + [r.op], r.seqNo, RecordHash(r)));
        }
      }
    }
  }

  lemma {:induction false} AcceptedIsChain(text: string)
    requires Replay(text).Ok?
    ensures Replay(text).value == After(Replay(text).value.ops)
  {
    ScanKeepsChain(Lines(text), 0, EMPTY_LOG);
  }

  /** Log binding: any two accepted texts with at least one record and the same chain hash
      hold the same operations, unless two record texts collide. */
  lemma {:induction false} LogBindingTheorem(s: string, t: string)
    requires Replay(s).Ok? && Replay(t).Ok?
    requires Replay(s).value.ops != [] && Replay(t).value.ops != []
    requires Replay(s).value.tip == Replay(t).value.tip
    ensures var a, b := Replay(s).value, Replay(t).value;
            a == b || CollisionIn(ChainTexts(a.ops) + ChainTexts(b.ops))
  {
    AcceptedIsChain(s);
    AcceptedIsChain(t);
    TipBinding(Replay(s).value.ops, Replay(t).value.ops);
  }

  // ---------- tampering ----------

  lemma {:induction false} TipOfLastLine(lines: seq<string>, i: nat, acc: Replayed, r: WalRecord)
    requires i < |lines| && lines[|lines| - 1] == Encode(r)
    ensures var p := Scan(lines, i, acc); p.Ok? ==> p.value.tip == RecordHash(r) && p.value.ops != []
    decreases |lines| - i
  {
    if i == |lines| - 1 {
      RecordNotBlank(r);
      DecodeEncoded(r);
      assert Encode(r)[..|Encode(r)|] == Encode(r);
    } else if IsBlank(lines[i]) {
      TipOfLastLine(lines, i + 1, acc, r);
    } else if Decode(lines[i]).Some? {
      var d := Decode(lines[i]).value;
      TipOfLastLine(lines, i + 1, Replayed(acc.ops + [d.op], d.seqNo, RecordHash(d)), r);
    }
  }

  lemma {:induction false} LinesTampered(ops: seq<WalOp>, i: nat, line: string)
    requires i + 1 < |ops| && Decode(line) != Some(RecordAt(ops, i))
    ensures var p := Scan(RecordLines(ops)[i := line], 0, EMPTY_LOG);
            p.Ok? ==> CollisionIn(ChainTexts(ops) + ChainTexts(p.value.ops))
  {
    var lines := RecordLines(ops)[i := line];
    var p := Scan(lines, 0, EMPTY_LOG);
    if p.Ok? {
      ScanKeepsChain(lines, 0, EMPTY_LOG);
      TipOfLastLine(lines, 0, EMPTY_LOG, RecordAt(ops, |ops| - 1));
      TipBinding(ops, p.value.ops);
      ScanUntouched(ops, lines, i);
      if p.value.ops == ops {
        ReplacedLine(ops, lines, i);
      }
    }
  }

  lemma ReplacedLine(ops: seq<WalOp>, lines: seq<string>, i: nat)
    requires |lines| == |ops| && i + 1 < |ops|
    requires Decode(lines[i]) != Some(RecordAt(ops, i))
    requires lines[i + 1..] == RecordLines(ops)[i + 1..]
    ensures var p := Scan(lines, i, After(ops[..i])); p.Ok? ==> p.value.ops != ops
  {
    var acc := After(ops[..i]);
    var p := Scan(lines, i, acc);
    if p.Ok? {
      if IsBlank(lines[i]) {
        var next := RecordAt(ops, i + 1);
        assert lines[i + 1] == lines[i + 1..][0] == RecordLines(ops)[i + 1..][0] == Encode(next);
        assert Encode(next)[..|Encode(next)|] == Encode(next);
        RecordNotBlank(next);
        DecodeEncoded(next);
      } else {
        var r := Decode(lines[i]).value;
        assert (acc.ops + [r.op])[..i] == acc.ops;
        ScanKeepsChain(lines, i + 1, Replayed(acc.ops + [r.op], r.seqNo, RecordHash(r)));
        assert (acc.ops + [r.op])[i] == p.value.ops[i];
      }
    }
  }

  /** The log of `ops` with other characters in place of the line of record `i`. */
  function WithLine(ops: seq<WalOp>, i: nat, line: string): string
    requires i < |ops|
  {
    LogTextGrows(ops, i + 1);
    LogText(ops[..i]) + line + "\n" + LogText(ops)[|LogText(ops[..i + 1])|..]
  }

  lemma {:induction false} LinesWithLine(ops: seq<WalOp>, i: nat, line: string)
    requires i < |ops| && '\n' !in line
    ensures Lines(WithLine(ops, i, line)) == RecordLines(ops)[i := StripReturn(line)]
  {
    hide TipHash, Encode, Lines;
    var head, upTo := ops[..i], ops[..i + 1];
    LogTextGrows(ops, i + 1);
    var rest := LogText(ops)[|LogText(upTo)|..];
    assert LogText(upTo) + rest == LogText(ops);
    LinesOfLog(ops, "");
    LinesOfLog(upTo, rest);
    NoLines();
    assert LogText(ops) + "" == LogText(ops);
    assert WithLine(ops, i, line) == LogText(head) + (line + ("\n" + rest));
    LinesOfLog(head, line + ("\n" + rest));
    FirstLineOf(line, rest);
    LinesReplaced(ops, i, Lines(rest), StripReturn(line));
  }

  lemma LinesReplaced(ops: seq<WalOp>, i: nat, rest: seq<string>, line: string)
    requires i < |ops| && RecordLines(ops) == RecordLines(ops[..i + 1]) + rest
    ensures RecordLines(ops[..i]) + ([line] + rest) == RecordLines(ops)[i := line]
  {
    hide TipHash, Encode;
    assert ops[..i + 1][..i] == ops[..i];
    RecordLinesSnoc(ops[..i + 1]);
  }

  /** Put any other characters in place of the line of any record but the last, and replay
      fails, unless two record texts collide or the new line decodes to the same record. */
  lemma {:induction false} TamperDetected(ops: seq<WalOp>, i: nat, line: string)
    requires i + 1 < |ops| && '\n' !in line && Decode(StripReturn(line)) != Some(RecordAt(ops, i))
    ensures var p := Replay(WithLine(ops, i, line));
            p.Ok? ==> CollisionIn(ChainTexts(ops) + ChainTexts(p.value.ops))
  {
    hide TipHash, Encode, Lines, WithLine, ChainTexts, CollisionIn;
    LinesWithLine(ops, i, line);
    LinesTampered(ops, i, StripReturn(line));
  }
}
