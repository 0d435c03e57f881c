/** The hash-chained log of kai-os/state/src/wal.rs: append, replay, and what replay makes of
    a log that was cut anywhere. */
module WriteAheadLogs {
  import opened Results
  import opened Hashing
  import opened Texts
  import opened Decimal
  import opened WalJson
  import opened WalCodec
  import opened Persistence

  function RecordText(r: WalRecord): string {
    PairText(Show(r.seqNo), PairText(r.prevHash, OpText(r.op)))
  }

  function RecordHash(r: WalRecord): string {
    Sha(RecordText(r))
  }

  // ---------- the log as its writer means it ----------

  /** The chain hash after the records of `ops`. */
  function TipHash(ops: seq<WalOp>): string {
    if ops == [] then GENESIS_PREV
    else RecordHash(WalRecord(|ops|, TipHash(ops[..|ops| - 1]), ops[|ops| - 1]))
  }

  function RecordAt(ops: seq<WalOp>, i: nat): WalRecord
    requires i < |ops|
  {
    WalRecord(i + 1, TipHash(ops[..i]), ops[i])
  }

  /** The file after the records of `ops` were appended to an empty log. */
  function LogText(ops: seq<WalOp>): string {
    if ops == [] then ""
    else LogText(ops[..|ops| - 1]) + (Encode(RecordAt(ops, |ops| - 1)) + "\n")
  }

  // ---------- lines, as BufRead::lines splits them ----------

  function LineLength(text: string): (n: nat)
    ensures n <= |text| && forall i :: 0 <= i < n ==> text[i] != '\n'
    ensures n < |text| ==> text[n] == '\n'
  {
    if text == [] || text[0] == '\n' then 0 else 1 + LineLength(text[1..])
  }

  function StripReturn(line: string): string {
    if line != [] && line[|line| - 1] == '\r' then line[..|line| - 1] else line
  }

  function Lines(text: string): seq<string>
    decreases |text|
  {
    var n := LineLength(text);
    if text == [] then []
    else if n == |text| then [text]
    else [StripReturn(text[..n])] + Lines(text[n + 1..])
  }

  predicate IsWhitespace(c: char) {
    var u := c as int;
    9 <= u <= 13 || u == 0x20 || u == 0x85 || u == 0xA0 || u == 0x1680 || 0x2000 <= u <= 0x200A
    || u == 0x2028 || u == 0x2029 || u == 0x202F || u == 0x205F || u == 0x3000
  }

  /** The 25 characters of the Unicode property White_Space. */
  lemma WhitespaceList(c: char)
    ensures var all := {9, 10, 11, 12, 13, 32, 133, 160, 5760, 8192, 8193, 8194, 8195, 8196, 8197, 8198, 8199, 8200,
                        8201, 8202, 8232, 8233, 8239, 8287, 12288};
            IsWhitespace(c) <==> c as int in all
  {
  }

  predicate IsBlank(line: string) {
    forall i :: 0 <= i < |line| ==> IsWhitespace(line[i])
  }

  // ---------- replay ----------

  datatype WalError =
    | ChainBroken(line: nat, expected: string, got: string)
    | MalformedRecord(line: nat)

  datatype Replayed = Replayed(ops: seq<WalOp>, seqNo: nat, tip: string)

  const EMPTY_LOG := Replayed([], 0, GENESIS_PREV)

  /** Replay of the lines from number `i` on, after `acc`. */
  function Scan(lines: seq<string>, i: nat, acc: Replayed): Result<Replayed, WalError>
    requires i <= |lines|
    decreases |lines| - i
  {
    if i == |lines| then Ok(acc)
    else if IsBlank(lines[i]) then Scan(lines, i + 1, acc)
    else match Decode(lines[i])
      case None =>
        if |lines| <= i + 1 then Ok(acc) else Err(MalformedRecord(i + 1))
      case Some(r) =>
        if r.seqNo != acc.seqNo + 1 then
          Err(ChainBroken(i + 1, "seq " + Show(acc.seqNo + 1), "seq " + Show(r.seqNo)))
        else if r.prevHash != acc.tip then Err(ChainBroken(i + 1, acc.tip, r.prevHash))
        else Scan(lines, i + 1, Replayed(acc.ops + [r.op], r.seqNo, RecordHash(r)))
  }

  function Replay(text: string): Result<Replayed, WalError> {
    Scan(Lines(text), 0, EMPTY_LOG)
  }

  /** Counts the lines of the file again. */
  method IsLastLine(text: string, lineNo: nat) returns (last: bool)
    ensures last <==> |Lines(text)| <= lineNo
  {
    var count, rest := 0, text;
    while rest != ""
      invariant count + |Lines(rest)| == |Lines(text)|
      decreases |rest|
    {
      var n := LineLength(rest);
      count := count + 1;
      rest := if n == |rest| then "" else rest[n + 1..];
    }
    last := count <= lineNo;
  }

  method ReplayFile(text: string) returns (result: Result<Replayed, WalError>)
    ensures result == Replay(text)
  {
    var ops: seq<WalOp>, seqNo, prevHash := [], 0, GENESIS_PREV;
    var lines := Lines(text);
    var lineNo := 0;
    while lineNo < |lines|
      invariant lineNo <= |lines|
      invariant Scan(lines, lineNo, Replayed(ops, seqNo, prevHash)) == Replay(text)
    {
      var line := lines[lineNo];
      lineNo := lineNo + 1;
      if IsBlank(line) { continue; }
      match Decode(line) {
        case None =>
          var isLast := IsLastLine(text, lineNo);
          if isLast { return Ok(Replayed(ops, seqNo, prevHash)); }
          return Err(MalformedRecord(lineNo));
        case Some(record) =>
          if record.seqNo != seqNo + 1 {
            return Err(ChainBroken(lineNo, "seq " + Show(seqNo + 1), "seq " + Show(record.seqNo)));
          }
          if record.prevHash != prevHash {
            return Err(ChainBroken(lineNo, prevHash, record.prevHash));
          }
          prevHash := RecordHash(record);
          seqNo := record.seqNo;
          ops := ops + [record.op];
      }
    }
    result := Ok(Replayed(ops, seqNo, prevHash));
  }

  // ---------- the open log ----------

  datatype Handle = Handle(seqNo: nat, prevHash: string)

  function NextRecord(h: Handle, op: WalOp): WalRecord {
    WalRecord(h.seqNo + 1, h.prevHash, op)
  }

  function LineFor(h: Handle, op: WalOp): string {
    Encode(NextRecord(h, op)) + "\n"
  }

  class WriteAheadLog {
    const disk: Disk
    var seqNo: nat
    var prevHash: string

    constructor (disk: Disk, seqNo: nat, prevHash: string)
      ensures this.disk == disk && this.State() == Handle(seqNo, prevHash)
    {
      this.disk := disk;
      this.seqNo := seqNo;
      this.prevHash := prevHash;
    }

    function State(): Handle
      reads this
    {
      Handle(seqNo, prevHash)
    }

    static method Open(disk: Disk) returns (r: Result<WriteAheadLog, WalError>)
      ensures r.Err? == Replay(disk.log).Err?
      ensures r.Err? ==> r.error == Replay(disk.log).error
      ensures r.Ok? ==> fresh(r.value) && r.value.disk == disk
      ensures r.Ok? ==> var p := Replay(disk.log).value; r.value.State() == Handle(p.seqNo, p.tip)
    {
      var scanned := ReplayFile(disk.log);
      match scanned
      case Err(e) => return Err(e);
      case Ok(p) =>
        var log := new WriteAheadLog(disk, p.seqNo, p.tip);
        return Ok(log);
    }

    /** Appends one record.  `written` characters of the line reach the file and `synced` tells
        whether `sync_data` succeeds.  The sequence number is raised first, whatever happens. */
    method AppendOp(op: WalOp, written: nat, synced: bool) returns (r: Option<nat>)
      requires written <= |LineFor(State(), op)|
      modifies this, disk`log
      ensures disk.log == old(disk.log) + LineFor(old(State()), op)[..written]
      ensures seqNo == old(seqNo) + 1
      ensures r == if synced && written == |LineFor(old(State()), op)| then Some(seqNo) else None
      ensures prevHash == if r.Some? then RecordHash(NextRecord(old(State()), op)) else old(prevHash)
    {
      seqNo := seqNo + 1;
      var record := WalRecord(seqNo, prevHash, op);
      var hash := RecordHash(record);
      var line := Encode(record) + "\n";
      disk.log := disk.log + line[..written];
      if written < |line| || !synced { return None; }
      prevHash := hash;
      return Some(seqNo);
    }
  }
}
