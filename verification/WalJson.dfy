/** The JSON text of a log record, in the compact form serde_json writes for the types of
    kai-os/state/src/wal.rs.  Every writer takes the text that follows, so that a reader of
    the same shape undoes it step by step. */
module WalJson {
  import opened Results
  import opened Decimal
  import opened StateStores

  datatype WalOp =
    | Apply(tx: Tx)
    | Checkpoint(height: nat, tipBlockHash: string, stateRoot: string)

  datatype WalRecord = WalRecord(seqNo: nat, prevHash: string, op: WalOp)

  // ---------- writing ----------

  function HexChar(d: nat): char
    requires d < 16
  {
    if d < 10 then '0' + d as char else 'a' + (d - 10) as char
  }

  function EscapeChar(c: char): string {
    if c == '\"' then "\\\""
    else if c == '\\' then "\\\\"
    else if c == '\n' then "\\n"
    else if c == '\r' then "\\r"
    else if c == '\t' then "\\t"
    else if c as int == 8 then "\\b"
    else if c as int == 12 then "\\f"
    else if (c as int) < 32 then "\\u00" + [HexChar(c as int / 16), HexChar(c as int % 16)]
    else [c]
  }

  /** The escapes of serde_json: characters print as themselves except quote, backslash and the
      control characters, five of which have a short form. */
  lemma {:induction false} EscapeMeaning(c: char)
    ensures EscapeChar(c) == [c] <==> (c as int) >= 32 && c != '\"' && c != '\\'
    ensures EscapeChar('\"') == "\\\"" && EscapeChar('\\') == "\\\\"
    ensures EscapeChar('\n') == "\\n" && EscapeChar('\r') == "\\r" && EscapeChar('\t') == "\\t"
    ensures EscapeChar(8 as char) == "\\b" && EscapeChar(12 as char) == "\\f"
    ensures EscapeChar(1 as char) == "\\u0001" && EscapeChar(11 as char) == "\\u000b" && EscapeChar(31 as char) == "\\u001f"
    ensures forall i :: 0 <= i < |EscapeChar(c)| ==> (EscapeChar(c)[i] as int) >= 32
  {
  }

  /** The escaped characters of `s`, the closing quote, then `rest`. */
  function WriteChars(s: string, rest: string): string {
    if s == [] then "\"" + rest else EscapeChar(s[0]) + WriteChars(s[1..], rest)
  }

  function WriteString(s: string, rest: string): string {
    "\"" + WriteChars(s, rest)
  }

  function WriteTx(tx: Tx, rest: string): string {
    match tx
    case SetTx(key, value) =>
      "{\"Set\":{\"key\":" + WriteString(key, ",\"value\":" + WriteString(value, "}}" + rest))
    case RemoveTx(key) =>
      "{\"Remove\":{\"key\":" + WriteString(key, "}}" + rest)
  }

  function WriteOp(op: WalOp, rest: string): string {
    match op
    case Apply(tx) =>
      "{\"Apply\":" + WriteTx(tx, "}" + rest)
    case Checkpoint(height, tip, root) =>
      "{\"Checkpoint\":{\"height\":" + (Show(height) +
        (",\"tip_block_hash\":" + WriteString(tip, ",\"state_root\":" + WriteString(root, "}}" + rest))))
  }

  function WriteRecord(r: WalRecord, rest: string): string {
    "{\"seq\":" + (Show(r.seqNo) +
      (",\"prev_hash\":" + WriteString(r.prevHash, ",\"op\":" + WriteOp(r.op, "}" + rest))))
  }

  /** `serde_json::to_string` of an operation and of a record. */
  function OpJson(op: WalOp): string { WriteOp(op, "") }

  function RecordJson(r: WalRecord): string { WriteRecord(r, "") }

  // ---------- reading back ----------

  function Expect(lit: string, s: string): Option<string> {
    if lit <= s then Some(s[|lit|..]) else None
  }

  function HexValue(c: char): Option<nat> {
    if '0' <= c <= '9' then Some(c as int - '0' as int)
    else if 'a' <= c <= 'f' then Some(c as int - 'a' as int + 10)
    else None
  }

  /** Reads one character that was written by `EscapeChar`. */
  function ReadChar(s: string): (r: Option<(char, string)>)
    ensures r.Some? ==> |r.value.1| < |s|
  {
    if s == [] then None
    else if s[0] != '\\' then Some((s[0], s[1..]))
    else if |s| < 2 then None
    else if s[1] == '\"' then Some(('\"', s[2..]))
    else if s[1] == '\\' then Some(('\\', s[2..]))
    else if s[1] == 'n' then Some(('\n', s[2..]))
    else if s[1] == 'r' then Some(('\r', s[2..]))
    else if s[1] == 't' then Some(('\t', s[2..]))
    else if s[1] == 'b' then Some((8 as char, s[2..]))
    else if s[1] == 'f' then Some((12 as char, s[2..]))
    else if |s| < 6 || s[1] != 'u' then None
    else match (HexValue(s[4]), HexValue(s[5]))
      case (Some(h), Some(l)) => Some(((16 * h + l) as char, s[6..]))
      case _ => None
  }

  function ReadChars(s: string): Option<(string, string)>
    decreases |s|
  {
    if s == [] then None
    else if s[0] == '\"' then Some(("", s[1..]))
    else
      var (c, more) :- ReadChar(s);
      var (cs, rest) :- ReadChars(more);
      Some(([c] + cs, rest))
  }

  function ReadString(s: string): Option<(string, string)> {
    var t :- Expect("\"", s);
    ReadChars(t)
  }

  function ReadNat(s: string): Option<(nat, string)> {
    var n := DigitSpan(s);
    if n == 0 then None else Some((Value(s[..n]), s[n..]))
  }

  function ReadTx(s: string): Option<(Tx, string)> {
    match Expect("{\"Set\":{\"key\":", s)
    case Some(t) =>
      var (key, t) :- ReadString(t);
      var t :- Expect(",\"value\":", t);
      var (value, t) :- ReadString(t);
      var t :- Expect("}}", t);
      Some((SetTx(key, value), t))
    case None =>
      var t :- Expect("{\"Remove\":{\"key\":", s);
      var (key, t) :- ReadString(t);
      var t :- Expect("}}", t);
      Some((RemoveTx(key), t))
  }

  function ReadOp(s: string): Option<(WalOp, string)> {
    match Expect("{\"Apply\":", s)
    case Some(t) =>
      var (tx, t) :- ReadTx(t);
      var t :- Expect("}", t);
      Some((Apply(tx), t))
    case None =>
      var t :- Expect("{\"Checkpoint\":{\"height\":", s);
      var (height, t) :- ReadNat(t);
      var t :- Expect(",\"tip_block_hash\":", t);
      var (tip, t) :- ReadString(t);
      var t :- Expect(",\"state_root\":", t);
      var (root, t) :- ReadString(t);
      var t :- Expect("}}", t);
      Some((Checkpoint(height, tip, root), t))
  }

  function ReadRecord(s: string): Option<(WalRecord, string)> {
    var t :- Expect("{\"seq\":", s);
    var (seqNo, t) :- ReadNat(t);
    var t :- Expect(",\"prev_hash\":", t);
    var (prevHash, t) :- ReadString(t);
    var t :- Expect(",\"op\":", t);
    var (op, t) :- ReadOp(t);
    var t :- Expect("}", t);
    Some((WalRecord(seqNo, prevHash, op), t))
  }

  // ---------- the text, spelled out ----------

  predicate IsPlain(s: string) {
    forall i :: 0 <= i < |s| ==> (s[i] as int) >= 32 && s[i] != '\"' && s[i] != '\\'
  }

  function Quoted(s: string): string { "\"" + s + "\"" }

  lemma {:induction false} PlainChars(s: string, rest: string)
    requires IsPlain(s)
    ensures WriteChars(s, rest) == s + ("\"" + rest)
  {
    if s == [] {
      assert [] + ("\"" + rest) == "\"" + rest;
    } else {
      PlainChars(s[1..], rest);
      EscapeMeaning(s[0]);
      assert [s[0]] + (s[1..] + ("\"" + rest)) == s + ("\"" + rest);
    }
  }

  lemma PlainString(s: string, rest: string)
    requires IsPlain(s)
    ensures WriteString(s, rest) == Quoted(s) + rest
  {
    PlainChars(s, rest);
    assert "\"" + (s + ("\"" + rest)) == "\"" + s + "\"" + rest;
  }

  /** The texts of operations on strings without escapes, as serde_json writes them. */
  lemma {:induction false} OpTextMeaning(key: string, value: string, n: nat)
    requires IsPlain(key) && IsPlain(value)
    ensures OpJson(Apply(SetTx(key, value)))
         == "{\"Apply\":" + ("{\"Set\":{\"key\":" + (Quoted(key) + (",\"value\":" + (Quoted(value) + ("}}" + "}")))))
    ensures OpJson(Apply(RemoveTx(key))) == "{\"Apply\":" + ("{\"Remove\":{\"key\":" + (Quoted(key) + ("}}" + "}")))
    ensures OpJson(Checkpoint(n, key, value))
         == "{\"Checkpoint\":{\"height\":" + (Show(n) + (",\"tip_block_hash\":" + (Quoted(key)
              + (",\"state_root\":" + (Quoted(value) + "}}")))))
  {
    hide WriteString;
    assert "}" + "" == "}" && "}}" + "" == "}}";
    PlainString(value, "}}" + "}");
    PlainString(key, ",\"value\":" + (Quoted(value) + ("}}" + "}")));
    PlainString(key, "}}" + "}");
    PlainString(value, "}}");
    PlainString(key, ",\"state_root\":" + (Quoted(value) + "}}"));
  }

  lemma {:induction false} RecordTextMeaning(r: WalRecord)
    requires IsPlain(r.prevHash)
    ensures RecordJson(r)
         == "{\"seq\":" + (Show(r.seqNo) + (",\"prev_hash\":" + (Quoted(r.prevHash) + (",\"op\":" + (OpJson(r.op) + "}")))))
  {
    hide WriteString;
    assert "}" + "" == "}" && "" + "}" == "}";
    OpThen(r.op, "", "}");
    PlainString(r.prevHash, ",\"op\":" + (OpJson(r.op) + "}"));
  }

  // ---------- reading undoes writing ----------

  lemma ExpectWritten(lit: string, rest: string)
    ensures Expect(lit, lit + rest) == Some(rest)
  {
  }

  lemma ReadWrittenNat(n: nat, rest: string)
    requires rest == [] || !IsDigit(rest[0])
    ensures ReadNat(Show(n) + rest) == Some((n, rest))
  {
    SpanOfShow(n, rest);
    ValueOfShow(n);
    assert (Show(n) + rest)[..|Show(n)|] == Show(n);
  }

  lemma ReadWrittenChar(c: char, rest: string)
    ensures EscapeChar(c)[0] != '\"'
    ensures ReadChar(EscapeChar(c) + rest) == Some((c, rest))
  {
    var e := EscapeChar(c);
    assert (e + rest)[|e|..] == rest;
    if (c as int) < 32 && |e| == 6 {
      var h, l := c as int / 16, c as int % 16;
      assert e[4] == HexChar(h) && e[5] == HexChar(l);
      assert HexValue(e[4]) == Some(h) && HexValue(e[5]) == Some(l);
    }
  }

  lemma {:induction false} ReadWrittenChars(s: string, rest: string)
    ensures ReadChars(WriteChars(s, rest)) == Some((s, rest))
  {
    if s != [] {
      ReadWrittenChars(s[1..], rest);
      ReadWrittenChar(s[0], WriteChars(s[1..], rest));
      assert [s[0]] + s[1..] == s;
    }
  }

  lemma ReadWrittenString(s: string, rest: string)
    ensures ReadString(WriteString(s, rest)) == Some((s, rest))
  {
    ReadWrittenChars(s, rest);
    ExpectWritten("\"", WriteChars(s, rest));
  }

  lemma ReadWrittenTx(tx: Tx, rest: string)
    ensures ReadTx(WriteTx(tx, rest)) == Some((tx, rest))
  {
    match tx
    case SetTx(key, value) =>
      var t2 := WriteString(value, "}}" + rest);
      var t1 := WriteString(key, ",\"value\":" + t2);
      ExpectWritten("{\"Set\":{\"key\":", t1);
      ReadWrittenString(key, ",\"value\":" + t2);
      ExpectWritten(",\"value\":", t2);
      ReadWrittenString(value, "}}" + rest);
      ExpectWritten("}}", rest);
    case RemoveTx(key) =>
      var t1 := WriteString(key, "}}" + rest);
      assert WriteTx(tx, rest)[2] == 'R';
      ExpectWritten("{\"Remove\":{\"key\":", t1);
      ReadWrittenString(key, "}}" + rest);
      ExpectWritten("}}", rest);
  }

  lemma ReadWrittenOp(op: WalOp, rest: string)
    ensures ReadOp(WriteOp(op, rest)) == Some((op, rest))
  {
    match op
    case Apply(tx) =>
      ExpectWritten("{\"Apply\":", WriteTx(tx, "}" + rest));
      ReadWrittenTx(tx, "}" + rest);
      ExpectWritten("}", rest);
    case Checkpoint(height, tip, root) =>
      var t4 := WriteString(root, "}}" + rest);
      var t3 := WriteString(tip, ",\"state_root\":" + t4);
      var t2 := ",\"tip_block_hash\":" + t3;
      var t1 := Show(height) + t2;
      assert WriteOp(op, rest)[2] == 'C';
      ExpectWritten("{\"Checkpoint\":{\"height\":", t1);
      ReadWrittenNat(height, t2);
      ExpectWritten(",\"tip_block_hash\":", t3);
      ReadWrittenString(tip, ",\"state_root\":" + t4);
      ExpectWritten(",\"state_root\":", t4);
      ReadWrittenString(root, "}}" + rest);
      ExpectWritten("}}", rest);
  }

  lemma {:induction false} ReadWrittenRecord(r: WalRecord, rest: string)
    ensures ReadRecord(WriteRecord(r, rest)) == Some((r, rest))
  {
    var t4 := WriteOp(r.op, "}" + rest);
    var t3 := WriteString(r.prevHash, ",\"op\":" + t4);
    var t2 := ",\"prev_hash\":" + t3;
    ExpectWritten("{\"seq\":", Show(r.seqNo) + t2);
    ReadWrittenNat(r.seqNo, t2);
    ExpectWritten(",\"prev_hash\":", t3);
    ReadWrittenString(r.prevHash, ",\"op\":" + t4);
    ExpectWritten(",\"op\":", t4);
    ReadWrittenOp(r.op, "}" + rest);
    ExpectWritten("}", rest);
  }

  lemma {:induction false} OpJsonInjective(a: WalOp, b: WalOp)
    requires OpJson(a) == OpJson(b)
    ensures a == b
  {
    ReadWrittenOp(a, "");
    ReadWrittenOp(b, "");
  }

  // ---------- one line per record ----------

  predicate OneLine(s: string) {
    '\n' !in s && '\r' !in s
  }

  lemma {:induction false} CharsOneLine(s: string, rest: string)
    requires OneLine(rest)
    ensures OneLine(WriteChars(s, rest))
  {
    if s != [] { CharsOneLine(s[1..], rest); }
  }

  lemma TxOneLine(tx: Tx, rest: string)
    requires OneLine(rest)
    ensures OneLine(WriteTx(tx, rest))
  {
    match tx
    case SetTx(key, value) =>
      CharsOneLine(value, "}}" + rest);
      CharsOneLine(key, ",\"value\":" + WriteString(value, "}}" + rest));
    case RemoveTx(key) =>
      CharsOneLine(key, "}}" + rest);
  }

  lemma NumberOneLine(n: nat)
    ensures OneLine(Show(n))
  {
  }

  lemma Join(a: string, b: string)
    requires OneLine(a) && OneLine(b)
    ensures OneLine(a + b)
  {
  }

  lemma TwoStringsOneLine(tip: string, root: string, rest: string)
    requires OneLine(rest)
    ensures OneLine(WriteString(tip, ",\"state_root\":" + WriteString(root, "}}" + rest)))
  {
    var t4 := WriteString(root, "}}" + rest);
    CharsOneLine(root, "}}" + rest);
    Join(",\"state_root\":", t4);
    CharsOneLine(tip, ",\"state_root\":" + t4);
  }

  lemma {:induction false} OpOneLine(op: WalOp, rest: string)
    requires OneLine(rest)
    ensures OneLine(WriteOp(op, rest))
  {
    match op
    case Apply(tx) =>
      TxOneLine(tx, "}" + rest);
    case Checkpoint(height, tip, root) =>
      TwoStringsOneLine(tip, root, rest);
      var t := WriteString(tip, ",\"state_root\":" + WriteString(root, "}}" + rest));
      NumberOneLine(height);
      HeadOneLine(height, t);
  }

  lemma HeadOneLine(height: nat, t: string)
    requires OneLine(t)
    ensures OneLine("{\"Checkpoint\":{\"height\":" + (Show(height) + (",\"tip_block_hash\":" + t)))
  {
    Join(",\"tip_block_hash\":", t);
    NumberOneLine(height);
    Join(Show(height), ",\"tip_block_hash\":" + t);
    Join("{\"Checkpoint\":{\"height\":", Show(height) + (",\"tip_block_hash\":" + t));
  }

  lemma {:induction false} RecordOneLine(r: WalRecord)
    ensures OneLine(RecordJson(r))
  {
    var t4 := WriteOp(r.op, "}");
    var t3 := WriteString(r.prevHash, ",\"op\":" + t4);
    OpOneLine(r.op, "}");
    Join(",\"op\":", t4);
    CharsOneLine(r.prevHash, ",\"op\":" + t4);
    Join(",\"prev_hash\":", t3);
    NumberOneLine(r.seqNo);
    Join(Show(r.seqNo), ",\"prev_hash\":" + t3);
    Join("{\"seq\":", Show(r.seqNo) + (",\"prev_hash\":" + t3));
    assert "}" + "" == "}";
  }

  // ---------- what follows is only appended ----------

  lemma {:induction false} CharsThen(s: string, a: string, b: string)
    ensures WriteChars(s, a) + b == WriteChars(s, a + b)
  {
    if s == [] {
      assert "\"" + a + b == "\"" + (a + b);
    } else {
      CharsThen(s[1..], a, b);
      assert EscapeChar(s[0]) + WriteChars(s[1..], a) + b == EscapeChar(s[0]) + (WriteChars(s[1..], a) + b);
    }
  }

  lemma StringThen(s: string, a: string, b: string)
    ensures WriteString(s, a) + b == WriteString(s, a + b)
  {
    CharsThen(s, a, b);
    assert "\"" + WriteChars(s, a) + b == "\"" + (WriteChars(s, a) + b);
  }

  lemma Reassociate(a: string, b: string, c: string)
    ensures (a + b) + c == a + (b + c)
  {
  }

  lemma TxThen(tx: Tx, a: string, b: string)
    ensures WriteTx(tx, a) + b == WriteTx(tx, a + b)
  {
    Reassociate("}}", a, b);
    match tx
    case SetTx(key, value) =>
      var v := WriteString(value, "}}" + a);
      StringThen(value, "}}" + a, b);
      StringThen(key, ",\"value\":" + v, b);
      Reassociate(",\"value\":", v, b);
      Reassociate("{\"Set\":{\"key\":", WriteString(key, ",\"value\":" + v), b);
    case RemoveTx(key) =>
      StringThen(key, "}}" + a, b);
      Reassociate("{\"Remove\":{\"key\":", WriteString(key, "}}" + a), b);
  }

  lemma OpThen(op: WalOp, a: string, b: string)
    ensures WriteOp(op, a) + b == WriteOp(op, a + b)
  {
    match op
    case Apply(tx) =>
      Reassociate("}", a, b);
      TxThen(tx, "}" + a, b);
      Reassociate("{\"Apply\":", WriteTx(tx, "}" + a), b);
    case Checkpoint(height, tip, root) =>
      Reassociate("}}", a, b);
      var t4 := WriteString(root, "}}" + a);
      var t3 := WriteString(tip, ",\"state_root\":" + t4);
      var t2 := ",\"tip_block_hash\":" + t3;
      StringThen(root, "}}" + a, b);
      Reassociate(",\"state_root\":", t4, b);
      StringThen(tip, ",\"state_root\":" + t4, b);
      Reassociate(",\"tip_block_hash\":", t3, b);
      Reassociate(Show(height), t2, b);
      Reassociate("{\"Checkpoint\":{\"height\":", Show(height) + t2, b);
  }

  lemma {:induction false} RecordThen(r: WalRecord, a: string, b: string)
    ensures WriteRecord(r, a) + b == WriteRecord(r, a + b)
  {
    var t4 := WriteOp(r.op, "}" + a);
    var t3 := WriteString(r.prevHash, ",\"op\":" + t4);
    var t2 := ",\"prev_hash\":" + t3;
    Reassociate("}", a, b);
    OpThen(r.op, "}" + a, b);
    Reassociate(",\"op\":", t4, b);
    StringThen(r.prevHash, ",\"op\":" + t4, b);
    Reassociate(",\"prev_hash\":", t3, b);
    Reassociate(Show(r.seqNo), t2, b);
    Reassociate("{\"seq\":", Show(r.seqNo) + t2, b);
  }

  /** No record text is a proper prefix of another. */
  lemma {:induction false} RecordPrefixFree(r: WalRecord, s: WalRecord, n: nat)
    requires n < |RecordJson(s)|
    ensures RecordJson(s)[..n] != RecordJson(r)
  {
    if RecordJson(s)[..n] == RecordJson(r) {
      var tail := RecordJson(s)[n..];
      assert RecordJson(s) == RecordJson(r) + tail && "" + tail == tail;
      ReadWrittenRecord(s, "");
      ReadWrittenRecord(r, tail);
      RecordThen(r, "", tail);
    }
  }

  // ---------- a record text starts only at the start ----------

  /** The first three characters of every record text, found at position `i` of `x`. */
  predicate StartsRecordAt(x: string, i: nat) {
    i + 2 < |x| && x[i] == '{' && x[i + 1] == '\"' && x[i + 2] == 's'
  }

  ghost predicate StartsNone(x: string) {
    forall i: nat :: !StartsRecordAt(x, i)
  }

  lemma StartsNoneThen(a: string, x: string)
    requires StartsNone(a) && StartsNone(x)
    requires a != [] && a[|a| - 1] != '{' && a[|a| - 1] != '\"'
    ensures StartsNone(a + x)
  {
    forall i: nat
      ensures !StartsRecordAt(a + x, i)
    {
      if i + 2 < |a| {
        assert !StartsRecordAt(a, i);
      } else if i >= |a| {
        assert !StartsRecordAt(x, i - |a|);
      }
    }
  }

  lemma {:induction false} CharsStartNone(s: string, rest: string)
    requires StartsNone(rest) && (rest == [] || rest[0] != 's')
    ensures StartsNone(WriteChars(s, rest))
    ensures var w := WriteChars(s, rest); !(|w| > 1 && w[0] == '\"' && w[1] == 's')
  {
    var w := WriteChars(s, rest);
    var head, tail := if s == [] then "\"" else EscapeChar(s[0]), if s == [] then rest else WriteChars(s[1..], rest);
    assert w == head + tail;
    if s != [] { CharsStartNone(s[1..], rest); }
    forall i: nat
      ensures !StartsRecordAt(w, i)
    {
      if i >= |head| { assert !StartsRecordAt(tail, i - |head|); }
    }
  }

  lemma StringStartsNone(s: string, rest: string)
    requires StartsNone(rest) && (rest == [] || rest[0] != 's')
    ensures StartsNone(WriteString(s, rest))
  {
    CharsStartNone(s, rest);
    forall i: nat
      ensures !StartsRecordAt(WriteString(s, rest), i)
    {
      if i > 0 { assert !StartsRecordAt(WriteChars(s, rest), i - 1); }
    }
  }

  lemma TxStartsNone(tx: Tx, rest: string)
    requires StartsNone(rest)
    ensures StartsNone(WriteTx(tx, rest))
  {
    StartsNoneThen("}}", rest);
    match tx
    case SetTx(key, value) =>
      var v := WriteString(value, "}}" + rest);
      StringStartsNone(value, "}}" + rest);
      StartsNoneThen(",\"value\":", v);
      StringStartsNone(key, ",\"value\":" + v);
      StartsNoneThen("{\"Set\":{\"key\":", WriteString(key, ",\"value\":" + v));
    case RemoveTx(key) =>
      StringStartsNone(key, "}}" + rest);
      StartsNoneThen("{\"Remove\":{\"key\":", WriteString(key, "}}" + rest));
  }

  lemma CheckpointStartsNone(height: nat, tip: string, root: string, rest: string)
    requires StartsNone(rest)
    ensures StartsNone(WriteOp(Checkpoint(height, tip, root), rest))
  {
    StartsNoneThen("}}", rest);
    var t4 := WriteString(root, "}}" + rest);
    var t3 := WriteString(tip, ",\"state_root\":" + t4);
    var t2 := ",\"tip_block_hash\":" + t3;
    StringStartsNone(root, "}}" + rest);
    StartsNoneThen(",\"state_root\":", t4);
    StringStartsNone(tip, ",\"state_root\":" + t4);
    StartsNoneThen(",\"tip_block_hash\":", t3);
    StartsNoneThen(Show(height), t2);
    StartsNoneThen("{\"Checkpoint\":{\"height\":", Show(height) + t2);
  }

  lemma {:induction false} OpStartsNone(op: WalOp, rest: string)
    requires StartsNone(rest)
    ensures StartsNone(WriteOp(op, rest))
  {
    match op
    case Apply(tx) =>
      StartsNoneThen("}", rest);
      TxStartsNone(tx, "}" + rest);
      StartsNoneThen("{\"Apply\":", WriteTx(tx, "}" + rest));
    case Checkpoint(height, tip, root) =>
      CheckpointStartsNone(height, tip, root, rest);
  }

  lemma {:induction false} RecordTailStartsNone(r: WalRecord)
    ensures StartsNone(Show(r.seqNo) + (",\"prev_hash\":" + WriteString(r.prevHash, ",\"op\":" + WriteOp(r.op, "}"))))
  {
    var t4 := WriteOp(r.op, "}");
    var t3 := WriteString(r.prevHash, ",\"op\":" + t4);
    OpStartsNone(r.op, "}");
    StartsNoneThen(",\"op\":", t4);
    StringStartsNone(r.prevHash, ",\"op\":" + t4);
    StartsNoneThen(",\"prev_hash\":", t3);
    StartsNoneThen(Show(r.seqNo), ",\"prev_hash\":" + t3);
  }

  lemma {:induction false} RecordStartsOnce(r: WalRecord, i: nat)
    requires i > 0
    ensures !StartsRecordAt(RecordJson(r), i)
  {
    var t := Show(r.seqNo) + (",\"prev_hash\":" + WriteString(r.prevHash, ",\"op\":" + WriteOp(r.op, "}")));
    RecordTailStartsNone(r);
    StartsNoneThen("\"seq\":", t);
    assert "}" + "" == "}";
    assert RecordJson(r) == "{" + ("\"seq\":" + t);
    assert !StartsRecordAt("\"seq\":" + t, i - 1);
  }

  lemma {:induction false} RecordEnds(r: WalRecord)
    ensures RecordJson(r) != "" && RecordJson(r)[|RecordJson(r)| - 1] == '}'
  {
    var t4 := WriteOp(r.op, "");
    var t3 := WriteString(r.prevHash, ",\"op\":" + t4);
    OpThen(r.op, "", "}");
    Reassociate(",\"op\":", t4, "}");
    StringThen(r.prevHash, ",\"op\":" + t4, "}");
    assert "}" + "" == "}" && "" + "}" == "}";
    assert RecordJson(r) == "{\"seq\":" + (Show(r.seqNo) + (",\"prev_hash\":" + (t3 + "}")));
  }

  lemma RecordHead(r: WalRecord)
    ensures var x := RecordJson(r); |x| > 2 && x[0] == '{' && x[1] == '\"' && x[2] == 's'
  {
    assert RecordJson(r)[..3] == "{\"s";
  }

  /** No record text ends with the beginning of a record text behind other characters. */
  lemma {:induction false} RecordNotGlued(p: string, s: WalRecord, n: nat, t: WalRecord)
    requires p != "" && 0 < n <= |RecordJson(s)|
    ensures p + RecordJson(s)[..n] != RecordJson(t)
  {
    hide RecordJson;
    var x, glued := RecordJson(s), p + RecordJson(s)[..n];
    RecordHead(s);
    RecordEnds(t);
    RecordStartsOnce(t, |p|);
    if n < 3 {
      assert glued[|glued| - 1] == x[n - 1];
    } else {
      assert glued[|p|] == x[0] && glued[|p| + 1] == x[1] && glued[|p| + 2] == x[2];
      assert StartsRecordAt(glued, |p|);
    }
  }
}
