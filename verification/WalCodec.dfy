/** How log records become lines and back.  The log is proved correct for every codec with the
    properties below; serde_json's compact text, written out in WalJson, is one. */
module WalCodec {
  import opened Results
  import opened WalJson

  datatype Codec = Codec(
    opText: WalOp -> string,
    encode: WalRecord -> string,
    decode: string -> Option<WalRecord>)

  predicate DistinguishesOps(c: Codec, o: WalOp, p: WalOp) {
    c.opText(o) == c.opText(p) ==> o == p
  }

  predicate WritesOneLine(c: Codec, r: WalRecord) {
    OneLine(c.encode(r)) && c.encode(r) != "" && c.encode(r)[0] == '{'
  }

  predicate ReadsBack(c: Codec, r: WalRecord) {
    c.decode(c.encode(r)) == Some(r)
  }

  predicate RejectsTruncated(c: Codec, r: WalRecord, n: nat) {
    n < |c.encode(r)| ==> c.decode(c.encode(r)[..n]) == None
  }

  /** The first `n` characters of a record's text. */
  datatype Shard = Shard(record: WalRecord, n: nat)

  ghost predicate AreShards(c: Codec, shards: seq<Shard>) {
    forall i :: 0 <= i < |shards| ==> 0 < shards[i].n <= |c.encode(shards[i].record)|
  }

  /** Shards written one behind the other, with no line break in between. */
  ghost function Glue(c: Codec, shards: seq<Shard>): string
    requires AreShards(c, shards)
  {
    if shards == [] then ""
    else
      var last := shards[|shards| - 1];
      Glue(c, shards[..|shards| - 1]) + c.encode(last.record)[..last.n]
  }

  ghost predicate RejectsGlued(c: Codec, shards: seq<Shard>) {
    AreShards(c, shards) && |shards| >= 2 ==> c.decode(Glue(c, shards)) == None
  }

  /** What the log relies on: operation texts are distinct; a record is one line that starts
      with a brace; decoding undoes encoding, rejects every truncated record, and rejects any
      number of record texts, whole or truncated, glued together.  The decoder may accept
      further texts that the encoder never writes. */
  ghost predicate IsCodec(c: Codec) {
    && (forall o, p :: DistinguishesOps(c, o, p))
    && (forall r :: WritesOneLine(c, r))
    && (forall r :: ReadsBack(c, r))
    && (forall r, n :: RejectsTruncated(c, r, n))
    && (forall shards :: RejectsGlued(c, shards))
  }

  /** The strict decoder, which accepts exactly the encoder's texts. */
  function StrictDecode(s: string): Option<WalRecord> {
    match ReadRecord(s)
    case Some((r, rest)) => if RecordJson(r) == s then Some(r) else None
    case None => None
  }

  lemma {:induction false} StrictDecodeRejectsTruncated(r: WalRecord, n: nat)
    requires n < |RecordJson(r)|
    ensures StrictDecode(RecordJson(r)[..n]) == None
  {
    match StrictDecode(RecordJson(r)[..n])
    case Some(q) => RecordPrefixFree(q, r, n);
    case None =>
  }

  lemma {:induction false} StrictDecodeRejectsGlued(p: string, s: WalRecord, n: nat)
    requires p != "" && 0 < n <= |RecordJson(s)|
    ensures StrictDecode(p + RecordJson(s)[..n]) == None
  {
    match StrictDecode(p + RecordJson(s)[..n])
    case Some(q) => RecordNotGlued(p, s, n, q);
    case None =>
  }

  lemma {:induction false} GlueNotEmpty(c: Codec, shards: seq<Shard>)
    requires AreShards(c, shards) && shards != []
    ensures Glue(c, shards) != ""
  {
  }

  function JsonCodec(): (c: Codec)
    ensures IsCodec(c)
  {
    var c := Codec(OpJson, RecordJson, StrictDecode);
    assert IsCodec(c) by {
      forall o, p ensures DistinguishesOps(c, o, p) {
        if OpJson(o) == OpJson(p) { OpJsonInjective(o, p); }
      }
      forall r ensures WritesOneLine(c, r) { RecordOneLine(r); }
      forall r ensures ReadsBack(c, r) { ReadWrittenRecord(r, ""); }
      forall r, n: nat ensures RejectsTruncated(c, r, n) {
        if n < |RecordJson(r)| { StrictDecodeRejectsTruncated(r, n); }
      }
      forall shards: seq<Shard> ensures RejectsGlued(c, shards) {
        if AreShards(c, shards) && |shards| >= 2 {
          var front, last := shards[..|shards| - 1], shards[|shards| - 1];
          GlueNotEmpty(c, front);
          StrictDecodeRejectsGlued(Glue(c, front), last.record, last.n);
        }
      }
    }
    c
  }

  type LogCodec = c: Codec | IsCodec(c) witness JsonCodec()

  const codec: LogCodec

  function OpText(op: WalOp): string { codec.opText(op) }

  function Encode(r: WalRecord): (line: string)
    ensures OneLine(line) && line != "" && line[0] == '{'
  {
    assert WritesOneLine(codec, r);
    codec.encode(r)
  }

  function Decode(line: string): Option<WalRecord> { codec.decode(line) }

  lemma OpTextInjective(a: WalOp, b: WalOp)
    requires OpText(a) == OpText(b)
    ensures a == b
  {
    assert DistinguishesOps(codec, a, b);
  }

  lemma DecodeEncoded(r: WalRecord)
    ensures Decode(Encode(r)) == Some(r)
  {
    assert ReadsBack(codec, r);
  }

  lemma DecodeTruncated(r: WalRecord, n: nat)
    requires n < |Encode(r)|
    ensures Decode(Encode(r)[..n]) == None
  {
    assert RejectsTruncated(codec, r, n);
  }

  /** Some shards of one line of the log. */
  ghost predicate IsShards(shards: seq<Shard>) { AreShards(codec, shards) }

  ghost function Glued(shards: seq<Shard>): string
    requires IsShards(shards)
  {
    Glue(codec, shards)
  }

  lemma GluedSnoc(shards: seq<Shard>, r: WalRecord, n: nat)
    requires IsShards(shards) && 0 < n <= |Encode(r)|
    ensures IsShards(shards + [Shard(r, n)])
    ensures Glued(shards + [Shard(r, n)]) == Glued(shards) + Encode(r)[..n]
  {
    assert (shards + [Shard(r, n)])[..|shards|] == shards;
  }

  lemma DecodeGlued(shards: seq<Shard>)
    requires IsShards(shards) && |shards| >= 2
    ensures Decode(Glued(shards)) == None
  {
    assert RejectsGlued(codec, shards);
  }
}
