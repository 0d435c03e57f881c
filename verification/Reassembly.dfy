/** Frames come out of a stream exactly as they went in, however the stream is cut into reads. */
module Reassembly {
  import opened Results
  import opened Framing

  // ---------- calling receive until the stream ends ----------

  function BytesOf(events: seq<ReadEvent>): seq<byte> {
    if events == [] then []
    else (if events[0].Data? then events[0].bytes else []) + BytesOf(events[1..])
  }

  /** All bytes not yet returned, received or not. */
  function Pending(p: Peer): seq<byte> {
    p.buf + BytesOf(p.events)
  }

  lemma {:induction false} ReceiveConsumes(p: Peer)
    ensures var (q, r) := Receive(p);
            match r
            case Ok(payload) => Pending(p) == Frame(payload) + Pending(q) && |payload| <= MAX_FRAME && |q.events| <= |p.events|
            case Err(Io) => Pending(q) == Pending(p) && |q.events| < |p.events|
            case Err(_) => Pending(q) == Pending(p) && |q.events| <= |p.events|
    decreases |p.events|
  {
    hide ParseFrame, Frame;
    if ParseFrame(p.buf).Ok? {
      ParsedIsFrame(p.buf);
      var n := ParseFrame(p.buf).value.1;
      assert Pending(p) == p.buf[..n] + (p.buf[n..] + BytesOf(p.events));
    } else if p.events != [] && p.events[0].Data? {
      var q := Peer(p.buf + p.events[0].bytes, p.events[1..]);
      PendingAfterRead(p);
      ReceiveConsumes(q);
    } else if p.events != [] {
      assert [] + BytesOf(p.events[1..]) == BytesOf(p.events);
    }
  }

  lemma PendingAfterRead(p: Peer)
    requires p.events != [] && p.events[0].Data?
    ensures Pending(Peer(p.buf + p.events[0].bytes, p.events[1..])) == Pending(p)
  {
  }

  /** The payloads that repeated calls return, going on after read errors and stopping at the end
      of the stream or at an oversized frame. */
  function Drain(p: Peer): seq<seq<byte>>
    decreases |Pending(p)| + |p.events|
  {
    ReceiveConsumes(p);
    var (q, r) := Receive(p);
    match r
    case Ok(payload) => [payload] + Drain(q)
    case Err(Io) => Drain(q)
    case Err(_) => []
  }

  function Frames(payloads: seq<seq<byte>>): seq<byte> {
    if payloads == [] then [] else Frame(payloads[0]) + Frames(payloads[1..])
  }

  // ---------- reassembly ----------

  predicate FitsFrames(payloads: seq<seq<byte>>) {
    forall i :: 0 <= i < |payloads| ==> |payloads[i]| <= MAX_FRAME
  }

  lemma {:induction false} ReceiveFirst(p: Peer, payloads: seq<seq<byte>>)
    requires FitsFrames(payloads) && Pending(p) == Frames(payloads)
    ensures var (q, r) := Receive(p);
            || r == Err(Io)
            || (payloads == [] && r == Err(ClosedMidFrame))
            || (payloads != [] && r == Ok(payloads[0]) && Pending(q) == Frames(payloads[1..]))
    decreases |p.events|
  {
    if payloads != [] {
      var rest := Frames(payloads[1..]);
      assert Frame(payloads[0]) + rest == Pending(p);
      assert p.buf == Pending(p)[..|p.buf|];
      ParsePrefix(payloads[0], rest, |p.buf|);
      if |p.buf| >= |Frame(payloads[0])| {
        assert Pending(p)[|Frame(payloads[0])|..] == p.buf[|Frame(payloads[0])|..] + BytesOf(p.events);
        assert Pending(p)[|Frame(payloads[0])|..] == rest;
      } else {
        assert p.events != [];
        ReceiveMore(p, payloads);
      }
    } else {
      assert p.buf == [];
      if p.events != [] { ReceiveMore(p, payloads); }
    }
  }

  /** Reading on when the buffer holds no complete frame yet. */
  lemma {:induction false} ReceiveMore(p: Peer, payloads: seq<seq<byte>>)
    requires FitsFrames(payloads) && Pending(p) == Frames(payloads)
    requires p.events != [] && ParseFrame(p.buf).Err?
    ensures var (q, r) := Receive(p);
            || r == Err(Io)
            || (payloads == [] && r == Err(ClosedMidFrame))
            || (payloads != [] && r == Ok(payloads[0]) && Pending(q) == Frames(payloads[1..]))
    decreases |p.events|, 0
  {
    if p.events[0].Data? {
      var q := Peer(p.buf + p.events[0].bytes, p.events[1..]);
      PendingAfterRead(p);
      if payloads != [] {
        assert q.buf == (Frame(payloads[0]) + Frames(payloads[1..]))[..|q.buf|];
        ParsePrefix(payloads[0], Frames(payloads[1..]), |q.buf|);
      }
      ReceiveFirst(q, payloads);
    }
  }

  /** Stream reassembly: for every list of payloads that fit a frame and every split of their
      frames into reads, with read errors anywhere in between, repeated receives return exactly
      those payloads in order. */
  lemma {:induction false} StreamReassembly(p: Peer, payloads: seq<seq<byte>>)
    requires FitsFrames(payloads) && Pending(p) == Frames(payloads)
    ensures Drain(p) == payloads
    decreases |Pending(p)| + |p.events|
  {
    ReceiveFirst(p, payloads);
    ReceiveConsumes(p);
    var (q, r) := Receive(p);
    match r
    case Ok(payload) =>
      StreamReassembly(q, payloads[1..]);
      assert payloads == [payloads[0]] + payloads[1..];
    case Err(Io) => StreamReassembly(q, payloads);
    case Err(_) =>
  }

  /** Whatever bytes arrive, the payloads returned are the frames the stream starts with. */
  lemma {:induction false} NothingInvented(p: Peer)
    ensures Frames(Drain(p)) <= Pending(p) && FitsFrames(Drain(p))
    decreases |Pending(p)| + |p.events|
  {
    ReceiveConsumes(p);
    var (q, r) := Receive(p);
    match r
    case Ok(payload) =>
      NothingInvented(q);
      assert Drain(p)[1..] == Drain(q);
      assert Frame(payload) + Frames(Drain(q)) <= Frame(payload) + Pending(q);
    case Err(Io) => NothingInvented(q);
    case Err(_) =>
  }

  // ---------- every answer ----------

  predicate IsOversized(buf: seq<byte>) {
    ParseFrame(buf).Err? && ParseFrame(buf).error.Oversized?
  }

  /** Bytes that parse to a payload or are oversized do so with anything behind them. */
  lemma ParseSettled(buf: seq<byte>, all: seq<byte>)
    requires buf <= all && (ParseFrame(buf).Ok? || IsOversized(buf))
    ensures ParseFrame(all) == ParseFrame(buf)
  {
    ParseAnswers(buf);
    ParseAnswers(all);
    assert |buf| >= 4 && all[..|buf|] == buf;
    assert all[0] == buf[0] && all[1] == buf[1] && all[2] == buf[2] && all[3] == buf[3];
    if ParseFrame(buf).Ok? {
      var n := ParseFrame(buf).value.1;
      assert all[4..n] == buf[4..n];
    }
  }

  /** What a receive answers depends on the bytes of the stream only, not on how they are cut into
      reads: the first payload, an oversized frame with its declared length, or, if they hold no
      complete frame, the end of the stream.  The only other answers are a failed read, and the
      end of the stream after an oversized frame was already reported. */
  lemma {:induction false} ReceiveAnswers(p: Peer)
    ensures var (q, r) := Receive(p);
            if r == Err(Io) then ReadFails in p.events
            else if IsOversized(p.buf) && p.events == [] then r == Err(ClosedMidFrame)
            else match ParseFrame(Pending(p))
                 case Ok((payload, n)) => r == Ok(payload)
                 case Err(Oversized(declared, limit)) => r == Err(BadFrame(Oversized(declared, limit)))
                 case Err(Incomplete(_, _)) => r == Err(ClosedMidFrame)
    decreases |p.events|
  {
    hide ParseFrame, Frame;
    if ParseFrame(p.buf).Ok? {
      ParseSettled(p.buf, Pending(p));
    } else if p.events == [] {
      assert Pending(p) == p.buf;
    } else if p.events[0].Data? {
      var q := Peer(p.buf + p.events[0].bytes, p.events[1..]);
      PendingAfterRead(p);
      if IsOversized(q.buf) {
        ParseSettled(q.buf, Pending(p));
      } else {
        ReceiveAnswers(q);
      }
    }
  }

  // ---------- memory ----------

  function Max(a: nat, b: nat): nat {
    if a < b then b else a
  }

  /** The greatest length the buffer has during one receive. */
  function PeakReceive(p: Peer): nat
    decreases |p.events|
  {
    if ParseFrame(p.buf).Ok? || p.events == [] || p.events[0].ReadFails? then |p.buf|
    else
      var q := Peer(p.buf + p.events[0].bytes, p.events[1..]);
      match ParseFrame(q.buf)
      case Err(Oversized(_, _)) => Max(|p.buf|, |q.buf|)
      case _ => Max(|p.buf|, PeakReceive(q))
  }

  /** The greatest length it has until the end of the stream or the first oversized frame. */
  function PeakDrain(p: Peer): nat
    decreases |Pending(p)| + |p.events|
  {
    ReceiveConsumes(p);
    var (q, r) := Receive(p);
    match r
    case Ok(_) => Max(PeakReceive(p), PeakDrain(q))
    case Err(Io) => Max(PeakReceive(p), PeakDrain(q))
    case Err(_) => PeakReceive(p)
  }

  /** The buffer after the first `k` events of a receive that reads on: they are data, and the
      bytes so far neither parse nor, once something was read, are oversized. */
  predicate ReadsOn(p: Peer, k: nat) {
    k <= |p.events| && forall j :: 0 <= j < k ==>
      var buf := p.buf + BytesOf(p.events[..j]);
      p.events[j].Data? && ParseFrame(buf).Err? && (j > 0 ==> !IsOversized(buf))
  }

  /** The peak of a receive is at least the length of every buffer that it has on the way. */
  lemma {:induction false} PeakCovers(p: Peer, k: nat)
    requires ReadsOn(p, k)
    ensures |p.buf + BytesOf(p.events[..k])| <= PeakReceive(p)
    decreases k
  {
    hide ParseFrame;
    if k == 0 {
      assert p.buf + BytesOf(p.events[..0]) == p.buf;
    } else {
      assert BytesOf(p.events[..0]) == [] && p.buf + [] == p.buf;
      var q := Peer(p.buf + p.events[0].bytes, p.events[1..]);
      forall j | 0 <= j < k
        ensures p.buf + BytesOf(p.events[..j + 1]) == q.buf + BytesOf(q.events[..j])
      {
        assert p.events[..j + 1][0] == p.events[0] && p.events[..j + 1][1..] == q.events[..j];
      }
      assert q.buf + BytesOf(q.events[..0]) == q.buf;
      if k > 1 {
        assert !IsOversized(p.buf + BytesOf(p.events[..1]));
        forall j | 0 <= j < k - 1
          ensures q.events[j].Data? && ParseFrame(q.buf + BytesOf(q.events[..j])).Err?
          ensures j > 0 ==> !IsOversized(q.buf + BytesOf(q.events[..j]))
        {
          assert p.events[j + 1] == q.events[j];
        }
        PeakCovers(q, k - 1);
      } else {
        PeakAtLeast(q);
      }
    }
  }

  lemma {:induction false} PeakAtLeast(p: Peer)
    ensures |p.buf| <= PeakReceive(p)
  {
  }

  /** The peak over repeated receives covers each of them. */
  lemma {:induction false} PeaksCover(p: Peer)
    ensures PeakReceive(p) <= PeakDrain(p)
    ensures var (q, r) := Receive(p); r.Ok? || r == Err(Io) ==> PeakDrain(q) <= PeakDrain(p)
  {
    hide Receive, PeakReceive;
    ReceiveConsumes(p);
  }

  /** Before a read the buffer is short: an incomplete frame, or the rest of one read. */
  predicate Short(buf: seq<byte>) {
    |buf| < READ_SIZE || (ParseFrame(buf).Err? && ParseFrame(buf).error.Incomplete?)
  }

  lemma {:induction false} ReceiveStaysShort(p: Peer)
    requires Short(p.buf)
    ensures PeakReceive(p) <= MAX_FRAME + READ_SIZE + 3
    ensures var (q, r) := Receive(p); r.Ok? || r == Err(Io) ==> Short(q.buf)
    decreases |p.events|
  {
    if ParseFrame(p.buf).Err? && p.events != [] && p.events[0].Data? {
      assert ValidEvent(p.events[0]);
      var q := Peer(p.buf + p.events[0].bytes, p.events[1..]);
      if ParseFrame(q.buf).Ok? {
        CompletedByRead(p.buf, p.events[0].bytes);
      } else if ParseFrame(q.buf).error.Incomplete? {
        ReceiveStaysShort(q);
      }
    }
  }

  /** A frame completed by a read leaves less than that read behind. */
  lemma CompletedByRead(buf: seq<byte>, more: seq<byte>)
    requires ParseFrame(buf).Err? && ParseFrame(buf + more).Ok?
    ensures |buf + more| - ParseFrame(buf + more).value.1 < |more|
  {
    if |buf| >= 4 {
      assert (buf + more)[0] == buf[0] && (buf + more)[1] == buf[1];
      assert (buf + more)[2] == buf[2] && (buf + more)[3] == buf[3];
    }
  }

  /** Bounded memory on every stream, hostile ones included: until the first oversized frame the
      buffer never holds more than `MAX_FRAME` + 8195 bytes. */
  lemma {:induction false} BufferBounded(p: Peer)
    requires Short(p.buf)
    ensures PeakDrain(p) <= MAX_FRAME + 8195
    decreases |Pending(p)| + |p.events|
  {
    ReceiveConsumes(p);
    ReceiveStaysShort(p);
    var (q, r) := Receive(p);
    match r
    case Ok(_) => BufferBounded(q);
    case Err(Io) => BufferBounded(q);
    case Err(_) =>
  }
}
