/** Length-prefix framing (kai-os/network/src/transport.rs) and its reassembly from a byte stream
    (kai-os/network/src/tcp.rs). */
module Framing {
  import opened Results

  type byte = b: nat | b < 256

  const MAX_FRAME := 4 * 1024 * 1024
  const READ_SIZE := 8192
  const TWO_TO_THE_32 := 0x1_0000_0000

  datatype TransportError =
    | Incomplete(expected: nat, available: nat)
    | Oversized(declared: nat, limit: nat)

  // ---------- frames ----------

  /** `to_be_bytes` and `from_be_bytes`. */
  function ToBytes(n: nat): (bytes: seq<byte>)
    requires n < TWO_TO_THE_32
    ensures |bytes| == 4
  {
    var high := n / 256;
    var higher := high / 256;
    [higher / 256, higher % 256, high % 256, n % 256]
  }

  function FromBytes(a: byte, b: byte, c: byte, d: byte): (n: nat)
    ensures n < TWO_TO_THE_32
  {
    ((a * 256 + b) * 256 + c) * 256 + d
  }

  /** The length is cast to 32 bits. */
  function Frame(payload: seq<byte>): seq<byte> {
    ToBytes(|payload| % TWO_TO_THE_32) + payload
  }

  function ParseFrame(buf: seq<byte>): (r: Result<(seq<byte>, nat), TransportError>)
    ensures r.Ok? ==> 4 <= r.value.1 <= |buf| && r.value.1 <= 4 + MAX_FRAME
  {
    if |buf| < 4 then Err(Incomplete(4, |buf|))
    else
      var declared := FromBytes(buf[0], buf[1], buf[2], buf[3]);
      if declared > MAX_FRAME then Err(Oversized(declared, MAX_FRAME))
      else if |buf| - 4 < declared then Err(Incomplete(4 + declared, |buf|))
      else Ok((buf[4..4 + declared], 4 + declared))
  }

  method BuildFrame(payload: seq<byte>) returns (out: seq<byte>)
    ensures out == Frame(payload)
  {
    var len := |payload| % TWO_TO_THE_32;
    out := [];
    out := out + ToBytes(len);
    out := out + payload;
  }

  lemma LastDigit(x: nat, d: byte)
    ensures (x * 256 + d) / 256 == x && (x * 256 + d) % 256 == d
  {
  }

  lemma ToThenFrom(n: nat)
    requires n < TWO_TO_THE_32
    ensures var s := ToBytes(n); FromBytes(s[0], s[1], s[2], s[3]) == n
  {
  }

  lemma FromThenTo(a: byte, b: byte, c: byte, d: byte)
    ensures ToBytes(FromBytes(a, b, c, d)) == [a, b, c, d]
  {
    LastDigit(a, b);
    LastDigit(a * 256 + b, c);
    LastDigit((a * 256 + b) * 256 + c, d);
  }

  /** Big-endian: the first byte weighs most. */
  lemma {:induction false} BigEndian(n: nat, a: byte, b: byte, c: byte, d: byte)
    requires n < TWO_TO_THE_32
    ensures ToBytes(n) == [a, b, c, d] <==> n == a * 16777216 + b * 65536 + c * 256 + d
    ensures FromBytes(a, b, c, d) == a * 16777216 + b * 65536 + c * 256 + d
  {
    FromThenTo(a, b, c, d);
    var s := ToBytes(n);
    ToThenFrom(n);
    assert s == [s[0], s[1], s[2], s[3]];
    assert ((a * 256 + b) * 256 + c) * 256 + d == a * 16777216 + b * 65536 + c * 256 + d;
  }

  /** The length that the first four bytes declare. */
  function Declared(buf: seq<byte>): nat
    requires |buf| >= 4
  {
    var a: nat, b: nat, c: nat, d: nat := buf[0], buf[1], buf[2], buf[3];
    a * 16777216 + b * 65536 + c * 256 + d
  }

  /** Every answer of the parser, with the condition on the bytes under which it is given. */
  lemma {:induction false} ParseAnswers(buf: seq<byte>)
    ensures var r := ParseFrame(buf);
            && (r == Err(Incomplete(4, |buf|)) <==> |buf| < 4)
            && (|buf| >= 4 ==>
                  var n := Declared(buf);
                  && (r == Err(Oversized(n, 4194304)) <==> n > 4194304)
                  && (r == Err(Incomplete(n + 4, |buf|)) <==> n <= 4194304 && |buf| < n + 4)
                  && (r.Ok? <==> n <= 4194304 && |buf| >= n + 4)
                  && (r.Ok? ==> r.value == (buf[4..n + 4], n + 4)))
  {
    hide FromBytes;
    if |buf| >= 4 { BigEndian(0, buf[0], buf[1], buf[2], buf[3]); }
  }

  /** A frame and anything behind it parse to the payload; any part of a frame is incomplete. */
  lemma {:induction false} ParsePrefix(payload: seq<byte>, rest: seq<byte>, n: nat)
    requires |payload| <= MAX_FRAME && n <= |Frame(payload) + rest|
    ensures var buf := (Frame(payload) + rest)[..n];
            if n >= |Frame(payload)| then ParseFrame(buf) == Ok((payload, |Frame(payload)|))
            else ParseFrame(buf).Err? && ParseFrame(buf).error.Incomplete?
  {
    hide ToBytes, FromBytes;
    var all, head := Frame(payload) + rest, ToBytes(|payload|);
    ToThenFrom(|payload|);
    if n >= 4 {
      assert all[..n][0] == head[0] && all[..n][1] == head[1] && all[..n][2] == head[2] && all[..n][3] == head[3];
      if n >= |Frame(payload)| {
        assert all[..n][4..4 + |payload|] == payload;
      }
    }
  }

  /** A frame round-trips exactly if its payload is no longer than `MAX_FRAME`.  A longer one is
      refused, or, from 2^32 bytes on, cut to the length that its truncated prefix declares. */
  lemma {:induction false} FrameRoundTripIff(payload: seq<byte>)
    ensures ParseFrame(Frame(payload)) == Ok((payload, |Frame(payload)|)) <==> |payload| <= MAX_FRAME
    ensures var declared := |payload| % TWO_TO_THE_32;
            declared > MAX_FRAME ==> ParseFrame(Frame(payload)) == Err(Oversized(declared, MAX_FRAME))
    ensures var declared := |payload| % TWO_TO_THE_32;
            declared <= MAX_FRAME ==> ParseFrame(Frame(payload)) == Ok((payload[..declared], 4 + declared))
  {
    hide ToBytes, FromBytes;
    var declared := |payload| % TWO_TO_THE_32;
    ToThenFrom(declared);
    var f := Frame(payload);
    assert f[..4] == ToBytes(declared);
    assert f[0] == f[..4][0] && f[1] == f[..4][1] && f[2] == f[..4][2] && f[3] == f[..4][3];
    if declared <= MAX_FRAME {
      assert f[4..4 + declared] == payload[..declared];
    }
    if |payload| <= MAX_FRAME { assert payload[..|payload|] == payload; }
  }

  /** What was consumed is the frame of what was returned. */
  lemma {:induction false} ParsedIsFrame(buf: seq<byte>)
    requires ParseFrame(buf).Ok?
    ensures var (payload, n) := ParseFrame(buf).value; buf[..n] == Frame(payload) && |payload| <= MAX_FRAME
  {
    hide ToBytes, FromBytes;
    FromThenTo(buf[0], buf[1], buf[2], buf[3]);
    var (payload, n) := ParseFrame(buf).value;
    assert |payload| < TWO_TO_THE_32;
    assert buf[..n] == [buf[0], buf[1], buf[2], buf[3]] + payload;
  }

  // ---------- receiving ----------

  /** What one read of the socket yields: some bytes, or an error such as a timeout.  A stream
      without further events has been closed by the peer. */
  datatype ReadEvent = Data(bytes: seq<byte>) | ReadFails

  predicate ValidEvent(e: ReadEvent) {
    e.Data? ==> 1 <= |e.bytes| <= READ_SIZE
  }

  type Stream = events: seq<ReadEvent> | forall i :: 0 <= i < |events| ==> ValidEvent(events[i]) witness []

  datatype TcpError = Io | BadFrame(error: TransportError) | ClosedMidFrame

  datatype Peer = Peer(buf: seq<byte>, events: Stream)

  function Receive(p: Peer): (Peer, Result<seq<byte>, TcpError>)
    decreases |p.events|
  {
    match ParseFrame(p.buf)
    case Ok((payload, consumed)) => (Peer(p.buf[consumed..], p.events), Ok(payload))
    case Err(_) =>
      if p.events == [] then (p, Err(ClosedMidFrame))
      else if p.events[0].ReadFails? then (Peer(p.buf, p.events[1..]), Err(Io))
      else
        var q := Peer(p.buf + p.events[0].bytes, p.events[1..]);
        match ParseFrame(q.buf)
        case Err(Oversized(declared, limit)) => (q, Err(BadFrame(Oversized(declared, limit))))
        case _ => Receive(q)
  }

  class TcpPeer {
    var buf: seq<byte>
    var events: Stream

    constructor (events: Stream)
      ensures State() == Peer([], events)
    {
      this.buf := [];
      this.events := events;
    }

    function State(): Peer
      reads this
    {
      Peer(buf, events)
    }

    method ReceiveFrame() returns (r: Result<seq<byte>, TcpError>)
      modifies this
      ensures (State(), r) == Receive(old(State()))
    {
      while true
        invariant Receive(State()) == Receive(old(State()))
        decreases |events|
      {
        var parsed := ParseFrame(buf);
        if parsed.Ok? {
          var (out, consumed) := parsed.value;
          buf := buf[consumed..];
          return Ok(out);
        }
        if events == [] { return Err(ClosedMidFrame); }
        var e := events[0];
        events := events[1..];
        if e.ReadFails? { return Err(Io); }
        buf := buf + e.bytes;
        parsed := ParseFrame(buf);
        if parsed.Err? && parsed.error.Oversized? { return Err(BadFrame(parsed.error)); }
      }
    }
  }
}
