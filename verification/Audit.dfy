/** The hash-chained audit log of kai-os/ai/src/audit.rs. */
module Audit {
  import opened Hashing
  import opened Texts
  import opened Decimal

  datatype AuditEvent =
    AuditEvent(seqNo: nat, actor: string, kind: string, payload: string, prevHash: string, hash: string)

  /** What an event says, without its place in the chain. */
  function Body(actor: string, kind: string, payload: string): string {
    PairText(actor, PairText(kind, payload))
  }

  function EventText(seqNo: nat, body: string, prevHash: string): string {
    PairText(Show(seqNo), PairText(body, prevHash))
  }

  function LastHash(events: seq<AuditEvent>): string {
    if events == [] then GENESIS_PREV else events[|events| - 1].hash
  }

  function Record(events: seq<AuditEvent>, actor: string, kind: string, payload: string): seq<AuditEvent> {
    var seqNo, prev := |events| + 1, LastHash(events);
    events + [AuditEvent(seqNo, actor, kind, payload, prev, Sha(EventText(seqNo, Body(actor, kind, payload), prev)))]
  }

  predicate RightAt(events: seq<AuditEvent>, i: nat)
    requires i < |events|
  {
    var e := events[i];
    && e.seqNo == i + 1 && e.prevHash == LastHash(events[..i])
    && e.hash == Sha(EventText(e.seqNo, Body(e.actor, e.kind, e.payload), e.prevHash))
  }

  predicate Verifies(events: seq<AuditEvent>) {
    forall i :: 0 <= i < |events| ==> RightAt(events, i)
  }

  class AuditPipeline {
    var events: seq<AuditEvent>

    constructor ()
      ensures events == []
    {
      events := [];
    }

    method RecordEvent(actor: string, kind: string, payload: string) returns (seqNo: nat)
      modifies this
      ensures events == Record(old(events), actor, kind, payload)
      ensures seqNo == |events| == old(|events|) + 1
    {
      seqNo := |events| + 1;
      var prevHash := if events == [] then GENESIS_PREV else events[|events| - 1].hash;
      var hash := Sha(EventText(seqNo, Body(actor, kind, payload), prevHash));
      events := events + [AuditEvent(seqNo, actor, kind, payload, prevHash, hash)];
    }

    method Verify() returns (ok: bool)
      ensures ok <==> Verifies(events)
    {
      var prev := GENESIS_PREV;
      for i := 0 to |events|
        invariant prev == LastHash(events[..i])
        invariant forall k :: 0 <= k < i ==> RightAt(events, k)
      {
        var e := events[i];
        if e.seqNo != i + 1 || e.prevHash != prev {
          assert !RightAt(events, i);
          return false;
        }
        var expected := Sha(EventText(e.seqNo, Body(e.actor, e.kind, e.payload), e.prevHash));
        if e.hash != expected {
          assert !RightAt(events, i);
          return false;
        }
        prev := e.hash;
        assert events[..i + 1][i] == e;
      }
      return true;
    }
  }

  lemma RightPrefix(events: seq<AuditEvent>, n: nat, i: nat)
    requires i < n <= |events|
    ensures RightAt(events[..n], i) <==> RightAt(events, i)
  {
    assert events[..n][..i] == events[..i];
  }

  lemma {:induction false} RecordVerifies(events: seq<AuditEvent>, actor: string, kind: string, payload: string)
    requires Verifies(events)
    ensures Verifies(Record(events, actor, kind, payload))
  {
    var after := Record(events, actor, kind, payload);
    assert after[..|events|] == events;
    forall i | 0 <= i < |events| ensures RightAt(after, i) { RightPrefix(after, |events|, i); }
  }

  // ---------- binding ----------

  function BodyAt(events: seq<AuditEvent>, i: nat): string
    requires i < |events|
  {
    Body(events[i].actor, events[i].kind, events[i].payload)
  }

  function TextAt(events: seq<AuditEvent>, i: nat): string
    requires i < |events|
  {
    EventText(events[i].seqNo, BodyAt(events, i), events[i].prevHash)
  }

  ghost function AuditTexts(events: seq<AuditEvent>): set<string> {
    set i | 0 <= i < |events| :: TextAt(events, i)
  }

  lemma LastHashIsDigest(events: seq<AuditEvent>)
    requires Verifies(events)
    ensures IsDigest(LastHash(events))
  {
    if events != [] { assert RightAt(events, |events| - 1); }
  }

  lemma VerifiesPrefix(events: seq<AuditEvent>, n: nat)
    requires Verifies(events) && n <= |events|
    ensures Verifies(events[..n])
  {
    forall i | 0 <= i < n ensures RightAt(events[..n], i) { RightPrefix(events, n, i); }
  }

  lemma LastTextsAgree(a: seq<AuditEvent>, b: seq<AuditEvent>, texts: set<string>)
    requires Verifies(a) && Verifies(b) && a != [] && b != [] && LastHash(a) == LastHash(b)
    requires AuditTexts(a) <= texts && AuditTexts(b) <= texts && !CollisionIn(texts)
    ensures |a| == |b| && BodyAt(a, |a| - 1) == BodyAt(b, |b| - 1)
    ensures LastHash(a[..|a| - 1]) == LastHash(b[..|b| - 1])
  {
    hide Body, CollisionIn;
    var i, j := |a| - 1, |b| - 1;
    assert RightAt(a, i) && RightAt(b, j);
    assert TextAt(a, i) in AuditTexts(a) && TextAt(b, j) in AuditTexts(b);
    SameDigestSameText(TextAt(a, i), TextAt(b, j), texts);
    VerifiesPrefix(a, i);
    VerifiesPrefix(b, j);
    LastHashIsDigest(a[..i]);
    LastHashIsDigest(b[..j]);
    FirstBar(Show(a[i].seqNo), PairText(BodyAt(a, i), a[i].prevHash), Show(b[j].seqNo), PairText(BodyAt(b, j), b[j].prevHash));
    ShowInjective(a[i].seqNo, b[j].seqNo);
    SplitEnd(BodyAt(a, i), a[i].prevHash, BodyAt(b, j), b[j].prevHash);
  }

  lemma TextsOfPrefix(events: seq<AuditEvent>, n: nat)
    requires n <= |events|
    ensures AuditTexts(events[..n]) <= AuditTexts(events)
  {
    forall t | t in AuditTexts(events[..n])
      ensures t in AuditTexts(events)
    {
      var i :| 0 <= i < n && TextAt(events[..n], i) == t;
      assert TextAt(events, i) == t;
    }
  }

  lemma {:induction false} BodiesAgree(a: seq<AuditEvent>, b: seq<AuditEvent>, texts: set<string>)
    requires Verifies(a) && Verifies(b) && a != [] && b != [] && LastHash(a) == LastHash(b)
    requires AuditTexts(a) <= texts && AuditTexts(b) <= texts && !CollisionIn(texts)
    ensures |a| == |b| && forall i :: 0 <= i < |a| ==> BodyAt(a, i) == BodyAt(b, i)
    decreases |a|
  {
    hide Verifies, LastHash, AuditTexts, CollisionIn, Body;
    var n := |a| - 1;
    LastTextsAgree(a, b, texts);
    if n > 0 {
      VerifiesPrefix(a, n);
      VerifiesPrefix(b, n);
      TextsOfPrefix(a, n);
      TextsOfPrefix(b, n);
      BodiesAgree(a[..n], b[..n], texts);
      forall i | 0 <= i < n
        ensures BodyAt(a, i) == BodyAt(b, i)
      {
        assert BodyAt(a[..n], i) == BodyAt(a, i) && BodyAt(b[..n], i) == BodyAt(b, i);
      }
    }
  }

  /** No separator in the fields that stand before another one. */
  predicate PlainFields(events: seq<AuditEvent>) {
    forall i :: 0 <= i < |events| ==> '|' !in events[i].actor && '|' !in events[i].kind
  }

  lemma {:induction false} SameBodiesSameEvents(a: seq<AuditEvent>, b: seq<AuditEvent>)
    requires Verifies(a) && Verifies(b) && PlainFields(a) && PlainFields(b)
    requires |a| == |b| && forall i :: 0 <= i < |a| ==> BodyAt(a, i) == BodyAt(b, i)
    ensures a == b
    decreases |a|
  {
    if a != [] {
      var n := |a| - 1;
      VerifiesPrefix(a, n);
      VerifiesPrefix(b, n);
      assert forall i :: 0 <= i < n ==> BodyAt(a[..n], i) == BodyAt(a, i) && BodyAt(b[..n], i) == BodyAt(b, i);
      SameBodiesSameEvents(a[..n], b[..n]);
      assert BodyAt(a, n) == BodyAt(b, n);
      FirstBar(a[n].actor, PairText(a[n].kind, a[n].payload), b[n].actor, PairText(b[n].kind, b[n].payload));
      FirstBar(a[n].kind, a[n].payload, b[n].kind, b[n].payload);
      assert RightAt(a, n) && RightAt(b, n);
      assert a == a[..n] + [a[n]] && b == b[..n] + [b[n]];
    }
  }

  /** Audit binding: two verifying logs with the same last hash have the same length and say the
      same at every place, and are equal if no actor or kind holds a separator, unless two event
      texts collide. */
  lemma {:induction false} LastHashBindsLog(a: seq<AuditEvent>, b: seq<AuditEvent>)
    requires Verifies(a) && Verifies(b) && a != [] && b != [] && LastHash(a) == LastHash(b)
    ensures || CollisionIn(AuditTexts(a) + AuditTexts(b))
            || (&& |a| == |b| && (forall i :: 0 <= i < |a| ==> BodyAt(a, i) == BodyAt(b, i))
                && (PlainFields(a) && PlainFields(b) ==> a == b))
  {
    hide Verifies, LastHash, AuditTexts, CollisionIn, Body, PlainFields;
    var texts := AuditTexts(a) + AuditTexts(b);
    if !CollisionIn(texts) {
      BodiesAgree(a, b, texts);
      if PlainFields(a) && PlainFields(b) { SameBodiesSameEvents(a, b); }
    }
  }
}
