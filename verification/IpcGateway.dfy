/** The IPC gateway of kai-os/ai/src/ipc.rs: identity, capability, replay protection, schema and
    audit, in this order. */
module IpcGateways {
  import opened Results
  import opened Texts
  import opened Decimal
  import opened Audit

  /** The required fields of the known message types. */
  const SCHEMAS: seq<(string, seq<string>)> := [
    ("propose_tx", ["action", "params"]),
    ("propose_decision", ["topic", "recommendation"]),
    ("query_state", ["key"]),
    ("register_model", ["model_id", "version"])
  ]

  /** A JSON value as far as the gateway looks at it: the keys it has, none if it is not an
      object, and its text. */
  datatype Payload = Payload(keys: set<string>, text: string)

  datatype IpcMessage = IpcMessage(fromAgent: string, msgType: string, seqNo: nat, payload: Payload)

  datatype IpcError =
    | UnknownAgent(agent: string)
    | CapabilityDenied(agent: string, msgType: string)
    | Replay(seqNo: nat, last: nat)
    | SchemaViolation(msgType: string, missing: string)

  datatype Receipt = Receipt(seqNo: nat, auditSeq: nat)

  datatype Gateway = Gateway(capabilities: map<string, seq<string>>, lastSeq: map<string, nat>, events: seq<AuditEvent>)

  const EMPTY_GATEWAY := Gateway(map[], map[], [])

  function FirstMissing(required: seq<string>, keys: set<string>): Option<string> {
    if required == [] then None
    else if required[0] !in keys then Some(required[0])
    else FirstMissing(required[1..], keys)
  }

  function RequiredFields(schemas: seq<(string, seq<string>)>, msgType: string): seq<string> {
    if schemas == [] then []
    else if schemas[0].0 == msgType then schemas[0].1
    else RequiredFields(schemas[1..], msgType)
  }

  function CheckSchema(msg: IpcMessage): Option<IpcError> {
    match FirstMissing(RequiredFields(SCHEMAS, msg.msgType), msg.payload.keys)
    case None => None
    case Some(field) => Some(SchemaViolation(msg.msgType, field))
  }

  function LastSeq(g: Gateway, agent: string): nat {
    if agent in g.lastSeq then g.lastSeq[agent] else 0
  }

  /** The first check that a message fails, with the kind and text of its audit event. */
  function Rejection(g: Gateway, msg: IpcMessage): Option<(IpcError, string, string)> {
    if msg.fromAgent !in g.capabilities then
      Some((UnknownAgent(msg.fromAgent), "rejected_unknown_agent", msg.fromAgent))
    else if msg.msgType !in g.capabilities[msg.fromAgent] then
      Some((CapabilityDenied(msg.fromAgent, msg.msgType), "rejected_capability", PairText(msg.fromAgent, msg.msgType)))
    else if msg.seqNo <= LastSeq(g, msg.fromAgent) then
      Some((Replay(msg.seqNo, LastSeq(g, msg.fromAgent)), "rejected_replay", PairText(msg.fromAgent, Show(msg.seqNo))))
    else match CheckSchema(msg)
      case Some(e) => Some((e, "rejected_schema", PairText(msg.fromAgent, msg.msgType)))
      case None => None
  }

  function Register(g: Gateway, agent: string, msgTypes: seq<string>): Gateway {
    g.(capabilities := g.capabilities[agent := msgTypes],
       events := Record(g.events, "ipc-gateway", "agent_registered", agent))
  }

  function Deliver(g: Gateway, msg: IpcMessage): Gateway {
    match Rejection(g, msg)
    case Some((_, kind, text)) => g.(events := Record(g.events, "ipc-gateway", kind, text))
    case None =>
      g.(lastSeq := g.lastSeq[msg.fromAgent := msg.seqNo],
         events := Record(g.events, msg.fromAgent, msg.msgType, msg.payload.text))
  }

  // ---------- the answers, spelled out ----------

  /** The fields that a message of a known type must have. */
  predicate HasFields(msg: IpcMessage) {
    && (msg.msgType == "propose_tx" ==> {"action", "params"} <= msg.payload.keys)
    && (msg.msgType == "propose_decision" ==> {"topic", "recommendation"} <= msg.payload.keys)
    && (msg.msgType == "query_state" ==> "key" in msg.payload.keys)
    && (msg.msgType == "register_model" ==> {"model_id", "version"} <= msg.payload.keys)
  }

  lemma {:induction false} MissingMeaning(required: seq<string>, keys: set<string>)
    ensures FirstMissing(required, keys).None? <==> forall f :: f in required ==> f in keys
    ensures FirstMissing(required, keys).Some? ==>
              exists i :: 0 <= i < |required| && required[i] == FirstMissing(required, keys).value && required[i] !in keys
                          && forall j :: 0 <= j < i ==> required[j] in keys
  {
    if required != [] {
      MissingMeaning(required[1..], keys);
      assert required == [required[0]] + required[1..];
      if required[0] in keys && FirstMissing(required, keys).Some? {
        var i :| 0 <= i < |required[1..]| && required[1..][i] == FirstMissing(required, keys).value && required[1..][i] !in keys
                 && forall j :: 0 <= j < i ==> required[1..][j] in keys;
        assert required[i + 1] == required[1..][i];
        forall j | 0 <= j < i + 1 ensures required[j] in keys { assert j > 0 ==> required[j] == required[1..][j - 1]; }
      }
    }
  }

  lemma FieldsOf(t: string)
    ensures RequiredFields(SCHEMAS, t) ==
            if t == "propose_tx" then ["action", "params"]
            else if t == "propose_decision" then ["topic", "recommendation"]
            else if t == "query_state" then ["key"]
            else if t == "register_model" then ["model_id", "version"] else []
  {
    var s := SCHEMAS;
    assert s[1..][1..] == s[2..] && s[2..][1..] == s[3..] && s[3..][1..] == [];
    assert RequiredFields(s[3..], t) == if t == "register_model" then ["model_id", "version"] else [];
    assert RequiredFields(s[2..], t) == if t == "query_state" then ["key"] else RequiredFields(s[3..], t);
    assert RequiredFields(s[1..], t) == if t == "propose_decision" then ["topic", "recommendation"] else RequiredFields(s[2..], t);
  }

  lemma {:induction false} SchemaMeaning(msg: IpcMessage)
    ensures CheckSchema(msg).None? <==> HasFields(msg)
    ensures match CheckSchema(msg)
            case Some(SchemaViolation(t, field)) => t == msg.msgType && field !in msg.payload.keys
            case e => e.None?
  {
    hide FirstMissing, RequiredFields;
    FieldsOf(msg.msgType);
    MissingMeaning(RequiredFields(SCHEMAS, msg.msgType), msg.payload.keys);
  }

  /** Which of the four reasons a rejection has, and the kind of its audit event: the agent is not
      registered; the type is not among its capabilities; the number is not greater than its last
      one; a field of the type is missing.  Later reasons are given only if the earlier ones do
      not hold, and a message is accepted exactly if none does. */
  lemma {:induction false} RejectionReasons(g: Gateway, msg: IpcMessage)
    ensures var (r, agent) := (Rejection(g, msg), msg.fromAgent);
            var known := agent in g.capabilities;
            var allowed := known && exists i :: 0 <= i < |g.capabilities[agent]| && g.capabilities[agent][i] == msg.msgType;
            var last := if agent in g.lastSeq then g.lastSeq[agent] else 0;
            && (r == Some((UnknownAgent(agent), "rejected_unknown_agent", agent)) <==> !known)
            && (r == Some((CapabilityDenied(agent, msg.msgType), "rejected_capability", agent + "|" + msg.msgType))
                <==> known && !allowed)
            && (r == Some((Replay(msg.seqNo, last), "rejected_replay", agent + "|" + Show(msg.seqNo)))
                <==> allowed && msg.seqNo <= last)
            && (r.Some? && r.value.0.SchemaViolation? && r.value.1 == "rejected_schema" && r.value.2 == agent + "|" + msg.msgType
                <==> allowed && msg.seqNo > last && !HasFields(msg))
            && (r.None? <==> allowed && msg.seqNo > last && HasFields(msg))
  {
    hide CheckSchema, HasFields;
    SchemaMeaning(msg);
  }

  /** A rejected message leaves capabilities and numbers as they were and adds one event of the
      gateway; an accepted one changes the number of its agent only, and adds its own event. */
  lemma {:induction false} DeliverChanges(g: Gateway, msg: IpcMessage)
    ensures var (r, after) := (Rejection(g, msg), Deliver(g, msg));
            && after.capabilities == g.capabilities
            && after.lastSeq == (if r.Some? then g.lastSeq else g.lastSeq[msg.fromAgent := msg.seqNo])
            && |after.events| == |g.events| + 1 && g.events <= after.events
            && var e := after.events[|g.events|];
               && e.actor == (if r.Some? then "ipc-gateway" else msg.fromAgent)
               && e.kind == (if r.Some? then r.value.1 else msg.msgType)
               && e.payload == (if r.Some? then r.value.2 else msg.payload.text)
  {
    hide Rejection;
  }

  class IpcGateway {
    var capabilities: map<string, seq<string>>
    var lastSeq: map<string, nat>
    const audit: AuditPipeline

    constructor ()
      ensures State() == EMPTY_GATEWAY && fresh(audit)
    {
      capabilities := map[];
      lastSeq := map[];
      audit := new AuditPipeline();
    }

    function State(): Gateway
      reads this, audit
    {
      Gateway(capabilities, lastSeq, audit.events)
    }

    method RegisterAgent(agent: string, msgTypes: seq<string>)
      modifies this, audit
      ensures State() == Register(old(State()), agent, msgTypes)
    {
      capabilities := capabilities[agent := msgTypes];
      var _ := audit.RecordEvent("ipc-gateway", "agent_registered", agent);
    }

    method CheckRequired(msg: IpcMessage) returns (r: Option<IpcError>)
      ensures r == CheckSchema(msg)
    {
      var required := RequiredFields(SCHEMAS, msg.msgType);
      for i := 0 to |required|
        invariant FirstMissing(required[i..], msg.payload.keys) == FirstMissing(required, msg.payload.keys)
      {
        assert required[i..][0] == required[i] && required[i..][1..] == required[i + 1..];
        if required[i] !in msg.payload.keys {
          return Some(SchemaViolation(msg.msgType, required[i]));
        }
      }
      assert required[|required|..] == [];
      return None;
    }

    method DeliverMessage(msg: IpcMessage) returns (r: Result<Receipt, IpcError>)
      modifies this, audit
      ensures State() == Deliver(old(State()), msg)
      ensures r == match Rejection(old(State()), msg)
                   case Some((e, _, _)) => Err(e)
                   case None => Ok(Receipt(msg.seqNo, |old(audit.events)| + 1))
      ensures var agent := msg.fromAgent;
              r.Ok? <==> && agent in old(capabilities) && msg.msgType in old(capabilities)[agent]
                         && (if agent in old(lastSeq) then old(lastSeq)[agent] else 0) < msg.seqNo
                         && HasFields(msg)
      ensures capabilities == old(capabilities)
      ensures lastSeq == if r.Ok? then old(lastSeq)[msg.fromAgent := msg.seqNo] else old(lastSeq)
    {
      hide HasFields;
      RejectionReasons(State(), msg);
      if msg.fromAgent !in capabilities {
        var _ := audit.RecordEvent("ipc-gateway", "rejected_unknown_agent", msg.fromAgent);
        return Err(UnknownAgent(msg.fromAgent));
      }
      if msg.msgType !in capabilities[msg.fromAgent] {
        var _ := audit.RecordEvent("ipc-gateway", "rejected_capability", PairText(msg.fromAgent, msg.msgType));
        return Err(CapabilityDenied(msg.fromAgent, msg.msgType));
      }
      var last := if msg.fromAgent in lastSeq then lastSeq[msg.fromAgent] else 0;
      if msg.seqNo <= last {
        var _ := audit.RecordEvent("ipc-gateway", "rejected_replay", PairText(msg.fromAgent, Show(msg.seqNo)));
        return Err(Replay(msg.seqNo, last));
      }
      var violation := CheckRequired(msg);
      if violation.Some? {
        var _ := audit.RecordEvent("ipc-gateway", "rejected_schema", PairText(msg.fromAgent, msg.msgType));
        return Err(violation.value);
      }
      lastSeq := lastSeq[msg.fromAgent := msg.seqNo];
      var auditSeq := audit.RecordEvent(msg.fromAgent, msg.msgType, msg.payload.text);
      return Ok(Receipt(msg.seqNo, auditSeq));
    }
  }

  // ---------- runs ----------

  datatype Call = RegisterCall(agent: string, msgTypes: seq<string>) | DeliverCall(msg: IpcMessage)

  function Step(g: Gateway, c: Call): Gateway {
    match c
    case RegisterCall(agent, msgTypes) => Register(g, agent, msgTypes)
    case DeliverCall(msg) => Deliver(g, msg)
  }

  function Run(calls: seq<Call>): Gateway {
    if calls == [] then EMPTY_GATEWAY else Step(Run(calls[..|calls| - 1]), calls[|calls| - 1])
  }

  /** Call `i` delivers a message of this agent and is accepted. */
  predicate AcceptedAt(calls: seq<Call>, i: nat, agent: string)
    requires i < |calls|
  {
    calls[i].DeliverCall? && calls[i].msg.fromAgent == agent && Rejection(Run(calls[..i]), calls[i].msg).None?
  }

  /** In every run the audit log has one event for every call, and it verifies. */
  lemma {:induction false} OneEventPerCall(calls: seq<Call>)
    ensures |Run(calls).events| == |calls| && Verifies(Run(calls).events)
  {
    hide Rejection, Verifies;
    if calls == [] {
      NoEventsVerify();
    } else {
      var g, c := Run(calls[..|calls| - 1]), calls[|calls| - 1];
      OneEventPerCall(calls[..|calls| - 1]);
      match c
      case RegisterCall(agent, _) => RecordVerifies(g.events, "ipc-gateway", "agent_registered", agent);
      case DeliverCall(msg) =>
        match Rejection(g, msg) {
          case Some((_, kind, text)) => RecordVerifies(g.events, "ipc-gateway", kind, text);
          case None => RecordVerifies(g.events, msg.fromAgent, msg.msgType, msg.payload.text);
        }
    }
  }

  lemma NoEventsVerify()
    ensures Verifies([])
  {
  }

  /** The recorded number of an agent is that of its last accepted message. */
  lemma {:induction false} LastSeqIsLastAccepted(calls: seq<Call>, i: nat, agent: string)
    requires i < |calls| && AcceptedAt(calls, i, agent)
    ensures LastSeq(Run(calls), agent) >= calls[i].msg.seqNo
    decreases |calls|
  {
    hide Record, CheckSchema;
    var n := |calls| - 1;
    var before := calls[..n];
    if i < n {
      assert before[..i] == calls[..i];
      LastSeqIsLastAccepted(before, i, agent);
    }
  }

  /** Replay protection over whole runs: the accepted sequence numbers of an agent strictly
      increase, whatever happens in between, re-registration included. */
  lemma {:induction false} AcceptedIncrease(calls: seq<Call>, i: nat, j: nat, agent: string)
    requires i < j < |calls| && AcceptedAt(calls, i, agent) && AcceptedAt(calls, j, agent)
    ensures calls[i].msg.seqNo < calls[j].msg.seqNo
  {
    hide Run, Record, CheckSchema;
    var before := calls[..j];
    assert before[..i] == calls[..i];
    LastSeqIsLastAccepted(before, i, agent);
  }

  /** Each accepted message stands in the log at its place, under its agent's name. */
  lemma {:induction false} AcceptedIsAudited(calls: seq<Call>, i: nat, agent: string)
    requires i < |calls| && AcceptedAt(calls, i, agent)
    ensures i < |Run(calls).events|
    ensures var e, msg := Run(calls).events[i], calls[i].msg;
            e.seqNo == i + 1 && e.actor == agent && e.kind == msg.msgType && e.payload == msg.payload.text
  {
    hide Rejection, Record;
    EventsGrow(calls, i + 1);
    OneEventPerCall(calls[..i]);
    assert calls[..i + 1][..i] == calls[..i];
    RecordAppends(Run(calls[..i]).events, agent, calls[i].msg.msgType, calls[i].msg.payload.text);
  }

  lemma RecordAppends(events: seq<AuditEvent>, actor: string, kind: string, payload: string)
    ensures var after := Record(events, actor, kind, payload);
            && |after| == |events| + 1 && events <= after
            && after[|events|].seqNo == |after| && after[|events|].actor == actor
            && after[|events|].kind == kind && after[|events|].payload == payload
  {
  }

  lemma StepRecords(g: Gateway, c: Call)
    ensures g.events <= Step(g, c).events
  {
    hide Rejection;
  }

  lemma {:induction false} EventsGrow(calls: seq<Call>, i: nat)
    requires i <= |calls|
    ensures Run(calls[..i]).events <= Run(calls).events
    decreases |calls|
  {
    hide Rejection, Record, CheckSchema;
    if i == |calls| {
      assert calls[..i] == calls;
    } else {
      var before := calls[..|calls| - 1];
      EventsGrow(before, i);
      assert before[..i] == calls[..i];
      StepRecords(Run(before), calls[|calls| - 1]);
    }
  }

  // ---------- acceptance over runs ----------

  /** Call `j` is the last registration of the agent in `calls`, with these types. */
  ghost predicate GrantedAt(calls: seq<Call>, j: nat, agent: string, types: seq<string>) {
    && j < |calls| && calls[j] == RegisterCall(agent, types)
    && forall k :: j < k < |calls| ==> !(calls[k].RegisterCall? && calls[k].agent == agent)
  }

  ghost predicate Granted(calls: seq<Call>, agent: string, types: seq<string>) {
    exists j :: GrantedAt(calls, j, agent, types)
  }

  lemma GrantSnoc(calls: seq<Call>, c: Call, agent: string, types: seq<string>)
    ensures Granted(calls + [c], agent, types)
       <==> if c.RegisterCall? && c.agent == agent then c.msgTypes == types else Granted(calls, agent, types)
  {
    var all := calls + [c];
    assert all[|calls|] == c && forall k :: 0 <= k < |calls| ==> all[k] == calls[k];
    if c.RegisterCall? && c.agent == agent {
      if c.msgTypes == types { assert GrantedAt(all, |calls|, agent, types); }
      if j :| GrantedAt(all, j, agent, types) { assert j == |calls|; }
    } else {
      if j :| GrantedAt(all, j, agent, types) { assert GrantedAt(calls, j, agent, types); }
      if j :| GrantedAt(calls, j, agent, types) { assert GrantedAt(all, j, agent, types); }
    }
  }

  /** The capabilities of an agent are those of its last registration, and none without one. */
  lemma {:induction false} CapabilitiesAreGranted(calls: seq<Call>, agent: string, types: seq<string>)
    ensures agent in Run(calls).capabilities && Run(calls).capabilities[agent] == types <==> Granted(calls, agent, types)
  {
    hide Rejection, Record, Granted;
    if calls == [] {
      NothingGranted(agent, types);
    } else {
      var before, c := calls[..|calls| - 1], calls[|calls| - 1];
      CapabilitiesAreGranted(before, agent, types);
      GrantSnoc(before, c, agent, types);
      assert before + [c] == calls;
    }
  }

  lemma NothingGranted(agent: string, types: seq<string>)
    ensures !Granted([], agent, types)
  {
  }

  /** The recorded number is that of an accepted message, or 0 if none was accepted. */
  lemma {:induction false} LastSeqWasAccepted(calls: seq<Call>, agent: string)
    ensures LastSeq(Run(calls), agent) == 0
         || exists i :: 0 <= i < |calls| && AcceptedAt(calls, i, agent) && calls[i].msg.seqNo == LastSeq(Run(calls), agent)
  {
    hide Rejection, Record;
    if calls != [] {
      var n := |calls| - 1;
      var before := calls[..n];
      LastSeqWasAccepted(before, agent);
      if AcceptedAt(calls, n, agent) {
      } else if i :| 0 <= i < n && AcceptedAt(before, i, agent) && before[i].msg.seqNo == LastSeq(Run(before), agent) {
        assert before[..i] == calls[..i];
        assert AcceptedAt(calls, i, agent);
      }
    }
  }

  lemma {:induction false} FreshIffGreater(calls: seq<Call>, agent: string, seqNo: nat)
    ensures seqNo > LastSeq(Run(calls), agent)
       <==> seqNo > 0 && forall k :: 0 <= k < |calls| && AcceptedAt(calls, k, agent) ==> calls[k].msg.seqNo < seqNo
  {
    hide Run, LastSeq, Rejection;
    LastSeqWasAccepted(calls, agent);
    forall k | 0 <= k < |calls| && AcceptedAt(calls, k, agent)
      ensures calls[k].msg.seqNo <= LastSeq(Run(calls), agent)
    {
      LastSeqIsLastAccepted(calls, k, agent);
    }
  }

  /** Deny by default, over whole runs: a delivery is accepted exactly if the last registration of
      its agent before it exists and lists its type, its number is positive and greater than those
      of all messages accepted from the agent before, and it has the fields of its type. */
  lemma {:induction false} AcceptedExactlyIf(calls: seq<Call>, i: nat)
    requires i < |calls| && calls[i].DeliverCall?
    ensures var (before, msg) := (calls[..i], calls[i].msg);
            AcceptedAt(calls, i, msg.fromAgent)
            <==> && (exists types :: Granted(before, msg.fromAgent, types) && msg.msgType in types)
                 && msg.seqNo > 0
                 && (forall k :: 0 <= k < i && AcceptedAt(before, k, msg.fromAgent) ==> before[k].msg.seqNo < msg.seqNo)
                 && HasFields(msg)
  {
    hide Run, Rejection, Record, HasFields, Granted;
    var before, msg := calls[..i], calls[i].msg;
    var g, agent := Run(before), msg.fromAgent;
    RejectionReasons(g, msg);
    FreshIffGreater(before, agent, msg.seqNo);
    if agent in g.capabilities { CapabilitiesAreGranted(before, agent, g.capabilities[agent]); }
    forall types | Granted(before, agent, types)
      ensures agent in g.capabilities && g.capabilities[agent] == types
    {
      CapabilitiesAreGranted(before, agent, types);
    }
  }
}
