/** The tick-based watchdog of kai-os/health/src/watchdog.rs, against a counter of missed ticks. */
module Watchdogs {
  import opened Results

  datatype ServiceState = Running | Stale | DeclaredDead

  datatype ServiceEntry =
    ServiceEntry(state: ServiceState, lastHeartbeat: nat, staleAfter: nat, deadAfter: nat, restarts: nat)

  datatype WatchdogError =
    | UnknownService(id: string)
    | DuplicateService(id: string)
    | IllegalRestart(service: string, state: ServiceState)
    | IllegalHeartbeat(service: string, state: ServiceState)

  datatype Dog = Dog(now: nat, services: map<string, ServiceEntry>)

  function SaturatingSub(a: nat, b: nat): nat {
    if a < b then 0 else a - b
  }

  /** The two checks of one tick, in order; a service may pass both at once. */
  function Reassess(e: ServiceEntry, now: nat): ServiceEntry {
    var missed := SaturatingSub(now, e.lastHeartbeat);
    var e1 := if e.state == Running && missed > e.staleAfter then e.(state := Stale) else e;
    if e1.state == Stale && missed > e1.staleAfter + e1.deadAfter then e1.(state := DeclaredDead) else e1
  }

  function Tick(d: Dog): Dog {
    Dog(d.now + 1, map id | id in d.services :: Reassess(d.services[id], d.now + 1))
  }

  function RegisterResult(d: Dog, id: string): Option<WatchdogError> {
    if id in d.services then Some(DuplicateService(id)) else None
  }

  function Register(d: Dog, id: string, staleAfter: nat, deadAfter: nat): Dog {
    if RegisterResult(d, id).Some? then d
    else d.(services := d.services[id := ServiceEntry(Running, d.now, staleAfter, deadAfter, 0)])
  }

  function HeartbeatResult(d: Dog, id: string): Option<WatchdogError> {
    if id !in d.services then Some(UnknownService(id))
    else if d.services[id].state == DeclaredDead then Some(IllegalHeartbeat(id, DeclaredDead)) else None
  }

  function Heartbeat(d: Dog, id: string): Dog {
    if HeartbeatResult(d, id).Some? then d
    else d.(services := d.services[id := d.services[id].(state := Running, lastHeartbeat := d.now)])
  }

  function RestartResult(d: Dog, id: string): Option<WatchdogError> {
    if id !in d.services then Some(UnknownService(id))
    else if d.services[id].state != DeclaredDead then Some(IllegalRestart(id, d.services[id].state)) else None
  }

  function Restart(d: Dog, id: string): Dog {
    if RestartResult(d, id).Some? then d
    else
      var e := d.services[id];
      d.(services := d.services[id := e.(state := Running, lastHeartbeat := d.now, restarts := e.restarts + 1)])
  }

  /** All services but those in `todo` are reassessed. */
  ghost predicate PartlyReassessed(before: map<string, ServiceEntry>, after: map<string, ServiceEntry>,
                                   todo: set<string>, now: nat)
  {
    && after.Keys == before.Keys
    && forall id :: id in before ==> after[id] == if id in todo then before[id] else Reassess(before[id], now)
  }

  lemma ReassessOne(before: map<string, ServiceEntry>, after: map<string, ServiceEntry>, todo: set<string>, now: nat, id: string)
    requires PartlyReassessed(before, after, todo, now) && id in todo && id in before
    ensures after[id] == before[id]
    ensures PartlyReassessed(before, after[id := Reassess(before[id], now)], todo - {id}, now)
  {
    hide Reassess;
  }

  lemma AllReassessed(before: map<string, ServiceEntry>, after: map<string, ServiceEntry>, now: nat)
    requires PartlyReassessed(before, after, {}, now)
    ensures after == map id | id in before :: Reassess(before[id], now)
  {
    hide Reassess;
  }

  class Watchdog {
    var nowTick: nat
    var services: map<string, ServiceEntry>

    constructor (startTick: nat)
      ensures State() == Dog(startTick, map[])
    {
      nowTick := startTick;
      services := map[];
    }

    function State(): Dog
      reads this
    {
      Dog(nowTick, services)
    }

    method RegisterService(id: string, staleAfter: nat, deadAfter: nat) returns (r: Option<WatchdogError>)
      modifies this
      ensures State() == Register(old(State()), id, staleAfter, deadAfter)
      ensures r == RegisterResult(old(State()), id)
    {
      if id in services { return Some(DuplicateService(id)); }
      services := services[id := ServiceEntry(Running, nowTick, staleAfter, deadAfter, 0)];
      return None;
    }

    method ReceiveHeartbeat(id: string) returns (r: Option<WatchdogError>)
      modifies this
      ensures State() == Heartbeat(old(State()), id) && r == HeartbeatResult(old(State()), id)
    {
      if id !in services { return Some(UnknownService(id)); }
      var entry := services[id];
      match entry.state
      case DeclaredDead => return Some(IllegalHeartbeat(id, entry.state));
      case _ =>
        services := services[id := entry.(state := Running, lastHeartbeat := nowTick)];
        return None;
    }

    method AdvanceTick()
      modifies this
      ensures State() == Tick(old(State()))
    {
      nowTick := nowTick + 1;
      var todo := services.Keys;
      while todo != {}
        invariant nowTick == old(nowTick) + 1 && todo <= services.Keys
        invariant PartlyReassessed(old(services), services, todo, nowTick)
        decreases |todo|
      {
        var id :| id in todo;
        var entry := services[id];
        var missed := SaturatingSub(nowTick, entry.lastHeartbeat);
        if entry.state == Running && missed > entry.staleAfter { entry := entry.(state := Stale); }
        if entry.state == Stale && missed > entry.staleAfter + entry.deadAfter { entry := entry.(state := DeclaredDead); }
        ReassessOne(old(services), services, todo, nowTick, id);
        services := services[id := entry];
        todo := todo - {id};
      }
      AllReassessed(old(services), services, nowTick);
    }

    method RestartService(id: string) returns (r: Result<nat, WatchdogError>)
      modifies this
      ensures State() == Restart(old(State()), id)
      ensures r == match RestartResult(old(State()), id)
                   case Some(e) => Err(e)
                   case None => Ok(old(services)[id].restarts + 1)
    {
      if id !in services { return Err(UnknownService(id)); }
      var entry := services[id];
      if entry.state != DeclaredDead { return Err(IllegalRestart(id, entry.state)); }
      services := services[id := entry.(restarts := entry.restarts + 1, state := Running, lastHeartbeat := nowTick)];
      return Ok(entry.restarts + 1);
    }
  }

  // ---------- runs and the reference ----------

  datatype Event = RegisterEvent(id: string, staleAfter: nat, deadAfter: nat) | HeartbeatEvent(id: string) | RestartEvent(id: string) | TickEvent

  function Step(d: Dog, e: Event): Dog {
    match e
    case RegisterEvent(id, staleAfter, deadAfter) => Register(d, id, staleAfter, deadAfter)
    case HeartbeatEvent(id) => Heartbeat(d, id)
    case RestartEvent(id) => Restart(d, id)
    case TickEvent => Tick(d)
  }

  function Run(start: nat, events: seq<Event>): Dog {
    if events == [] then Dog(start, map[]) else Step(Run(start, events[..|events| - 1]), events[|events| - 1])
  }

  /** The state as a function of the ticks missed. */
  function ClosedForm(missed: nat, staleAfter: nat, deadAfter: nat): ServiceState {
    if missed <= staleAfter then Running
    else if missed <= staleAfter + deadAfter then Stale
    else DeclaredDead
  }

  /** The reference: a service is a counter of missed ticks and a counter of deaths, with no
      stored state. */
  datatype Ref = Ref(missed: nat, staleAfter: nat, deadAfter: nat, deaths: nat) {
    function State(): ServiceState { ClosedForm(missed, staleAfter, deadAfter) }
  }

  function StepReference(before: Option<Ref>, e: Event, id: string): Option<Ref> {
    match (before, e)
    case (None, RegisterEvent(i, staleAfter, deadAfter)) => if i == id then Some(Ref(0, staleAfter, deadAfter, 0)) else None
    case (Some(r), HeartbeatEvent(i)) => Some(if i == id && r.State() != DeclaredDead then r.(missed := 0) else r)
    case (Some(r), RestartEvent(i)) => Some(if i == id && r.State() == DeclaredDead then r.(missed := 0) else r)
    case (Some(r), TickEvent) =>
      var t := r.(missed := r.missed + 1);
      Some(if r.State() != DeclaredDead && t.State() == DeclaredDead then t.(deaths := t.deaths + 1) else t)
    case _ => before
  }

  function Reference(events: seq<Event>, id: string): Option<Ref> {
    if events == [] then None
    else StepReference(Reference(events[..|events| - 1], id), events[|events| - 1], id)
  }

  ghost predicate Matches(d: Dog, id: string, r: Option<Ref>) {
    match r
    case None => id !in d.services
    case Some(r) =>
      && id in d.services
      && var e := d.services[id];
         && e.staleAfter == r.staleAfter && e.deadAfter == r.deadAfter
         && d.now == e.lastHeartbeat + r.missed
         && e.state == r.State()
         && e.restarts + (if e.state == DeclaredDead then 1 else 0) == r.deaths
  }

  lemma StepRefines(d: Dog, e: Event, id: string, r: Option<Ref>)
    requires Matches(d, id, r)
    ensures Matches(Step(d, e), id, StepReference(r, e, id))
  {
  }

  /** Watchdog refinement: in every run the stored state of every service is the closed form of
      the ticks since its last accepted heartbeat, registration or restart; and its restarts,
      plus one if it is dead now, are the number of times it was declared dead. */
  lemma {:induction false} WatchdogRefines(start: nat, events: seq<Event>, id: string)
    ensures Matches(Run(start, events), id, Reference(events, id))
  {
    if events != [] {
      var before := events[..|events| - 1];
      WatchdogRefines(start, before, id);
      StepRefines(Run(start, before), events[|events| - 1], id, Reference(before, id));
    }
  }

  lemma VerdictsMatch(d: Dog, id: string, r: Option<Ref>)
    requires Matches(d, id, r)
    ensures RegisterResult(d, id) == (if r.Some? then Some(DuplicateService(id)) else None)
    ensures HeartbeatResult(d, id) ==
            match r
            case None => Some(UnknownService(id))
            case Some(s) => if s.missed > s.staleAfter + s.deadAfter then Some(IllegalHeartbeat(id, DeclaredDead)) else None
    ensures RestartResult(d, id) ==
            match r
            case None => Some(UnknownService(id))
            case Some(s) =>
              if s.missed <= s.staleAfter then Some(IllegalRestart(id, Running))
              else if s.missed <= s.staleAfter + s.deadAfter then Some(IllegalRestart(id, Stale)) else None
    ensures RestartResult(d, id).None? ==> d.services[id].restarts + 1 == r.value.deaths
  {
  }

  /** In every run the answers depend on the counters of the reference only: a service is unknown
      until it is registered, heartbeats are refused exactly to the dead and restarts to all
      others, and a restart returns the number of deaths. */
  lemma {:induction false} VerdictsInRun(start: nat, events: seq<Event>, id: string)
    ensures var (d, r) := (Run(start, events), Reference(events, id));
            && (RegisterResult(d, id) == Some(DuplicateService(id)) <==> r.Some?)
            && (HeartbeatResult(d, id) == Some(UnknownService(id)) <==> r.None?)
            && (HeartbeatResult(d, id) == Some(IllegalHeartbeat(id, DeclaredDead))
                <==> r.Some? && r.value.missed > r.value.staleAfter + r.value.deadAfter)
            && (RestartResult(d, id) == Some(UnknownService(id)) <==> r.None?)
            && (RestartResult(d, id) == Some(IllegalRestart(id, Running)) <==> r.Some? && r.value.missed <= r.value.staleAfter)
            && (RestartResult(d, id) == Some(IllegalRestart(id, Stale))
                <==> r.Some? && r.value.staleAfter < r.value.missed <= r.value.staleAfter + r.value.deadAfter)
            && (RestartResult(d, id) == None ==> id in d.services && r.Some? && d.services[id].restarts + 1 == r.value.deaths)
  {
    hide Run, Reference, Matches, RegisterResult, HeartbeatResult, RestartResult;
    WatchdogRefines(start, events, id);
    VerdictsMatch(Run(start, events), id, Reference(events, id));
  }
}
