/** Health gossip of kai-os/health/src/gossip.rs: merging observations by tick, and the view
    over all observers. */
module Gossip {
  import opened Results
  import opened Ordering

  datatype HealthStatus = Healthy | Stale | Dead

  datatype NodeHealth = NodeHealth(nodeId: string, status: HealthStatus, tick: nat)

  type Observations = map<string, map<string, NodeHealth>>

  function Severity(s: HealthStatus): nat {
    match s
    case Healthy => 0
    case Stale => 1
    case Dead => 2
  }

  // ---------- merging ----------

  /** The local entry wins unless the remote one has a greater tick. */
  predicate Adopts(target: map<string, NodeHealth>, r: NodeHealth) {
    r.nodeId in target ==> target[r.nodeId].tick < r.tick
  }

  function MergeAll(target: map<string, NodeHealth>, remote: seq<NodeHealth>): map<string, NodeHealth> {
    if remote == [] then target
    else
      var before, r := MergeAll(target, remote[..|remote| - 1]), remote[|remote| - 1];
      if Adopts(before, r) then before[r.nodeId := r] else before
  }

  function AdoptedCount(target: map<string, NodeHealth>, remote: seq<NodeHealth>): nat {
    if remote == [] then 0
    else
      var init := remote[..|remote| - 1];
      AdoptedCount(target, init) + if Adopts(MergeAll(target, init), remote[|remote| - 1]) then 1 else 0
  }

  function TargetOf(obs: Observations, observer: string): map<string, NodeHealth> {
    if observer in obs then obs[observer] else map[]
  }

  function Merge(obs: Observations, observer: string, remote: seq<NodeHealth>): Observations {
    obs[observer := MergeAll(TargetOf(obs, observer), remote)]
  }

  /** `best` is an entry on the node that no entry of these observers beats; there is none only
      if no observer has one. */
  ghost predicate IsWorstLatest(obs: Observations, observers: seq<string>, node: string, best: Option<NodeHealth>) {
    match best
    case None => forall o :: o in observers && o in obs ==> node !in obs[o]
    case Some(b) =>
      && (exists o :: o in observers && o in obs && node in obs[o] && obs[o][node] == b)
      && (forall o :: o in observers && o in obs && node in obs[o] ==> !Beats(obs[o][node], b))
  }

  /** One step of the scan. */
  function Worse(best: Option<NodeHealth>, m: map<string, NodeHealth>, node: string): Option<NodeHealth> {
    if node in m && (best.None? || Beats(m[node], best.value)) then Some(m[node]) else best
  }

  lemma WorseKeeps(obs: Observations, seen: seq<string>, o: string, node: string, best: Option<NodeHealth>)
    requires o in obs && IsWorstLatest(obs, seen, node, best)
    ensures IsWorstLatest(obs, seen + [o], node, Worse(best, obs[o], node))
  {
    var observers := seen + [o];
    assert forall p :: p in observers <==> p in seen || p == o;
    assert o in observers;
  }

  predicate Beats(e: NodeHealth, b: NodeHealth) {
    e.tick > b.tick || (e.tick == b.tick && Severity(e.status) > Severity(b.status))
  }

  /** Some observer has this entry on the node. */
  ghost predicate Reported(obs: Observations, node: string, e: NodeHealth) {
    exists o :: o in obs && node in obs[o] && obs[o][node] == e
  }

  /** What the view means: it is one of the reports, no report is later, and among the reports of
      its tick it is the worst: dead if any is dead, healthy only if all are healthy. */
  ghost predicate IsView(obs: Observations, node: string, best: Option<NodeHealth>) {
    match best
    case None => forall e :: !Reported(obs, node, e)
    case Some(b) =>
      && Reported(obs, node, b)
      && (forall e :: Reported(obs, node, e) ==> e.tick <= b.tick)
      && (b.status == Dead <==> exists e :: Reported(obs, node, e) && e.tick == b.tick && e.status == Dead)
      && (b.status == Healthy <==> forall e :: Reported(obs, node, e) && e.tick == b.tick ==> e.status == Healthy)
  }

  lemma {:induction false} WorstLatestIsView(obs: Observations, node: string, best: Option<NodeHealth>)
    requires IsWorstLatest(obs, SortedKeys(obs.Keys), node, best)
    ensures IsView(obs, node, best)
  {
    assert forall o :: o in obs ==> o in SortedKeys(obs.Keys);
    if best.Some? {
      assert Reported(obs, node, best.value);
      assert forall e :: Reported(obs, node, e) ==> !Beats(e, best.value);
    }
  }

  /** Entry `i` is later than the entry held at first, and than every earlier one on its node. */
  predicate LaterThanAll(target: map<string, NodeHealth>, remote: seq<NodeHealth>, i: nat)
    requires i < |remote|
  {
    var r := remote[i];
    && (r.nodeId in target ==> target[r.nodeId].tick < r.tick)
    && forall j :: 0 <= j < i && remote[j].nodeId == r.nodeId ==> remote[j].tick < r.tick
  }

  lemma {:induction false} HeldTick(target: map<string, NodeHealth>, remote: seq<NodeHealth>, node: string, tick: nat)
    ensures (node in MergeAll(target, remote) ==> MergeAll(target, remote)[node].tick < tick)
       <==> (node in target ==> target[node].tick < tick)
            && forall j :: 0 <= j < |remote| && remote[j].nodeId == node ==> remote[j].tick < tick
  {
    if remote != [] {
      var init := remote[..|remote| - 1];
      HeldTick(target, init, node, tick);
      assert forall j :: 0 <= j < |init| ==> remote[j] == init[j];
      assert MergeAll(target, remote) == if Adopts(MergeAll(target, init), remote[|remote| - 1])
        then MergeAll(target, init)[remote[|remote| - 1].nodeId := remote[|remote| - 1]] else MergeAll(target, init);
    }
  }

  /** The number of adopted entries counts those that are later than all before them. */
  lemma {:induction false} AdoptedMeaning(target: map<string, NodeHealth>, remote: seq<NodeHealth>)
    ensures AdoptedCount(target, remote) == |set i | 0 <= i < |remote| && LaterThanAll(target, remote, i)|
  {
    hide Adopts, MergeAll, LaterThanAll;
    var all := set i | 0 <= i < |remote| && LaterThanAll(target, remote, i);
    if remote == [] {
      assert all == {};
    } else {
      var init, n := remote[..|remote| - 1], |remote| - 1;
      AdoptedMeaning(target, init);
      var some := set i | 0 <= i < |init| && LaterThanAll(target, init, i);
      forall i | 0 <= i < n ensures LaterThanAll(target, remote, i) <==> LaterThanAll(target, init, i) {
        LaterInPrefix(target, remote, n, i);
      }
      AdoptsIffLater(target, remote, n);
      assert all == some + if LaterThanAll(target, remote, n) then {n} else {};
    }
  }

  lemma LaterInPrefix(target: map<string, NodeHealth>, remote: seq<NodeHealth>, n: nat, i: nat)
    requires i < n <= |remote|
    ensures LaterThanAll(target, remote[..n], i) <==> LaterThanAll(target, remote, i)
  {
    assert forall j :: 0 <= j < n ==> remote[..n][j] == remote[j];
  }

  lemma AdoptsIffLater(target: map<string, NodeHealth>, remote: seq<NodeHealth>, i: nat)
    requires i < |remote|
    ensures Adopts(MergeAll(target, remote[..i]), remote[i]) <==> LaterThanAll(target, remote, i)
  {
    hide MergeAll;
    HeldTick(target, remote[..i], remote[i].nodeId, remote[i].tick);
    assert forall j :: 0 <= j < i ==> remote[..i][j] == remote[j];
  }

  class HealthGossip {
    var observations: Observations

    constructor ()
      ensures observations == map[]
    {
      observations := map[];
    }

    method MergeRemote(observer: string, remote: seq<NodeHealth>) returns (adopted: nat)
      modifies this
      ensures observations == Merge(old(observations), observer, remote)
      ensures var target := if observer in old(observations) then old(observations)[observer] else map[];
              adopted == |set i | 0 <= i < |remote| && LaterThanAll(target, remote, i)|
    {
      var start := if observer in observations then observations[observer] else map[];
      var target := start;
      adopted := 0;
      for i := 0 to |remote|
        invariant target == MergeAll(start, remote[..i]) && adopted == AdoptedCount(start, remote[..i])
      {
        assert remote[..i + 1][..i] == remote[..i];
        var r := remote[i];
        if r.nodeId in target && target[r.nodeId].tick >= r.tick { continue; }
        target := target[r.nodeId := r];
        adopted := adopted + 1;
      }
      assert remote[..|remote|] == remote;
      AdoptedMeaning(start, remote);
      observations := observations[observer := target];
    }

    /** One pass over the observers in order, keeping the worst of the latest entries. */
    method ConsensusView(node: string) returns (best: Option<NodeHealth>)
      ensures IsWorstLatest(observations, SortedKeys(observations.Keys), node, best)
      ensures IsView(observations, node, best)
    {
      hide IsWorstLatest, IsView;
      var observers := SortedKeys(observations.Keys);
      best := None;
      NothingSeen(observations, node);
      assert observers[..0] == [];
      for i := 0 to |observers|
        invariant IsWorstLatest(observations, observers[..i], node, best)
      {
        assert observers[i] in observers;
        WorseKeeps(observations, observers[..i], observers[i], node, best);
        assert observers[..i + 1] == observers[..i] + [observers[i]];
        var m := observations[observers[i]];
        if node in m && (best.None? || Beats(m[node], best.value)) {
          best := Some(m[node]);
        }
      }
      assert observers[..|observers|] == observers;
      WorstLatestIsView(observations, node, best);
    }
  }

  lemma NothingSeen(obs: Observations, node: string)
    ensures IsWorstLatest(obs, [], node, None)
  {
  }
}
