/** Gossip converges: what a slot holds depends on the entries received, not on their grouping,
    repetition or order, exactly as long as no observer contradicts itself at one tick. */
module GossipConvergence {
  import opened Results
  import opened Ordering
  import opened Gossip

  datatype Message = Message(observer: string, entries: seq<NodeHealth>)

  function MergeRun(messages: seq<Message>): Observations {
    if messages == [] then map[]
    else
      var m := messages[|messages| - 1];
      Merge(MergeRun(messages[..|messages| - 1]), m.observer, m.entries)
  }

  function Slot(obs: Observations, observer: string, node: string): Option<NodeHealth> {
    if observer in obs && node in obs[observer] then Some(obs[observer][node]) else None
  }

  function Concerning(entries: seq<NodeHealth>, node: string): seq<NodeHealth> {
    if entries == [] then []
    else
      var last := entries[|entries| - 1];
      Concerning(entries[..|entries| - 1], node) + if last.nodeId == node then [last] else []
  }

  /** The entries on a node received from an observer, in order of arrival. */
  function Received(messages: seq<Message>, observer: string, node: string): seq<NodeHealth> {
    if messages == [] then []
    else
      var m := messages[|messages| - 1];
      Received(messages[..|messages| - 1], observer, node)
      + if m.observer == observer then Concerning(m.entries, node) else []
  }

  /** The first argument, unless the second has a greater tick. */
  function Later(a: Option<NodeHealth>, b: Option<NodeHealth>): Option<NodeHealth> {
    if a.Some? && (b.None? || b.value.tick <= a.value.tick) then a else b
  }

  /** The first entry with the greatest tick. */
  function FirstLatest(entries: seq<NodeHealth>): (r: Option<NodeHealth>)
    ensures r.None? <==> entries == []
  {
    if entries == [] then None
    else Later(FirstLatest(entries[..|entries| - 1]), Some(entries[|entries| - 1]))
  }

  ghost predicate IsFirstLatest(entries: seq<NodeHealth>, i: nat) {
    && i < |entries|
    && (forall k :: 0 <= k < |entries| ==> entries[k].tick <= entries[i].tick)
    && (forall k :: 0 <= k < i ==> entries[k].tick < entries[i].tick)
  }

  /** No entry has a greater tick, and every entry before it has a smaller one. */
  lemma {:induction false} FirstLatestMeaning(entries: seq<NodeHealth>) returns (i: nat)
    requires entries != []
    ensures IsFirstLatest(entries, i) && FirstLatest(entries) == Some(entries[i])
  {
    var n := |entries| - 1;
    var init := entries[..n];
    assert forall k :: 0 <= k < n ==> init[k] == entries[k];
    if n == 0 {
      i := 0;
    } else {
      i := FirstLatestMeaning(init);
      if entries[i].tick < entries[n].tick { i := n; }
    }
  }

  lemma {:induction false} FirstLatestConcat(a: seq<NodeHealth>, b: seq<NodeHealth>)
    ensures FirstLatest(a + b) == Later(FirstLatest(a), FirstLatest(b))
    decreases |b|
  {
    if b == [] {
      assert a + b == a;
    } else {
      FirstLatestConcat(a, b[..|b| - 1]);
      assert (a + b)[..|a + b| - 1] == a + b[..|b| - 1];
    }
  }

  function Get(m: map<string, NodeHealth>, node: string): Option<NodeHealth> {
    if node in m then Some(m[node]) else None
  }

  lemma {:induction false} MergeAllKeepsLatest(target: map<string, NodeHealth>, remote: seq<NodeHealth>, node: string)
    ensures Get(MergeAll(target, remote), node) == Later(Get(target, node), FirstLatest(Concerning(remote, node)))
  {
    hide FirstLatest;
    if remote == [] {
      NothingLatest();
    } else {
      var init, last := remote[..|remote| - 1], remote[|remote| - 1];
      MergeAllKeepsLatest(target, init, node);
      if last.nodeId == node {
        LatestSnoc(Concerning(init, node), last);
      } else {
        assert Concerning(remote, node) == Concerning(init, node);
      }
    }
  }

  lemma LatestSnoc(entries: seq<NodeHealth>, last: NodeHealth)
    ensures FirstLatest(entries + [last]) == Later(FirstLatest(entries), Some(last))
  {
    assert (entries + [last])[..|entries|] == entries;
  }

  /** After every run of merges each slot holds the first entry received with the greatest tick. */
  lemma {:induction false} SlotHoldsFirstLatest(messages: seq<Message>, observer: string, node: string)
    ensures Slot(MergeRun(messages), observer, node) == FirstLatest(Received(messages, observer, node))
  {
    hide FirstLatest, MergeAll, Concerning;
    if messages == [] {
      NothingLatest();
    } else {
      var init, m := messages[..|messages| - 1], messages[|messages| - 1];
      SlotHoldsFirstLatest(init, observer, node);
      if m.observer == observer {
        MergeAllKeepsLatest(TargetOf(MergeRun(init), observer), m.entries, node);
        FirstLatestConcat(Received(init, observer, node), Concerning(m.entries, node));
      } else {
        assert Received(messages, observer, node) == Received(init, observer, node);
      }
    }
  }

  lemma NothingLatest()
    ensures FirstLatest([]) == None
  {
  }

  // ---------- convergence ----------

  /** Entries of the greatest tick are equal. */
  predicate NoTie(entries: seq<NodeHealth>) {
    forall e :: e in entries && e.tick == FirstLatest(entries).value.tick ==> e == FirstLatest(entries).value
  }

  lemma SameEntriesSameLatest(a: seq<NodeHealth>, b: seq<NodeHealth>)
    requires NoTie(a) && forall e :: e in a <==> e in b
    ensures FirstLatest(a) == FirstLatest(b)
  {
    hide FirstLatest;
    assert a == [] <==> b == [] by {
      assert a != [] ==> a[0] in b;
      assert b != [] ==> b[0] in a;
    }
    if a != [] {
      var i := FirstLatestMeaning(a);
      var j := FirstLatestMeaning(b);
      assert a[i] in b && b[j] in a;
    }
  }

  lemma FrontWins(e: NodeHealth, rest: seq<NodeHealth>)
    requires forall r :: r in rest ==> r.tick <= e.tick
    ensures FirstLatest([e] + rest) == Some(e)
  {
    hide FirstLatest;
    var all := [e] + rest;
    var i := FirstLatestMeaning(all);
    assert all[0] == e && forall k :: 0 < k < |all| ==> all[k] == rest[k - 1] && rest[k - 1] in rest;
  }

  lemma ToFront(entries: seq<NodeHealth>, i: nat)
    requires i < |entries|
    ensures var rest := entries[..i] + entries[i + 1..];
            multiset([entries[i]] + rest) == multiset(entries) && forall r :: r in rest ==> r in entries
  {
    assert entries == entries[..i] + [entries[i]] + entries[i + 1..];
  }

  lemma TieMatters(entries: seq<NodeHealth>)
    requires !NoTie(entries)
    ensures exists a: seq<NodeHealth> :: multiset(a) == multiset(entries) && FirstLatest(a) != FirstLatest(entries)
  {
    hide FirstLatest;
    var e :| e in entries && e.tick == FirstLatest(entries).value.tick && e != FirstLatest(entries).value;
    var i :| 0 <= i < |entries| && entries[i] == e;
    var j := FirstLatestMeaning(entries);
    ToFront(entries, i);
    FrontWins(e, entries[..i] + entries[i + 1..]);
  }

  /** The order of the entries of a slot matters exactly if two different ones tie at the
      greatest tick. */
  lemma {:induction false} OrderMattersIffTie(entries: seq<NodeHealth>)
    ensures NoTie(entries) <==>
            forall a: seq<NodeHealth> :: multiset(a) == multiset(entries) ==> FirstLatest(a) == FirstLatest(entries)
  {
    hide FirstLatest, NoTie;
    if NoTie(entries) {
      forall a: seq<NodeHealth> | multiset(a) == multiset(entries)
        ensures FirstLatest(a) == FirstLatest(entries)
      {
        assert forall e :: e in entries <==> e in multiset(entries);
        assert forall e :: e in a <==> e in multiset(a);
        SameEntriesSameLatest(entries, a);
      }
    } else {
      TieMatters(entries);
    }
  }

  /** No observer reports two statuses for one node at one tick. */
  ghost predicate NoContradiction(messages: seq<Message>) {
    forall o, n, e, f :: e in Received(messages, o, n) && f in Received(messages, o, n) && e.tick == f.tick ==> e == f
  }

  ghost predicate SameReports(a: seq<Message>, b: seq<Message>) {
    forall o, n, e :: e in Received(a, o, n) <==> e in Received(b, o, n)
  }

  /** Convergence: two nodes that received the same entries, in any grouping, order and
      multiplicity, hold the same in every slot. */
  lemma {:induction false} GossipConverges(a: seq<Message>, b: seq<Message>, observer: string, node: string)
    requires NoContradiction(a) && SameReports(a, b)
    ensures Slot(MergeRun(a), observer, node) == Slot(MergeRun(b), observer, node)
  {
    hide FirstLatest, Received, MergeRun, Slot;
    SlotHoldsFirstLatest(a, observer, node);
    SlotHoldsFirstLatest(b, observer, node);
    var entries := Received(a, observer, node);
    if entries != [] { var _ := FirstLatestMeaning(entries); }
    SameEntriesSameLatest(entries, Received(b, observer, node));
  }

  // ---------- the view over all observers ----------

  lemma {:induction false} ReceivedConcerns(messages: seq<Message>, observer: string, node: string, e: NodeHealth)
    requires e in Received(messages, observer, node)
    ensures e.nodeId == node
  {
    if messages != [] {
      var m := messages[|messages| - 1];
      if e in Received(messages[..|messages| - 1], observer, node) {
        ReceivedConcerns(messages[..|messages| - 1], observer, node, e);
      } else {
        ConcerningConcerns(m.entries, node, e);
      }
    }
  }

  lemma {:induction false} ConcerningConcerns(entries: seq<NodeHealth>, node: string, e: NodeHealth)
    requires e in Concerning(entries, node)
    ensures e.nodeId == node
  {
    if e in Concerning(entries[..|entries| - 1], node) {
      ConcerningConcerns(entries[..|entries| - 1], node, e);
    }
  }

  lemma SlotConcerns(messages: seq<Message>, observer: string, node: string)
    ensures var s := Slot(MergeRun(messages), observer, node); s.Some? ==> s.value.nodeId == node
  {
    hide Received, MergeRun;
    SlotHoldsFirstLatest(messages, observer, node);
    var entries := Received(messages, observer, node);
    if entries != [] {
      var i := FirstLatestMeaning(entries);
      ReceivedConcerns(messages, observer, node, entries[i]);
    }
  }

  /** Two entries on one node of which neither beats the other are equal. */
  lemma BeatsIsTotal(e: NodeHealth, f: NodeHealth)
    requires e.nodeId == f.nodeId && !Beats(e, f) && !Beats(f, e)
    ensures e == f
  {
  }

  /** The consensus view is unique, so it does not depend on the order of the observers; and it
      is the same on two nodes whose slots agree. */
  lemma {:induction false} ConsensusConverges(a: seq<Message>, b: seq<Message>, node: string, x: Option<NodeHealth>, y: Option<NodeHealth>)
    requires NoContradiction(a) && SameReports(a, b)
    requires IsWorstLatest(MergeRun(a), SortedKeys(MergeRun(a).Keys), node, x)
    requires IsWorstLatest(MergeRun(b), SortedKeys(MergeRun(b).Keys), node, y)
    ensures x == y
  {
    hide MergeRun, NoContradiction, SameReports, SortedKeys;
    ViewInOther(a, b, node, x, y);
    forall o, n ensures Slot(MergeRun(b), o, n) == Slot(MergeRun(a), o, n) { GossipConverges(a, b, o, n); }
    if x.Some? && y.Some? {
      BeatsIsTotal(x.value, y.value);
    }
  }

  lemma {:induction false} ViewInOther(a: seq<Message>, b: seq<Message>, node: string, x: Option<NodeHealth>, y: Option<NodeHealth>)
    requires NoContradiction(a) && SameReports(a, b)
    requires IsWorstLatest(MergeRun(a), SortedKeys(MergeRun(a).Keys), node, x)
    requires IsWorstLatest(MergeRun(b), SortedKeys(MergeRun(b).Keys), node, y)
    ensures x.Some? <==> y.Some?
    ensures x.Some? ==> x.value.nodeId == y.value.nodeId && !Beats(x.value, y.value) && !Beats(y.value, x.value)
  {
    hide MergeRun, NoContradiction, SameReports, Beats, SortedKeys;
    if x.Some? {
      var o :| o in MergeRun(a) && node in MergeRun(a)[o] && MergeRun(a)[o][node] == x.value;
      GossipConverges(a, b, o, node);
      SlotConcerns(a, o, node);
    }
    if y.Some? {
      var o :| o in MergeRun(b) && node in MergeRun(b)[o] && MergeRun(b)[o][node] == y.value;
      GossipConverges(a, b, o, node);
      SlotConcerns(b, o, node);
    }
  }
}
