/** What every run of the block engine keeps, and what two engines with one tip agree on. */
module ChainAgreement {
  import opened Results
  import opened Hashing
  import opened Texts
  import opened Decimal
  import opened Merkle
  import opened MerkleBinding
  import opened StateStores
  import opened BlockSync

  // ---------- runs ----------

  /** The engine after any list of offered blocks, good or bad. */
  function Run(initial: Entries, offered: seq<Block>): Engine {
    if offered == [] then NewEngine(initial)
    else Offer(Run(initial, offered[..|offered| - 1]), offered[|offered| - 1])
  }

  function Accepted(initial: Entries, offered: seq<Block>): seq<Block> {
    if offered == [] then []
    else
      var before, b := offered[..|offered| - 1], offered[|offered| - 1];
      Accepted(initial, before) + if Check(Run(initial, before), b).None? then [b] else []
  }

  function StateAfter(initial: Entries, blocks: seq<Block>): Entries {
    if blocks == [] then initial
    else ApplyAll(StateAfter(initial, blocks[..|blocks| - 1]), blocks[|blocks| - 1].txs)
  }

  function TipOf(blocks: seq<Block>): string {
    if blocks == [] then GENESIS_PREV else BlockHash(blocks[|blocks| - 1])
  }

  /** Block `i` has the next height, the hash of the block before it, and the root of the state
      after it. */
  predicate LinkedAt(initial: Entries, blocks: seq<Block>, i: nat)
    requires i < |blocks|
  {
    && blocks[i].height == i + 1
    && blocks[i].prevHash == TipOf(blocks[..i])
    && blocks[i].stateRoot == Root(StateAfter(initial, blocks[..i + 1]))
  }

  ghost predicate IsChain(initial: Entries, blocks: seq<Block>) {
    forall i :: 0 <= i < |blocks| ==> LinkedAt(initial, blocks, i)
  }

  lemma LinkedPrefix(initial: Entries, blocks: seq<Block>, n: nat, i: nat)
    requires i < n <= |blocks|
    ensures LinkedAt(initial, blocks[..n], i) <==> LinkedAt(initial, blocks, i)
  {
    hide Root, StateAfter, TipOf;
    assert blocks[..n][..i] == blocks[..i] && blocks[..n][..i + 1] == blocks[..i + 1];
  }

  ghost predicate Holds(e: Engine, initial: Entries, blocks: seq<Block>) {
    && IsChain(initial, blocks)
    && e.tipHeight == |blocks| && e.tipHash == TipOf(blocks)
    && e.state == StateAfter(initial, blocks)
    && (forall h :: h in e.applied <==> 1 <= h <= |blocks|)
    && (forall h :: 1 <= h <= |blocks| ==> e.applied[h] == BlockHash(blocks[h - 1]))
  }

  lemma ChainPrefix(initial: Entries, blocks: seq<Block>, n: nat)
    requires n <= |blocks| && IsChain(initial, blocks)
    ensures IsChain(initial, blocks[..n])
  {
    hide LinkedAt;
    forall i | 0 <= i < n ensures LinkedAt(initial, blocks[..n], i) { LinkedPrefix(initial, blocks, n, i); }
  }

  lemma {:induction false} ChainGrows(initial: Entries, blocks: seq<Block>, b: Block)
    requires IsChain(initial, blocks) && LinkedAt(initial, blocks + [b], |blocks|)
    ensures IsChain(initial, blocks + [b])
  {
    hide LinkedAt;
    var grown := blocks + [b];
    assert grown[..|blocks|] == blocks;
    forall i | 0 <= i < |blocks| ensures LinkedAt(initial, grown, i) {
      LinkedPrefix(initial, grown, |blocks|, i);
    }
  }

  /** The checks of an engine behind a chain say that the block continues the chain. */
  lemma {:induction false} LinkedNext(initial: Entries, blocks: seq<Block>, b: Block)
    ensures LinkedAt(initial, blocks + [b], |blocks|) <==>
            && b.height == |blocks| + 1 && b.prevHash == TipOf(blocks)
            && b.stateRoot == Root(ApplyAll(StateAfter(initial, blocks), b.txs))
    ensures StateAfter(initial, blocks + [b]) == ApplyAll(StateAfter(initial, blocks), b.txs)
  {
    hide Root, ApplyAll, BlockHash;
    var grown := blocks + [b];
    assert grown[..|blocks|] == blocks && grown[..|blocks| + 1] == grown;
  }

  lemma {:induction false} AcceptStep(e: Engine, initial: Entries, blocks: seq<Block>, b: Block)
    requires Holds(e, initial, blocks) && Check(e, b).None?
    ensures Holds(Offer(e, b), initial, blocks + [b])
  {
    hide BlockHash, Root, ApplyAll, StateAfter, LinkedAt, IsChain;
    LinkedNext(initial, blocks, b);
    ChainGrows(initial, blocks, b);
  }

  /** Every run, whatever is offered: the engine holds exactly the chain of accepted blocks, at
      heights 1 to the tip, and the state is their fold. */
  lemma {:induction false} RunHolds(initial: Entries, offered: seq<Block>)
    ensures Holds(Run(initial, offered), initial, Accepted(initial, offered))
  {
    hide Holds, Check, Offer;
    if offered == [] {
      StartHolds(initial);
    } else {
      var before, b := offered[..|offered| - 1], offered[|offered| - 1];
      RunHolds(initial, before);
      if Check(Run(initial, before), b).None? {
        AcceptStep(Run(initial, before), initial, Accepted(initial, before), b);
      } else {
        RejectStep(Run(initial, before), b);
        assert Accepted(initial, offered) == Accepted(initial, before);
      }
    }
  }

  lemma StartHolds(initial: Entries)
    ensures Holds(NewEngine(initial), initial, [])
  {
  }

  lemma RejectStep(e: Engine, b: Block)
    requires Check(e, b).Some?
    ensures Offer(e, b) == e
  {
  }

  /** In a run, the answer to a block depends only on the accepted chain: which of the five errors
      it gets, with which values, and when it is accepted. */
  lemma {:induction false} VerdictInRun(initial: Entries, offered: seq<Block>, b: Block)
    ensures var blocks, c := Accepted(initial, offered), Check(Run(initial, offered), b);
            if 1 <= b.height <= |blocks| then
              if BlockHash(b) == BlockHash(blocks[b.height - 1]) then c == Some(Duplicate(b.height))
              else c == Some(Fork(b.height, BlockHash(blocks[b.height - 1]), BlockHash(b)))
            else
              var root := Root(ApplyAll(StateAfter(initial, blocks), b.txs));
              && (c == Some(HeightGap(|blocks| + 1, b.height)) <==> b.height != |blocks| + 1)
              && (c == Some(PrevMismatch(TipOf(blocks), b.prevHash))
                  <==> b.height == |blocks| + 1 && b.prevHash != TipOf(blocks))
              && (c == Some(RootMismatch(b.stateRoot, root))
                  <==> b.height == |blocks| + 1 && b.prevHash == TipOf(blocks) && b.stateRoot != root)
              && (c.None? <==> IsChain(initial, blocks + [b]))
  {
    hide BlockHash, Root, ApplyAll, StateAfter, LinkedAt, Run, Accepted, TipOf;
    RunHolds(initial, offered);
    var blocks := Accepted(initial, offered);
    LinkedNext(initial, blocks, b);
    if LinkedAt(initial, blocks + [b], |blocks|) { ChainGrows(initial, blocks, b); }
  }

  // ---------- agreement ----------

  ghost function BlockTexts(blocks: seq<Block>): set<string> {
    set i | 0 <= i < |blocks| :: BlockText(blocks[i])
  }

  /** The texts hashed for the state roots of all blocks. */
  ghost function StateTexts(initial: Entries, blocks: seq<Block>): set<string> {
    if blocks == [] then {}
    else StateTexts(initial, blocks[..|blocks| - 1]) + MerkleTexts(StateAfter(initial, blocks))
  }

  lemma TipIsDigest(blocks: seq<Block>)
    ensures IsDigest(TipOf(blocks))
  {
  }

  lemma BlockTextBinds(a: Block, b: Block)
    requires IsDigest(a.prevHash) && IsDigest(b.prevHash) && |a.stateRoot| == |b.stateRoot|
    requires BlockText(a) == BlockText(b)
    ensures a.height == b.height && a.prevHash == b.prevHash && a.stateRoot == b.stateRoot
    ensures JoinTxs(a.txs) == JoinTxs(b.txs)
  {
    hide JoinTxs;
    var a2, b2 := PairText(JoinTxs(a.txs), a.stateRoot), PairText(JoinTxs(b.txs), b.stateRoot);
    FirstBar(Show(a.height), PairText(a.prevHash, a2), Show(b.height), PairText(b.prevHash, b2));
    ShowInjective(a.height, b.height);
    SplitAt(a.prevHash, a2, b.prevHash, b2);
    SplitEnd(JoinTxs(a.txs), a.stateRoot, JoinTxs(b.txs), b.stateRoot);
  }

  ghost predicate SameHeader(a: Block, b: Block) {
    && a.height == b.height && a.prevHash == b.prevHash && a.stateRoot == b.stateRoot
    && JoinTxs(a.txs) == JoinTxs(b.txs)
  }

  lemma LastOf(initial: Entries, blocks: seq<Block>)
    requires blocks != [] && IsChain(initial, blocks)
    ensures var init, b := blocks[..|blocks| - 1], blocks[|blocks| - 1];
            && IsChain(initial, init) && b.height == |blocks| && b.prevHash == TipOf(init)
            && b.stateRoot == Root(StateAfter(initial, blocks))
            && BlockTexts(blocks) == BlockTexts(init) + {BlockText(b)}
  {
    hide Root, BlockHash, ApplyAll, BlockText, StateAfter, TipOf;
    var n := |blocks| - 1;
    assert blocks[..n + 1] == blocks && LinkedAt(initial, blocks, n);
    ChainPrefix(initial, blocks, n);
    TextsSnoc(blocks[..n], blocks[n]);
    assert blocks[..n] + [blocks[n]] == blocks;
  }

  lemma TextsSnoc(init: seq<Block>, b: Block)
    ensures BlockTexts(init + [b]) == BlockTexts(init) + {BlockText(b)}
  {
    hide BlockText;
    var blocks := init + [b];
    assert BlockText(blocks[|init|]) in BlockTexts(blocks);
    forall t | t in BlockTexts(init) ensures t in BlockTexts(blocks) {
      var i :| 0 <= i < |init| && BlockText(init[i]) == t;
      assert BlockText(blocks[i]) == t;
    }
  }

  lemma LastHeadersAgree(i: Entries, a: seq<Block>, j: Entries, b: seq<Block>, texts: set<string>)
    requires IsChain(i, a) && IsChain(j, b) && a != [] && b != [] && TipOf(a) == TipOf(b)
    requires BlockTexts(a) <= texts && BlockTexts(b) <= texts && !CollisionIn(texts)
    ensures |a| == |b| && SameHeader(a[|a| - 1], b[|b| - 1])
    ensures TipOf(a[..|a| - 1]) == TipOf(b[..|b| - 1])
  {
    hide IsChain, Root, BlockText, BlockTexts, StateAfter, CollisionIn, JoinTxs;
    LastOf(i, a);
    LastOf(j, b);
    var x, y := a[|a| - 1], b[|b| - 1];
    SameDigestSameText(BlockText(x), BlockText(y), texts);
    TipIsDigest(a[..|a| - 1]);
    TipIsDigest(b[..|b| - 1]);
    RootIsDigest(StateAfter(i, a));
    RootIsDigest(StateAfter(j, b));
    BlockTextBinds(x, y);
  }

  lemma {:induction false} HeadersAgree(i: Entries, a: seq<Block>, j: Entries, b: seq<Block>, texts: set<string>)
    requires IsChain(i, a) && IsChain(j, b) && a != [] && b != [] && TipOf(a) == TipOf(b)
    requires BlockTexts(a) <= texts && BlockTexts(b) <= texts && !CollisionIn(texts)
    ensures |a| == |b| && forall k :: 0 <= k < |a| ==> SameHeader(a[k], b[k])
    decreases |a|
  {
    hide IsChain, BlockTexts, CollisionIn, SameHeader, TipOf, BlockText, Root, StateAfter;
    var a', b' := a[..|a| - 1], b[..|b| - 1];
    LastHeadersAgree(i, a, j, b, texts);
    if a' != [] {
      LastOf(i, a);
      LastOf(j, b);
      HeadersAgree(i, a', j, b', texts);
      assert forall k :: 0 <= k < |a'| ==> a'[k] == a[k] && b'[k] == b[k];
    }
  }

  lemma {:induction false} TopIsDigest(row: seq<string>)
    requires row != [] && DigestRow(row)
    ensures IsDigest(Top(row))
    decreases |row|
  {
    if |row| > 1 { TopIsDigest(Up(row)); }
  }

  lemma RootIsDigest(m: Entries)
    ensures IsDigest(Root(m))
  {
    if |m| > 0 {
      forall i | 0 <= i < |m| ensures IsDigest(LeafRow(m)[i]) { LeafAt(m, i); }
      TopIsDigest(LeafRow(m));
    } else {
      assert Sha("") == EMPTY_ROOT;
    }
  }

  ghost predicate WellFormedTxs(txs: seq<Tx>) {
    forall i :: 0 <= i < |txs| ==> WellFormedKey(txs[i].key)
  }

  ghost predicate WellFormedBlocks(blocks: seq<Block>) {
    forall i :: 0 <= i < |blocks| ==> WellFormedTxs(blocks[i].txs)
  }

  lemma {:induction false} ApplyAllWellFormed(m: Entries, txs: seq<Tx>)
    requires WellFormed(m) && WellFormedTxs(txs)
    ensures WellFormed(ApplyAll(m, txs))
  {
    if txs != [] { ApplyAllWellFormed(m, txs[..|txs| - 1]); }
  }

  lemma {:induction false} StateWellFormed(initial: Entries, blocks: seq<Block>)
    requires WellFormed(initial) && WellFormedBlocks(blocks)
    ensures WellFormed(StateAfter(initial, blocks))
  {
    if blocks != [] {
      StateWellFormed(initial, blocks[..|blocks| - 1]);
      ApplyAllWellFormed(StateAfter(initial, blocks[..|blocks| - 1]), blocks[|blocks| - 1].txs);
    }
  }

  lemma {:induction false} StateTextsOf(initial: Entries, blocks: seq<Block>, n: nat)
    requires 0 < n <= |blocks|
    ensures MerkleTexts(StateAfter(initial, blocks[..n])) <= StateTexts(initial, blocks)
    decreases |blocks|
  {
    hide MerkleTexts, StateAfter;
    if n == |blocks| {
      assert blocks[..n] == blocks;
    } else {
      StateTextsOf(initial, blocks[..|blocks| - 1], n);
      assert blocks[..|blocks| - 1][..n] == blocks[..n];
    }
  }

  /** The states after `n` blocks are equal, if their keys are well formed. */
  predicate StateAgreesAt(i: Entries, a: seq<Block>, j: Entries, b: seq<Block>, n: nat)
    requires n <= |a| && n <= |b|
  {
    var x, y := StateAfter(i, a[..n]), StateAfter(j, b[..n]);
    WellFormed(x) && WellFormed(y) ==> x == y
  }

  lemma {:induction false} StatesAgree(i: Entries, a: seq<Block>, j: Entries, b: seq<Block>, n: nat, texts: set<string>)
    requires IsChain(i, a) && IsChain(j, b) && 0 < n <= |a| && n <= |b|
    requires a[n - 1].stateRoot == b[n - 1].stateRoot
    requires StateTexts(i, a) + StateTexts(j, b) <= texts && !CollisionIn(texts)
    ensures StateAgreesAt(i, a, j, b, n)
  {
    hide Root, StateAfter, MerkleTexts, StateTexts, CollisionIn, WellFormed, BlockHash;
    var x, y := StateAfter(i, a[..n]), StateAfter(j, b[..n]);
    assert LinkedAt(i, a, n - 1) && LinkedAt(j, b, n - 1);
    StateTextsOf(i, a, n);
    StateTextsOf(j, b, n);
    if WellFormed(x) && WellFormed(y) {
      RootBinding(x, y);
      NoCollisionInSubset(MerkleTexts(x) + MerkleTexts(y), texts);
    }
  }

  ghost function AgreementTexts(i: Entries, a: seq<Block>, j: Entries, b: seq<Block>): set<string> {
    BlockTexts(a) + BlockTexts(b) + StateTexts(i, a) + StateTexts(j, b)
  }

  /** The two chains have one length, and at every height one header: height, previous hash,
      root, and text of the transactions. */
  ghost predicate SameHeaders(a: seq<Block>, b: seq<Block>) {
    |a| == |b| && forall k :: 0 <= k < |a| ==> SameHeader(a[k], b[k])
  }

  ghost predicate StatesAgreeBehind(i: Entries, a: seq<Block>, j: Entries, b: seq<Block>) {
    |a| == |b| && forall n :: 1 <= n <= |a| ==> StateAgreesAt(i, a, j, b, n)
  }

  /** At every height the two chains have one state. */
  ghost predicate SameStates(i: Entries, a: seq<Block>, j: Entries, b: seq<Block>) {
    |a| == |b| && forall n :: 1 <= n <= |a| ==> StateAfter(i, a[..n]) == StateAfter(j, b[..n])
  }

  lemma {:induction false} ChainsAgree(i: Entries, a: seq<Block>, j: Entries, b: seq<Block>)
    requires IsChain(i, a) && IsChain(j, b) && a != [] && b != [] && TipOf(a) == TipOf(b)
    ensures SameHeaders(a, b) || CollisionIn(BlockTexts(a) + BlockTexts(b))
    ensures StatesAgreeBehind(i, a, j, b) || CollisionIn(AgreementTexts(i, a, j, b))
  {
    hide IsChain, StateAfter, BlockTexts, StateTexts, CollisionIn, StateAgreesAt, SameHeader;
    var blockTexts, texts := BlockTexts(a) + BlockTexts(b), AgreementTexts(i, a, j, b);
    NoCollisionInSubset(blockTexts, texts);
    if !CollisionIn(blockTexts) {
      HeadersAgree(i, a, j, b, blockTexts);
      if !CollisionIn(texts) {
        forall n | 1 <= n <= |a|
          ensures StateAgreesAt(i, a, j, b, n)
        {
          assert SameHeader(a[n - 1], b[n - 1]);
          SameHeaderSameRoot(a[n - 1], b[n - 1]);
          StatesAgree(i, a, j, b, n, texts);
        }
      }
    }
  }

  lemma SameHeaderSameRoot(a: Block, b: Block)
    requires SameHeader(a, b)
    ensures a.stateRoot == b.stateRoot && BlockHash(a) == BlockHash(b)
  {
  }

  lemma SameHeadersSameEngine(d: Engine, i: Entries, a: seq<Block>, e: Engine, j: Entries, b: seq<Block>)
    requires Holds(d, i, a) && Holds(e, j, b) && a != [] && SameHeaders(a, b)
    ensures d.(state := e.state) == e
  {
    hide IsChain, StateAfter, BlockHash, SameHeader;
    forall h | 1 <= h <= |a| ensures d.applied[h] == e.applied[h] {
      assert SameHeader(a[h - 1], b[h - 1]);
      SameHeaderSameRoot(a[h - 1], b[h - 1]);
    }
    SameHeaderSameRoot(a[|a| - 1], b[|b| - 1]);
    assert d.applied == e.applied;
  }

  lemma WellFormedHistory(i: Entries, a: seq<Block>, j: Entries, b: seq<Block>)
    requires StatesAgreeBehind(i, a, j, b)
    requires WellFormed(i) && WellFormed(j) && WellFormedBlocks(a) && WellFormedBlocks(b)
    ensures SameStates(i, a, j, b)
  {
    hide StateAfter, WellFormed;
    forall n | 1 <= n <= |a|
      ensures StateAfter(i, a[..n]) == StateAfter(j, b[..n])
    {
      StateWellFormed(i, a[..n]);
      StateWellFormed(j, b[..n]);
      assert StateAgreesAt(i, a, j, b, n);
    }
  }

  /** Chain agreement: two engines that each accepted a block and have the same tip hash are
      equal up to their states, with the same known hashes, and went through the same headers,
      unless two blocks collide.  Their states are equal at every height at which the keys of
      both are well formed, unless two hashed texts collide; so the engines are equal if their
      last states are well formed, and all states if initial states and transactions are.  The
      initial states and the offered blocks are arbitrary; the transaction lists may differ. */
  lemma {:induction false} SameTipSameChain(i: Entries, offeredA: seq<Block>, j: Entries, offeredB: seq<Block>)
    requires Accepted(i, offeredA) != [] && Accepted(j, offeredB) != []
    requires Run(i, offeredA).tipHash == Run(j, offeredB).tipHash
    ensures var (a, b, d, e) := (Accepted(i, offeredA), Accepted(j, offeredB), Run(i, offeredA), Run(j, offeredB));
            && ((d.(state := e.state) == e && SameHeaders(a, b)) || CollisionIn(BlockTexts(a) + BlockTexts(b)))
            && (|| CollisionIn(AgreementTexts(i, a, j, b))
                || (&& StatesAgreeBehind(i, a, j, b)
                    && (WellFormed(d.state) && WellFormed(e.state) ==> d == e)
                    && (WellFormed(i) && WellFormed(j) && WellFormedBlocks(a) && WellFormedBlocks(b) ==>
                          d == e && SameStates(i, a, j, b))))
  {
    hide Run, Accepted, IsChain, SameHeaders, StateAfter, TipOf, BlockTexts, StateTexts, CollisionIn, WellFormed, WellFormedBlocks;
    RunHolds(i, offeredA);
    RunHolds(j, offeredB);
    var a, b, d, e := Accepted(i, offeredA), Accepted(j, offeredB), Run(i, offeredA), Run(j, offeredB);
    ChainsAgree(i, a, j, b);
    NoCollisionInSubset(BlockTexts(a) + BlockTexts(b), AgreementTexts(i, a, j, b));
    if SameHeaders(a, b) { SameHeadersSameEngine(d, i, a, e, j, b); }
    if StatesAgreeBehind(i, a, j, b) {
      assert StateAgreesAt(i, a, j, b, |a|);
      assert a[..|a|] == a && b[..|b|] == b;
      if WellFormed(i) && WellFormed(j) && WellFormedBlocks(a) && WellFormedBlocks(b) {
        WellFormedHistory(i, a, j, b);
        StateWellFormed(i, a);
        StateWellFormed(j, b);
      }
    }
  }

  // ---------- states that are not well formed ----------

  function FirstBlock(state: Entries): Block {
    Block(1, GENESIS_PREV, [], Root(state))
  }

  lemma {:induction false} FirstBlockAccepted(state: Entries)
    ensures Accepted(state, [FirstBlock(state)]) == [FirstBlock(state)]
    ensures Run(state, [FirstBlock(state)]) == Engine(1, BlockHash(FirstBlock(state)), map[1 := BlockHash(FirstBlock(state))], state)
  {
    hide Root, BlockHash;
    var b := FirstBlock(state);
    assert [b][..0] == [];
    assert Run(state, []) == NewEngine(state) && Check(NewEngine(state), b).None?;
  }

  /** For every two states with one root there are two engines with one tip hash and these two
      states. */
  lemma {:induction false} SameTipOtherState(a: Entries, b: Entries)
    requires Root(a) == Root(b)
    ensures Accepted(a, [FirstBlock(a)]) == Accepted(b, [FirstBlock(b)]) == [FirstBlock(a)]
    ensures Run(a, [FirstBlock(a)]).tipHash == Run(b, [FirstBlock(b)]).tipHash
    ensures Run(a, [FirstBlock(a)]).state == a && Run(b, [FirstBlock(b)]).state == b
  {
    hide Root, BlockHash, Run, Accepted;
    FirstBlockAccepted(a);
    FirstBlockAccepted(b);
  }

  /** So there are for every key with a bar. */
  lemma {:induction false} SameTipWithBarKey(key: string, value: string) returns (other: Entries)
    requires '|' in key
    ensures var a := map[key := value];
            && Run(a, [FirstBlock(a)]).tipHash == Run(other, [FirstBlock(other)]).tipHash
            && Run(a, [FirstBlock(a)]).state != Run(other, [FirstBlock(other)]).state
  {
    hide Root, Run, Accepted;
    BarKeyAliases(key, value);
    var k, v :| k != key && Root(map[k := v]) == Root(map[key := value]);
    other := map[k := v];
    assert key !in other;
    SameTipOtherState(map[key := value], other);
  }
}
