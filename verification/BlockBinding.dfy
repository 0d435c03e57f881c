/** What a block hash says about the transactions of the block: they enter it as one text, joined
    with semicolons and not escaped. */
module BlockBinding {
  import opened Hashing
  import opened Texts
  import opened Merkle
  import opened StateStores
  import opened BlockSync
  import opened ChainAgreement

  // ---------- which lists are bound ----------

  /** Transaction lists are not bound in general: a value may spell out another transaction. */
  lemma {:induction false} TxListsThatPrintAlike(key: string, value: string, other: string, b: Block)
    requires b.txs == [SetTx(key, value), RemoveTx(other)]
    ensures BlockHash(b) == BlockHash(b.(txs := [SetTx(key, value + ";rm:" + other)]))
  {
    var v := value + ";rm:" + other;
    assert b.txs[1..] == [RemoveTx(other)];
    assert JoinTxs(b.txs) == "set:" + (key + "=" + value) + ";" + ("rm:" + other);
    assert JoinTxs([SetTx(key, v)]) == "set:" + (key + "=" + v);
    assert "set:" + (key + "=" + value) + ";" + ("rm:" + other) == "set:" + (key + "=" + v);
  }

  /** The texts that some transaction prints as. */
  predicate IsTxText(s: string) {
    "rm:" <= s || ("set:" <= s && '=' in s[4..])
  }

  /** The text can be read as two or more transactions, cut at position `i`. */
  predicate SplitsAt(s: string, i: nat) {
    i < |s| && s[i] == ';' && IsTxText(s[..i]) && IsTxText(s[i + 1..])
  }

  /** No transaction; or a single one with just the one equals sign it needs, whose text does
      not split into transactions. */
  predicate Bound(txs: seq<Tx>) {
    || txs == []
    || (|txs| == 1
        && (txs[0].SetTx? ==> '=' !in txs[0].key && '=' !in txs[0].value)
        && forall i :: 0 <= i < |TxText(txs[0])| ==> !SplitsAt(TxText(txs[0]), i))
  }

  lemma PrintedIsTxText(tx: Tx)
    ensures IsTxText(TxText(tx)) && |TxText(tx)| >= 3
  {
    if tx.SetTx? {
      assert TxText(tx)[4..] == tx.key + "=" + tx.value;
      assert (tx.key + "=" + tx.value)[|tx.key|] == '=';
      assert TxText(tx)[..4] == "set:";
    } else {
      assert TxText(tx)[..3] == "rm:";
    }
  }

  lemma TxOf(s: string) returns (tx: Tx)
    requires IsTxText(s)
    ensures TxText(tx) == s
  {
    if "rm:" <= s {
      tx := RemoveTx(s[3..]);
    } else {
      var i :| 4 <= i < |s| && s[i] == '=' by {
        var k :| 0 <= k < |s[4..]| && s[4..][k] == '=';
        assert s[k + 4] == '=';
      }
      tx := SetTx(s[4..i], s[i + 1..]);
      assert s[4..] == s[4..i] + "=" + s[i + 1..];
    }
  }

  /** A transaction text with anything behind it is one again. */
  lemma TxTextThen(s: string, rest: string)
    requires IsTxText(s)
    ensures IsTxText(s + rest)
  {
    if !("rm:" <= s) {
      var k :| 0 <= k < |s[4..]| && s[4..][k] == '=';
      assert (s + rest)[4..][k] == '=';
    }
  }

  lemma {:induction false} JoinedIsTxText(txs: seq<Tx>)
    requires txs != []
    ensures IsTxText(JoinTxs(txs)) && |JoinTxs(txs)| >= 3
  {
    hide IsTxText, TxText;
    PrintedIsTxText(txs[0]);
    if |txs| > 1 { TxTextThen(TxText(txs[0]), ";" + JoinTxs(txs[1..])); }
    assert |txs| > 1 ==> TxText(txs[0]) + ";" + JoinTxs(txs[1..]) == TxText(txs[0]) + (";" + JoinTxs(txs[1..]));
  }

  lemma JoinSplits(txs: seq<Tx>)
    requires |txs| > 1
    ensures SplitsAt(JoinTxs(txs), |TxText(txs[0])|)
  {
    hide IsTxText, TxText;
    var head, rest := TxText(txs[0]), JoinTxs(txs[1..]);
    PrintedIsTxText(txs[0]);
    JoinedIsTxText(txs[1..]);
    assert JoinTxs(txs)[..|head|] == head && JoinTxs(txs)[|head| + 1..] == rest;
  }

  /** With one equals sign there is one way to read the text of a `Set`. */
  lemma SameTextSameTx(s: Tx, t: Tx)
    requires TxText(s) == TxText(t)
    requires s.SetTx? ==> '=' !in s.key && '=' !in s.value
    ensures s == t
  {
    assert TxText(s)[0] == if s.SetTx? then 's' else 'r';
    assert TxText(t)[0] == if t.SetTx? then 's' else 'r';
    if s.SetTx? {
      var x := TxText(s)[4..];
      assert x == s.key + "=" + s.value && x == t.key + "=" + t.value;
      assert x[|t.key|] == '=';
      assert forall i :: 0 <= i < |s.key| ==> x[i] == s.key[i];
      assert forall i :: 0 <= i < |s.value| ==> x[|s.key| + 1 + i] == s.value[i];
      assert forall i :: 0 <= i < |x| && i != |s.key| ==>
        (if i < |s.key| then x[i] == s.key[i] else x[i] == s.value[i - |s.key| - 1]);
      assert s.key == x[..|s.key|] && t.key == x[..|t.key|];
      assert s.value == x[|s.key| + 1..] && t.value == x[|t.key| + 1..];
    } else {
      assert TxText(s)[3..] == s.key && TxText(t)[3..] == t.key;
    }
  }

  lemma {:induction false} BoundListsAreBound(txs: seq<Tx>, other: seq<Tx>)
    requires Bound(txs) && JoinTxs(other) == JoinTxs(txs)
    ensures other == txs
  {
    hide IsTxText, TxText, SplitsAt;
    if other != [] { JoinedIsTxText(other); }
    if |txs| == 1 {
      JoinedIsTxText(txs);
      if |other| > 1 {
        JoinSplits(other);
      } else {
        SameTextSameTx(txs[0], other[0]);
      }
    }
  }

  /** The text of the first two transactions is the text of one. */
  lemma MergeFirst(txs: seq<Tx>) returns (other: seq<Tx>)
    requires |txs| > 1
    ensures other != txs && JoinTxs(other) == JoinTxs(txs)
  {
    hide IsTxText, TxText;
    var a, b, rest := TxText(txs[0]), TxText(txs[1]), txs[2..];
    PrintedIsTxText(txs[0]);
    TxTextThen(a, ";" + b);
    var merged := TxOf(a + (";" + b));
    other := [merged] + rest;
    assert other[1..] == rest && txs[1..][1..] == rest && txs[1..][0] == txs[1];
    if rest == [] {
      assert JoinTxs(txs) == a + ";" + b == a + (";" + b);
    } else {
      assert a + ";" + (b + ";" + JoinTxs(rest)) == a + (";" + b) + ";" + JoinTxs(rest);
    }
  }

  /** A `Set` with a second equals sign has another key. */
  lemma OtherReading(tx: Tx) returns (other: Tx)
    requires tx.SetTx? && ('=' in tx.key || '=' in tx.value)
    ensures other != tx && TxText(other) == TxText(tx)
  {
    var k, v := tx.key, tx.value;
    if '=' in k {
      var i :| 0 <= i < |k| && k[i] == '=';
      other := SetTx(k[..i], k[i + 1..] + "=" + v);
      assert k + "=" + v == k[..i] + "=" + (k[i + 1..] + "=" + v);
    } else {
      var i :| 0 <= i < |v| && v[i] == '=';
      other := SetTx(k + "=" + v[..i], v[i + 1..]);
      assert k + "=" + v == (k + "=" + v[..i]) + "=" + v[i + 1..];
    }
  }

  /** A text that splits is the text of two transactions. */
  lemma SplitOne(tx: Tx, i: nat) returns (other: seq<Tx>)
    requires SplitsAt(TxText(tx), i)
    ensures |other| == 2 && JoinTxs(other) == TxText(tx)
  {
    var text := TxText(tx);
    var left := TxOf(text[..i]);
    var right := TxOf(text[i + 1..]);
    other := [left, right];
    assert other[1..] == [right];
    assert text == text[..i] + ";" + text[i + 1..];
  }

  lemma {:induction false} OtherListOf(txs: seq<Tx>) returns (other: seq<Tx>)
    requires !Bound(txs)
    ensures other != txs && JoinTxs(other) == JoinTxs(txs)
  {
    hide TxText, SplitsAt;
    if |txs| > 1 {
      other := MergeFirst(txs);
    } else if i: nat :| SplitsAt(TxText(txs[0]), i) {
      other := SplitOne(txs[0], i);
    } else {
      var tx := OtherReading(txs[0]);
      other := [tx];
    }
  }

  /** No other list, whatever it holds, prints like `txs` exactly if `txs` is bound. */
  lemma {:induction false} BoundIff(txs: seq<Tx>)
    ensures Bound(txs) <==> forall other :: JoinTxs(other) == JoinTxs(txs) ==> other == txs
  {
    hide Bound, JoinTxs;
    if Bound(txs) {
      forall other | JoinTxs(other) == JoinTxs(txs)
        ensures other == txs
      {
        BoundListsAreBound(txs, other);
      }
    } else {
      var other := OtherListOf(txs);
    }
  }

  /** A block whose list is not bound shares its hash with a block of other transactions. */
  lemma {:induction false} UnboundBlockHasTwin(b: Block) returns (other: seq<Tx>)
    requires !Bound(b.txs)
    ensures other != b.txs && BlockHash(b.(txs := other)) == BlockHash(b)
  {
    hide Bound, JoinTxs;
    other := OtherListOf(b.txs);
  }

  /** The tip hash of a chain of bound lists binds its blocks against every other chain. */
  lemma {:induction false} SameTipSameBlocks(i: Entries, a: seq<Block>, j: Entries, b: seq<Block>)
    requires IsChain(i, a) && IsChain(j, b) && a != [] && b != [] && TipOf(a) == TipOf(b)
    requires forall k :: 0 <= k < |a| ==> Bound(a[k].txs)
    ensures a == b || CollisionIn(BlockTexts(a) + BlockTexts(b))
  {
    hide IsChain, BlockTexts, BlockHash, CollisionIn, JoinTxs, Bound;
    if !CollisionIn(BlockTexts(a) + BlockTexts(b)) {
      HeadersAgree(i, a, j, b, BlockTexts(a) + BlockTexts(b));
      forall k | 0 <= k < |a|
        ensures a[k] == b[k]
      {
        assert SameHeader(a[k], b[k]);
        BoundListsAreBound(a[k].txs, b[k].txs);
      }
    }
  }

  // ---------- accepted blocks with one hash ----------

  lemma SameTextSameHash(b: Block, other: seq<Tx>)
    requires JoinTxs(other) == JoinTxs(b.txs)
    ensures BlockHash(b.(txs := other)) == BlockHash(b)
  {
    hide JoinTxs;
  }

  /** In a run, an acceptable block has another acceptable block under its hash exactly if another
      list prints like its transactions and leads to a state with the same root, unless the two
      block texts collide. */
  lemma {:induction false} OtherBlockAcceptedIff(initial: Entries, offered: seq<Block>, b: Block, c: Block)
    requires Check(Run(initial, offered), b).None? && c != b
    ensures var e := Run(initial, offered);
            || (Check(e, c).None? && BlockHash(c) == BlockHash(b)
                <==> && c == b.(txs := c.txs) && JoinTxs(c.txs) == JoinTxs(b.txs)
                     && Root(ApplyAll(e.state, c.txs)) == b.stateRoot)
            || CollisionIn({BlockText(b), BlockText(c)})
  {
    hide Run, Accepted, JoinTxs, ApplyAll, Root, BlockText, CollisionIn, StateAfter;
    var e := Run(initial, offered);
    RunHolds(initial, offered);
    TipIsDigest(Accepted(initial, offered));
    if Check(e, c).None? && BlockHash(c) == BlockHash(b) && !CollisionIn({BlockText(b), BlockText(c)}) {
      SameDigestSameText(BlockText(b), BlockText(c), {BlockText(b), BlockText(c)});
      RootIsDigest(ApplyAll(e.state, b.txs));
      RootIsDigest(ApplyAll(e.state, c.txs));
      BlockTextBinds(b, c);
    }
    if c == b.(txs := c.txs) && JoinTxs(c.txs) == JoinTxs(b.txs) {
      SameTextSameHash(b, c.txs);
    }
  }

  /** Two chains from one initial state under one tip hash: at the first block in which they
      differ, only the transactions do, and these print alike, unless two blocks collide. */
  lemma {:induction false} FirstDifference(initial: Entries, a: seq<Block>, b: seq<Block>) returns (k: nat)
    requires IsChain(initial, a) && IsChain(initial, b) && a != [] && b != [] && TipOf(a) == TipOf(b) && a != b
    ensures || (&& k < |a| == |b| && a[..k] == b[..k] && a[k] != b[k]
                && b[k] == a[k].(txs := b[k].txs) && JoinTxs(b[k].txs) == JoinTxs(a[k].txs)
                && Root(ApplyAll(StateAfter(initial, a[..k]), b[k].txs)) == a[k].stateRoot)
            || CollisionIn(BlockTexts(a) + BlockTexts(b))
  {
    hide BlockTexts, BlockHash, CollisionIn, JoinTxs, Root, ApplyAll, IsChain, TipOf;
    k := 0;
    if !CollisionIn(BlockTexts(a) + BlockTexts(b)) {
      HeadersAgree(initial, a, initial, b, BlockTexts(a) + BlockTexts(b));
      while a[k] == b[k]
        invariant k < |a| && a[..k] == b[..k] && a[k..] != b[k..]
        decreases |a| - k
      {
        assert a[k..] == [a[k]] + a[k + 1..] && b[k..] == [b[k]] + b[k + 1..];
        assert a[..k + 1] == a[..k] + [a[k]] && b[..k + 1] == b[..k] + [b[k]];
        k := k + 1;
      }
      assert SameHeader(a[k], b[k]);
      ChainRoot(initial, b, k);
    }
  }

  lemma ChainRoot(initial: Entries, b: seq<Block>, k: nat)
    requires IsChain(initial, b) && k < |b|
    ensures Root(ApplyAll(StateAfter(initial, b[..k]), b[k].txs)) == b[k].stateRoot
  {
    hide Root, ApplyAll, BlockHash;
    assert LinkedAt(initial, b, k);
    assert b[..k + 1][..k] == b[..k] && b[..k + 1][k] == b[k];
  }

  function RemoveBlock(e: Engine, txs: seq<Tx>): Block {
    Block(e.tipHeight + 1, e.tipHash, txs, Root(e.state))
  }

  /** In every run whose state lacks the three keys, two blocks are acceptable that differ in
      their transactions: after either of them the engine is the same, with the same tip. */
  lemma {:induction false} TwoChainsOneTip(initial: Entries, offered: seq<Block>, x: string, y: string)
    requires var s := Run(initial, offered).state; x !in s && y !in s && x + ";rm:" + y !in s
    ensures var e := Run(initial, offered);
            var (b, c) := (RemoveBlock(e, [RemoveTx(x), RemoveTx(y)]), RemoveBlock(e, [RemoveTx(x + ";rm:" + y)]));
            && Accepted(initial, offered + [b]) == Accepted(initial, offered) + [b]
            && Accepted(initial, offered + [c]) == Accepted(initial, offered) + [c]
            && b != c && Run(initial, offered + [b]) == Run(initial, offered + [c])
  {
    hide Root, JoinTxs, BlockHash;
    var e, two, one := Run(initial, offered), [RemoveTx(x), RemoveTx(y)], [RemoveTx(x + ";rm:" + y)];
    RemovesPrintAlike(x, y);
    RemovesChangeNothing(e.state, two);
    RemovesChangeNothing(e.state, one);
    SameTextSameHash(RemoveBlock(e, two), one);
    AcceptNext(initial, offered, RemoveBlock(e, two));
    AcceptNext(initial, offered, RemoveBlock(e, one));
  }

  lemma RemovesPrintAlike(x: string, y: string)
    ensures JoinTxs([RemoveTx(x + ";rm:" + y)]) == JoinTxs([RemoveTx(x), RemoveTx(y)])
  {
    assert [RemoveTx(x), RemoveTx(y)][1..] == [RemoveTx(y)];
    assert JoinTxs([RemoveTx(x), RemoveTx(y)]) == "rm:" + x + ";" + ("rm:" + y);
    assert "rm:" + (x + ";rm:" + y) == "rm:" + x + ";" + ("rm:" + y);
  }

  lemma {:induction false} RemovesChangeNothing(m: Entries, txs: seq<Tx>)
    requires forall i :: 0 <= i < |txs| ==> txs[i].RemoveTx? && txs[i].key !in m
    ensures ApplyAll(m, txs) == m
  {
    if txs != [] { RemovesChangeNothing(m, txs[..|txs| - 1]); }
  }

  lemma AcceptNext(initial: Entries, offered: seq<Block>, b: Block)
    requires var e := Run(initial, offered);
             && b.height == e.tipHeight + 1 && b.prevHash == e.tipHash
             && ApplyAll(e.state, b.txs) == e.state && b.stateRoot == Root(e.state)
    ensures var e := Run(initial, offered);
            && Accepted(initial, offered + [b]) == Accepted(initial, offered) + [b]
            && Run(initial, offered + [b])
                 == Engine(e.tipHeight + 1, BlockHash(b), e.applied[e.tipHeight + 1 := BlockHash(b)], e.state)
  {
    hide Root, BlockHash, ApplyAll, StateAfter, IsChain;
    RunHolds(initial, offered);
    assert (offered + [b])[..|offered|] == offered;
    assert Check(Run(initial, offered), b).None?;
  }

  // ---------- lists without separators, among each other ----------

  /** No key or value holds a separator of its place. */
  predicate CleanTx(tx: Tx) {
    ';' !in tx.key && (tx.SetTx? ==> '=' !in tx.key && ';' !in tx.value)
  }

  predicate CleanTxs(txs: seq<Tx>) {
    forall i :: 0 <= i < |txs| ==> CleanTx(txs[i])
  }

  lemma TxTextInjective(s: Tx, t: Tx)
    requires CleanTx(s) && CleanTx(t) && TxText(s) == TxText(t)
    ensures s == t
  {
    assert TxText(s)[0] == if s.SetTx? then 's' else 'r';
    assert TxText(t)[0] == if t.SetTx? then 's' else 'r';
    if s.SetTx? {
      assert TxText(s)[4..] == s.key + "=" + s.value && TxText(t)[4..] == t.key + "=" + t.value;
      FirstSeparator('=', s.key, s.value, t.key, t.value);
    } else {
      assert TxText(s)[3..] == s.key && TxText(t)[3..] == t.key;
    }
  }

  lemma CleanTextHasNoSemicolon(tx: Tx)
    requires CleanTx(tx)
    ensures ';' !in TxText(tx)
  {
  }

  lemma JoinedBySemicolons(txs: seq<Tx>)
    requires CleanTxs(txs) && txs != []
    ensures ';' !in TxText(txs[0])
    ensures |txs| == 1 <==> ';' !in JoinTxs(txs)
    ensures |txs| > 1 ==> JoinTxs(txs) == TxText(txs[0]) + [';'] + JoinTxs(txs[1..])
  {
    hide TxText, CleanTx;
    CleanTextHasNoSemicolon(txs[0]);
    if |txs| > 1 {
      assert (TxText(txs[0]) + ";" + JoinTxs(txs[1..]))[|TxText(txs[0])|] == ';';
    }
  }

  lemma {:induction false} CleanListsPrintApart(a: seq<Tx>, b: seq<Tx>)
    requires CleanTxs(a) && CleanTxs(b) && JoinTxs(a) == JoinTxs(b)
    ensures a == b
    decreases |a|
  {
    if a != [] && b != [] {
      JoinedBySemicolons(a);
      JoinedBySemicolons(b);
      if |a| > 1 {
        FirstSeparator(';', TxText(a[0]), JoinTxs(a[1..]), TxText(b[0]), JoinTxs(b[1..]));
        CleanListsPrintApart(a[1..], b[1..]);
      }
      TxTextInjective(a[0], b[0]);
      assert a == [a[0]] + a[1..] && b == [b[0]] + b[1..];
    }
  }

  /** Among chains of clean lists the tip hash binds the accepted blocks themselves. */
  lemma {:induction false} SameTipSameCleanBlocks(i: Entries, a: seq<Block>, j: Entries, b: seq<Block>)
    requires IsChain(i, a) && IsChain(j, b) && a != [] && b != [] && TipOf(a) == TipOf(b)
    requires forall k :: 0 <= k < |a| ==> CleanTxs(a[k].txs)
    requires forall k :: 0 <= k < |b| ==> CleanTxs(b[k].txs)
    ensures a == b || CollisionIn(BlockTexts(a) + BlockTexts(b))
  {
    hide IsChain, BlockTexts, BlockHash, CollisionIn, JoinTxs;
    if !CollisionIn(BlockTexts(a) + BlockTexts(b)) {
      HeadersAgree(i, a, j, b, BlockTexts(a) + BlockTexts(b));
      forall k | 0 <= k < |a|
        ensures a[k] == b[k]
      {
        assert SameHeader(a[k], b[k]);
        CleanListsPrintApart(a[k].txs, b[k].txs);
      }
    }
  }
}
