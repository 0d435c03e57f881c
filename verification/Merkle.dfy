/** The Merkle state root of kai-os/state/src/merkle.rs: a level-by-level tree over the
    entries in key order, the last node of an odd level paired with itself. */
module Merkle {
  import opened Hashing
  import opened Ordering
  import opened Texts

  type Entries = map<string, string>

  const EMPTY_ROOT := EMPTY_DIGEST

  function LeafText(key: string, value: string): string {
    PairText(key, value)
  }

  function LeafHash(key: string, value: string): string {
    Sha(LeafText(key, value))
  }

  /** The text hashed for node `i` of the level above `row`. */
  function RowText(row: seq<string>, i: nat): string
    requires 2 * i < |row|
  {
    PairText(row[2 * i], if 2 * i + 1 < |row| then row[2 * i + 1] else row[2 * i])
  }

  function LeafRow(entries: Entries): (row: seq<string>)
    ensures |row| == |entries|
  {
    var keys := SortedKeys(entries.Keys);
    seq(|keys|, i requires 0 <= i < |keys| => LeafHash(keys[i], entries[keys[i]]))
  }

  function Up(row: seq<string>): (up: seq<string>)
    ensures |up| == (|row| + 1) / 2
    ensures forall i :: 0 <= i < |up| ==> up[i] == Sha(RowText(row, i))
  {
    seq((|row| + 1) / 2, i requires 0 <= i < (|row| + 1) / 2 => Sha(RowText(row, i)))
  }

  function Levels(row: seq<string>): (levels: seq<seq<string>>)
    ensures levels != [] && levels[0] == row
    decreases |row|
  {
    [row] + if |row| <= 1 then [] else Levels(Up(row))
  }

  function Top(row: seq<string>): string
    requires row != []
    decreases |row|
  {
    if |row| == 1 then row[0] else Top(Up(row))
  }

  function Root(entries: Entries): string {
    if |entries| == 0 then EMPTY_ROOT else Top(LeafRow(entries))
  }

  // ---------- the tree, spelled out ----------

  /** The leaves of `keys` in this order. */
  predicate IsLeafRow(row: seq<string>, entries: Entries, keys: seq<string>) {
    |row| == |keys| && forall i :: 0 <= i < |keys| ==> keys[i] in entries && row[i] == Sha(keys[i] + "|" + entries[keys[i]])
  }

  /** Every node of `up` is the digest of two neighbours of `row`, left before right, or of the
      last node twice. */
  predicate IsPaired(up: seq<string>, row: seq<string>) {
    && 2 * |up| - 1 <= |row| <= 2 * |up|
    && forall i :: 0 <= i < |up| ==>
         up[i] == Sha(row[2 * i] + "|" + if 2 * i + 1 < |row| then row[2 * i + 1] else row[2 * i])
  }

  /** All keys once each, every key before the greater ones. */
  ghost predicate IsKeyOrder(keys: seq<string>, entries: Entries) {
    && |keys| == |entries| && (forall k :: k in keys <==> k in entries)
    && forall i, j :: 0 <= i < j < |keys| ==> Before(keys[i], keys[j])
  }

  lemma {:induction false} LevelsChain(row: seq<string>)
    requires row != []
    ensures var ls := Levels(row);
            && |ls[|ls| - 1]| == 1 && ls[|ls| - 1][0] == Top(row)
            && forall i :: 0 <= i < |ls| - 1 ==> |ls[i]| > 1 && ls[i + 1] == Up(ls[i])
    decreases |row|
  {
    if |row| > 1 {
      LevelsChain(Up(row));
      var ls, rest := Levels(row), Levels(Up(row));
      assert ls == [row] + rest;
      forall i | 0 <= i < |ls| - 1
        ensures |ls[i]| > 1 && ls[i + 1] == Up(ls[i])
      {
        if i > 0 { assert ls[i] == rest[i - 1] && ls[i + 1] == rest[i]; }
      }
    }
  }

  lemma KeyOrder(entries: Entries)
    ensures IsKeyOrder(SortedKeys(entries.Keys), entries)
  {
    hide Less, Before;
    var keys := SortedKeys(entries.Keys);
    assert |entries| == |entries.Keys|;
    forall i, j | 0 <= i < j < |keys|
      ensures Before(keys[i], keys[j])
    {
      LessMeaning(keys[i], keys[j]);
    }
  }

  lemma LeafRowIs(entries: Entries)
    ensures IsLeafRow(LeafRow(entries), entries, SortedKeys(entries.Keys))
  {
    var keys := SortedKeys(entries.Keys);
    forall i | 0 <= i < |keys|
      ensures keys[i] in entries && LeafRow(entries)[i] == Sha(keys[i] + "|" + entries[keys[i]])
    {
      assert keys[i] in keys;
    }
  }

  lemma UpIsPaired(row: seq<string>)
    ensures IsPaired(Up(row), row)
  {
  }

  /** What the root is: the single node on top of the levels over the leaves in key order. */
  lemma {:induction false} RootMeaning(entries: Entries) returns (keys: seq<string>, levels: seq<seq<string>>)
    requires entries != map[]
    ensures IsKeyOrder(keys, entries)
    ensures levels != [] && IsLeafRow(levels[0], entries, keys)
    ensures forall i :: 0 <= i < |levels| - 1 ==> |levels[i]| > 1 && IsPaired(levels[i + 1], levels[i])
    ensures levels[|levels| - 1] == [Root(entries)]
  {
    hide LeafRow, Levels, IsLeafRow, IsPaired, IsKeyOrder;
    keys, levels := SortedKeys(entries.Keys), Levels(LeafRow(entries));
    KeyOrder(entries);
    LeafRowIs(entries);
    assert |LeafRow(entries)| == |entries| > 0;
    LevelsChain(LeafRow(entries));
    forall i | 0 <= i < |levels| - 1
      ensures IsPaired(levels[i + 1], levels[i])
    {
      UpIsPaired(levels[i]);
    }
  }

  // ---------- the loops ----------

  method NextLevel(prev: seq<string>) returns (next: seq<string>)
    ensures next == Up(prev)
  {
    next := [];
    var i := 0;
    while i < |prev|
      invariant i <= |prev| + 1 && i == 2 * |next|
      invariant |next| <= (|prev| + 1) / 2 && next == Up(prev)[..|next|]
    {
      if i + 1 < |prev| {
        next := next + [Sha(PairText(prev[i], prev[i + 1]))];
      } else {
        next := next + [Sha(PairText(prev[i], prev[i]))];
      }
      i := i + 2;
    }
  }

  method ComputeLevels(entries: Entries) returns (levels: seq<seq<string>>)
    ensures levels == Levels(LeafRow(entries))
  {
    var row := LeafRow(entries);
    levels := [row];
    if |row| == 0 { return; }
    ghost var done := [];
    while |row| > 1
      invariant levels == done + [row]
      invariant done + Levels(row) == Levels(LeafRow(entries))
      decreases |row|
    {
      var next := NextLevel(row);
      LevelsUnfold(done, row);
      done := levels;
      levels := levels + [next];
      row := next;
    }
  }

  lemma LevelsUnfold(done: seq<seq<string>>, row: seq<string>)
    requires |row| > 1
    ensures done + [row] + Levels(Up(row)) == done + Levels(row)
  {
  }

  method MerkleRoot(entries: Entries) returns (root: string)
    ensures root == Root(entries)
  {
    if |entries| == 0 { return EMPTY_ROOT; }
    var levels := ComputeLevels(entries);
    LevelsChain(LeafRow(entries));
    root := levels[|levels| - 1][0];
  }
}
