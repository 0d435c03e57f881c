/** Inclusion proofs of kai-os/state/src/merkle.rs: complete for every key of the map, and
    sound against every accepted proof of any length. */
module MerkleProofs {
  import opened Hashing
  import opened Ordering
  import opened Texts
  import opened Merkle
  import opened MerkleBinding
  import opened Results

  datatype Sibling = Sibling(hash: string, onRight: bool)

  function StepText(cur: string, s: Sibling): string {
    if s.onRight then PairText(cur, s.hash) else PairText(s.hash, cur)
  }

  function Fold(leaf: string, proof: seq<Sibling>): string
    decreases |proof|
  {
    if proof == [] then leaf else Fold(Sha(StepText(leaf, proof[0])), proof[1..])
  }

  function SiblingOf(row: seq<string>, i: nat): Sibling
    requires i < |row|
  {
    if i % 2 == 1 then Sibling(row[i - 1], false)
    else Sibling(if i + 1 < |row| then row[i + 1] else row[i], true)
  }

  function ProofFrom(row: seq<string>, i: nat): seq<Sibling>
    requires i < |row|
    decreases |row|
  {
    if |row| <= 1 then [] else [SiblingOf(row, i)] + ProofFrom(Up(row), i / 2)
  }

  // ---------- completeness ----------

  lemma {:induction false} ProofFolds(row: seq<string>, i: nat)
    requires i < |row|
    ensures Fold(row[i], ProofFrom(row, i)) == Top(row)
    decreases |row|
  {
    if |row| > 1 {
      ProofFolds(Up(row), i / 2);
      SiblingCompletesPair(row, i);
      var proof, rest := ProofFrom(row, i), ProofFrom(Up(row), i / 2);
      assert proof[0] == SiblingOf(row, i) && proof[1..] == rest;
      assert Up(row)[i / 2] == Sha(StepText(row[i], proof[0]));
    }
  }

  lemma SiblingCompletesPair(row: seq<string>, i: nat)
    requires i < |row|
    ensures StepText(row[i], SiblingOf(row, i)) == RowText(row, i / 2)
  {
    if i % 2 == 1 {
      assert 2 * (i / 2) == i - 1;
    } else {
      assert 2 * (i / 2) == i;
    }
  }

  method Position(keys: seq<string>, key: string) returns (r: Option<nat>)
    ensures r.None? ==> key !in keys
    ensures r.Some? ==> r.value < |keys| && keys[r.value] == key
  {
    for i := 0 to |keys|
      invariant key !in keys[..i]
    {
      if keys[i] == key { return Some(i); }
    }
    return None;
  }

  method CollectSiblings(levels: seq<seq<string>>, idx: nat) returns (siblings: seq<Sibling>)
    requires levels != [] && idx < |levels[0]| && levels == Levels(levels[0])
    ensures siblings == ProofFrom(levels[0], idx)
  {
    LevelsChain(levels[0]);
    siblings := [];
    var i: nat := idx;
    for n := 0 to |levels| - 1
      invariant i < |levels[n]|
      invariant siblings + ProofFrom(levels[n], i) == ProofFrom(levels[0], idx)
    {
      var level := levels[n];
      assert levels[n + 1] == Up(level);
      ProofUnfold(siblings, level, i);
      if i % 2 == 0 {
        if i + 1 < |level| {
          siblings := siblings + [Sibling(level[i + 1], true)];
        } else {
          siblings := siblings + [Sibling(level[i], true)];
        }
      } else {
        siblings := siblings + [Sibling(level[i - 1], false)];
      }
      i := i / 2;
    }
    assert ProofFrom(levels[|levels| - 1], i) == [];
  }

  lemma ProofUnfold(done: seq<Sibling>, row: seq<string>, i: nat)
    requires |row| > 1 && i < |row|
    ensures done + [SiblingOf(row, i)] + ProofFrom(Up(row), i / 2) == done + ProofFrom(row, i)
  {
  }

  method Prove(entries: Entries, key: string) returns (r: Option<seq<Sibling>>)
    ensures r.Some? <==> key in entries
    ensures r.Some? ==> Fold(LeafHash(key, entries[key]), r.value) == Root(entries)
  {
    var pos := Position(SortedKeys(entries.Keys), key);
    if pos.None? { return None; }
    LeafAt(entries, pos.value);
    ProofFolds(LeafRow(entries), pos.value);
    var levels := ComputeLevels(entries);
    var siblings := CollectSiblings(levels, pos.value);
    return Some(siblings);
  }

  method VerifyProof(leaf: string, proof: seq<Sibling>, root: string) returns (ok: bool)
    ensures ok <==> Fold(leaf, proof) == root
  {
    var cur := leaf;
    for i := 0 to |proof|
      invariant Fold(cur, proof[i..]) == Fold(leaf, proof)
    {
      assert proof[i..][0] == proof[i] && proof[i..][1..] == proof[i + 1..];
      if proof[i].onRight {
        cur := Sha(PairText(cur, proof[i].hash));
      } else {
        cur := Sha(PairText(proof[i].hash, cur));
      }
    }
    assert proof[|proof|..] == [];
    ok := cur == root;
  }

  // ---------- soundness ----------

  /** The texts hashed while a proof is verified. */
  ghost function FoldTexts(leaf: string, proof: seq<Sibling>): set<string> {
    set n | 0 <= n < |proof| :: StepText(Fold(leaf, proof[..n]), proof[n])
  }

  lemma {:induction false} FoldSnoc(leaf: string, proof: seq<Sibling>, n: nat)
    requires n < |proof|
    ensures Fold(leaf, proof[..n + 1]) == Sha(StepText(Fold(leaf, proof[..n]), proof[n]))
    decreases n
  {
    if n == 0 {
      assert proof[..1] == [proof[0]] && proof[..1][1..] == [];
    } else {
      FoldSnoc(Sha(StepText(leaf, proof[0])), proof[1..], n - 1);
      assert proof[..n][1..] == proof[1..][..n - 1] && proof[..n + 1][1..] == proof[1..][..n];
      assert proof[1..][n - 1] == proof[n];
    }
  }

  lemma {:induction false} FoldIsDigest(leaf: string, proof: seq<Sibling>)
    requires IsDigest(leaf)
    ensures IsDigest(Fold(leaf, proof))
    decreases |proof|
  {
    if proof != [] { FoldIsDigest(Sha(StepText(leaf, proof[0])), proof[1..]); }
  }

  /** Whatever side and text a sibling claims, a step whose text is a pair of digests started
      from one of the two. */
  lemma StepFromPair(cur: string, s: Sibling, left: string, right: string)
    requires IsDigest(cur) && IsDigest(left) && IsDigest(right)
    requires StepText(cur, s) == PairText(left, right)
    ensures cur == left || cur == right
  {
    if s.onRight {
      SplitAt(cur, s.hash, left, right);
    } else {
      assert |s.hash| + 1 + 64 == |PairText(s.hash, cur)| == 64 + 1 + 64;
      SplitAt(s.hash, cur, left, right);
    }
  }

  /** An accepted proof walks down the tree: counted from the root, every intermediate digest
      is a node of the level at the same distance. */
  lemma {:induction false} FoldStaysInTree(
      row: seq<string>, leaf: string, proof: seq<Sibling>, j: nat, texts: set<string>)
    requires row != [] && DigestRow(row) && DistinctRow(row) && IsDigest(leaf)
    requires TreeTexts(row) + FoldTexts(leaf, proof) <= texts && !CollisionIn(texts)
    requires Fold(leaf, proof) == Top(row)
    requires j < |Levels(row)| && j <= |proof|
    ensures Fold(leaf, proof[..|proof| - j]) in Levels(row)[|Levels(row)| - 1 - j]
  {
    var levels := Levels(row);
    LevelsChain(row);
    if j == 0 {
      assert proof[..|proof|] == proof;
      assert levels[|levels| - 1] == [Top(row)];
    } else {
      FoldStaysInTree(row, leaf, proof, j - 1, texts);
      var n, i := |proof| - j, |levels| - 1 - j;
      var cur, below := Fold(leaf, proof[..n]), levels[i];
      FoldSnoc(leaf, proof, n);
      FoldIsDigest(leaf, proof[..n]);
      assert levels[i + 1] == Up(below);
      var q :| 0 <= q < |Up(below)| && Up(below)[q] == Fold(leaf, proof[..n + 1]);
      LevelTexts(row, i);
      LevelDistinct(row, i, texts);
      assert RowText(below, q) in RowTexts(below);
      assert StepText(cur, proof[n]) in FoldTexts(leaf, proof);
      SameDigestSameText(StepText(cur, proof[n]), RowText(below, q), texts);
      StepFromPair(cur, proof[n], below[2 * q],
                   if 2 * q + 1 < |below| then below[2 * q + 1] else below[2 * q]);
    }
  }

  function BeforeBar(s: string): (b: string)
    ensures '|' !in b && b <= s
    ensures |b| < |s| ==> s[|b|] == '|'
  {
    if s == "" || s[0] == '|' then "" else [s[0]] + BeforeBar(s[1..])
  }

  /** Left siblings must have a digest before their first bar; right siblings may be any text. */
  predicate LeftSiblingsStartWithDigests(proof: seq<Sibling>) {
    forall i :: 0 <= i < |proof| && !proof[i].onRight ==> IsDigest(BeforeBar(proof[i].hash))
  }

  /** What stands behind the first bar of a left sibling, in the text of its step. */
  function BehindBar(hash: string, cur: string): string {
    var b := BeforeBar(hash);
    if |b| < |hash| then PairText(hash[|b| + 1..], cur) else cur
  }

  lemma StepAtBar(hash: string, cur: string)
    ensures PairText(hash, cur) == PairText(BeforeBar(hash), BehindBar(hash, cur))
  {
    hide BeforeBar, PairText;
    var b := BeforeBar(hash);
    assert b == hash[..|b|];
    if |b| < |hash| {
      PairAt(hash, |b|);
      PairsNest(b, hash[|b| + 1..], cur);
    } else {
      assert hash[..|hash|] == hash;
    }
  }

  lemma PairAt(s: string, n: nat)
    requires n < |s| && s[n] == '|'
    ensures s == PairText(s[..n], s[n + 1..])
  {
  }

  lemma PairsNest(a: string, b: string, c: string)
    ensures PairText(PairText(a, b), c) == PairText(a, PairText(b, c))
  {
  }

  ghost function VerificationTexts(key: string, value: string, proof: seq<Sibling>): set<string> {
    {LeafText(key, value)} + FoldTexts(LeafHash(key, value), proof)
  }

  lemma {:induction false} InnerStepIsNotLeaf(m: Entries, leaf: string, proof: seq<Sibling>, n: nat, texts: set<string>)
    requires WellFormed(m) && LeafTexts(m) <= texts
    requires IsDigest(leaf) && LeftSiblingsStartWithDigests(proof) && n < |proof|
    requires FoldTexts(leaf, proof) <= texts && !CollisionIn(texts)
    ensures Fold(leaf, proof[..n + 1]) !in LeafRow(m)
  {
    if Fold(leaf, proof[..n + 1]) in LeafRow(m) {
      var i :| 0 <= i < |m| && LeafRow(m)[i] == Fold(leaf, proof[..n + 1]);
      LeafAt(m, i);
      var k := SortedKeys(m.Keys)[i];
      FoldSnoc(leaf, proof, n);
      FoldIsDigest(leaf, proof[..n]);
      var cur := Fold(leaf, proof[..n]);
      assert StepText(cur, proof[n]) in FoldTexts(leaf, proof);
      SameDigestSameText(StepText(cur, proof[n]), LeafText(k, m[k]), texts);
      if proof[n].onRight {
        LeafIsNotPair(k, m[k], cur, proof[n].hash);
      } else {
        StepAtBar(proof[n].hash, cur);
        LeafIsNotPair(k, m[k], BeforeBar(proof[n].hash), BehindBar(proof[n].hash, cur));
      }
    }
  }

  lemma {:induction false} LeafIsNotInner(key: string, value: string, row: seq<string>, i: nat, texts: set<string>)
    requires WellFormedKey(key) && LeafText(key, value) in texts
    requires row != [] && DigestRow(row) && DistinctRow(row)
    requires TreeTexts(row) <= texts && !CollisionIn(texts)
    requires 0 < i < |Levels(row)|
    ensures LeafHash(key, value) !in Levels(row)[i]
  {
    if LeafHash(key, value) in Levels(row)[i] {
      var j :| 0 <= j < |Levels(row)[i]| && Levels(row)[i][j] == LeafHash(key, value);
      InnerNode(row, i, j, texts);
      var l, r :| IsDigest(l) && PairText(l, r) in texts && Levels(row)[i][j] == Sha(PairText(l, r));
      SameDigestSameText(LeafText(key, value), PairText(l, r), texts);
      LeafIsNotPair(key, value, l, r);
    }
  }

  lemma LeafInRow(m: Entries, key: string, value: string, texts: set<string>)
    requires WellFormed(m) && WellFormedKey(key)
    requires LeafTexts(m) <= texts && LeafText(key, value) in texts && !CollisionIn(texts)
    requires LeafHash(key, value) in LeafRow(m)
    ensures key in m && m[key] == value
  {
    var i :| 0 <= i < |m| && LeafRow(m)[i] == LeafHash(key, value);
    LeafAt(m, i);
    var k := SortedKeys(m.Keys)[i];
    SameDigestSameText(LeafText(k, m[k]), LeafText(key, value), texts);
    FirstBar(k, m[k], key, value);
  }

  /** Every accepted proof ends with the digest of a text with a bar. */
  lemma LastStep(key: string, value: string, proof: seq<Sibling>) returns (left: string, right: string)
    ensures PairText(left, right) in VerificationTexts(key, value, proof)
    ensures Fold(LeafHash(key, value), proof) == Sha(PairText(left, right))
  {
    var leaf, n := LeafHash(key, value), |proof|;
    if n == 0 {
      left, right := key, value;
    } else {
      var s, cur := proof[n - 1], Fold(leaf, proof[..n - 1]);
      FoldSnoc(leaf, proof, n - 1);
      assert proof[..n] == proof;
      assert StepText(cur, s) in FoldTexts(leaf, proof);
      left, right := if s.onRight then cur else s.hash, if s.onRight then s.hash else cur;
    }
  }

  lemma {:induction false} EmptyMapProvesNothing(key: string, value: string, proof: seq<Sibling>, texts: set<string>)
    requires VerificationTexts(key, value, proof) <= texts && "" in texts && !CollisionIn(texts)
    ensures Fold(LeafHash(key, value), proof) != EMPTY_ROOT
  {
    hide Fold, FoldTexts, VerificationTexts, LeafText, CollisionIn;
    var left, right := LastStep(key, value, proof);
    if Fold(LeafHash(key, value), proof) == EMPTY_ROOT {
      SameDigestSameText("", PairText(left, right), texts);
    }
  }

  lemma {:induction false} SoundInTree(m: Entries, key: string, value: string, proof: seq<Sibling>, texts: set<string>)
    requires |m| > 0 && WellFormed(m) && WellFormedKey(key) && LeftSiblingsStartWithDigests(proof)
    requires MerkleTexts(m) + VerificationTexts(key, value, proof) <= texts && !CollisionIn(texts)
    requires Fold(LeafHash(key, value), proof) == Top(LeafRow(m))
    ensures key in m && m[key] == value
  {
    hide Top, Levels, LeafRow, TreeTexts, LeafTexts, FoldTexts, CollisionIn, WellFormed, WellFormedKey;
    var row, leaf := LeafRow(m), LeafHash(key, value);
    LeafRowDistinct(m, texts);
    var h, n := |Levels(row)| - 1, |proof|;
    FoldStaysInTree(row, leaf, proof, if h <= n then h else n, texts);
    if h < n {
      InnerStepIsNotLeaf(m, leaf, proof, n - h - 1, texts);
    } else {
      assert proof[..0] == [];
      if n < h {
        LeafIsNotInner(key, value, row, h - n, texts);
      } else {
        LeafInRow(m, key, value, texts);
      }
    }
  }

  /** Every accepted proof, however long and however obtained, is about an entry of the map,
      unless two of the texts hashed for the root and for the verification collide. */
  lemma {:induction false} ProofSoundness(m: Entries, key: string, value: string, proof: seq<Sibling>)
    requires WellFormed(m) && WellFormedKey(key) && LeftSiblingsStartWithDigests(proof)
    requires Fold(LeafHash(key, value), proof) == Root(m)
    ensures (key in m && m[key] == value)
         || CollisionIn(MerkleTexts(m) + VerificationTexts(key, value, proof))
  {
    var texts := MerkleTexts(m) + VerificationTexts(key, value, proof);
    if !CollisionIn(texts) {
      if |m| == 0 {
        EmptyMapProvesNothing(key, value, proof, texts);
      } else {
        SoundInTree(m, key, value, proof, texts);
      }
    }
  }

  /** Any other left sibling can be the last one of an accepted proof for a pair that the map
      does not hold: the part before its bar is taken as the only key, which is well formed, and
      the rest of the step's text as its value.  If the key of the pair is another one, it is not
      in the map at all; if it is that key, it has another value unless the given value itself
      ends with a digest made from it. */
  lemma {:induction false} LeftSiblingCounterexample(key: string, value: string, proof: seq<Sibling>, i: nat)
    requires i < |proof| && !proof[i].onRight && !IsDigest(BeforeBar(proof[i].hash))
    ensures var (only, behind) := (BeforeBar(proof[i].hash), BehindBar(proof[i].hash, Fold(LeafHash(key, value), proof[..i])));
            var m := map[only := behind];
            && WellFormed(m) && Fold(LeafHash(key, value), proof[..i + 1]) == Root(m)
            && (key in m && m[key] == value <==> key == only && value == behind)
  {
    var cur := Fold(LeafHash(key, value), proof[..i]);
    StepAtBar(proof[i].hash, cur);
    FoldSnoc(LeafHash(key, value), proof, i);
    SingletonRoot(BeforeBar(proof[i].hash), BehindBar(proof[i].hash, cur));
  }
}
