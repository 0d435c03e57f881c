/** What the root binds: the whole map, keys and values, whatever the two sizes are. */
module MerkleBinding {
  import opened Hashing
  import opened Texts
  import opened Ordering
  import opened Merkle

  // ---------- the texts a root computation hashes ----------

  ghost function RowTexts(row: seq<string>): set<string> {
    set i | 0 <= i < (|row| + 1) / 2 :: RowText(row, i)
  }

  ghost function TreeTexts(row: seq<string>): set<string>
    decreases |row|
  {
    if |row| <= 1 then {} else RowTexts(row) + TreeTexts(Up(row))
  }

  ghost function LeafTexts(entries: Entries): set<string> {
    set k | k in entries :: LeafText(k, entries[k])
  }

  ghost function MerkleTexts(entries: Entries): set<string> {
    if |entries| == 0 then {""} else LeafTexts(entries) + TreeTexts(LeafRow(entries))
  }

  /** Leaf texts and inner texts share the format `left|right`, so a key is unambiguous only
      if it holds no separator and cannot be mistaken for a digest. */
  predicate WellFormedKey(key: string) {
    '|' !in key && !IsDigest(key)
  }

  predicate WellFormed(entries: Entries) {
    forall k :: k in entries ==> WellFormedKey(k)
  }

  lemma LeafIsNotPair(key: string, value: string, left: string, right: string)
    requires WellFormedKey(key) && IsDigest(left)
    ensures LeafText(key, value) != PairText(left, right)
  {
    DigestHasNoBar(left);
    if LeafText(key, value) == PairText(left, right) {
      FirstBar(key, value, left, right);
    }
  }

  // ---------- one level ----------

  ghost predicate DigestRow(row: seq<string>) {
    forall i :: 0 <= i < |row| ==> IsDigest(row[i])
  }

  ghost predicate DistinctRow(row: seq<string>) {
    forall i, j :: 0 <= i < j < |row| ==> row[i] != row[j]
  }

  lemma SameNode(a: seq<string>, b: seq<string>, i: nat, j: nat, texts: set<string>)
    requires DigestRow(a) && DigestRow(b) && 2 * i < |a| && 2 * j < |b|
    requires Up(a)[i] == Up(b)[j]
    requires RowTexts(a) <= texts && RowTexts(b) <= texts && !CollisionIn(texts)
    ensures a[2 * i] == b[2 * j]
    ensures (if 2 * i + 1 < |a| then a[2 * i + 1] else a[2 * i]) ==
            (if 2 * j + 1 < |b| then b[2 * j + 1] else b[2 * j])
  {
    assert RowText(a, i) in RowTexts(a) && RowText(b, j) in RowTexts(b);
    SameDigestSameText(RowText(a, i), RowText(b, j), texts);
    SplitAt(a[2 * i], if 2 * i + 1 < |a| then a[2 * i + 1] else a[2 * i],
            b[2 * j], if 2 * j + 1 < |b| then b[2 * j + 1] else b[2 * j]);
  }

  lemma UpDistinct(row: seq<string>, texts: set<string>)
    requires DigestRow(row) && DistinctRow(row)
    requires RowTexts(row) <= texts && !CollisionIn(texts)
    ensures DigestRow(Up(row)) && DistinctRow(Up(row))
  {
    var up := Up(row);
    forall i, j | 0 <= i < j < |up|
      ensures up[i] != up[j]
    {
      if up[i] == up[j] { SameNode(row, row, i, j, texts); }
    }
  }

  /** Equal parents have equal children; duplicating an odd last node is not ambiguous,
      because the nodes of a level are distinct. */
  lemma {:induction false} UpInjective(a: seq<string>, b: seq<string>, texts: set<string>)
    requires DigestRow(a) && DigestRow(b) && DistinctRow(a) && DistinctRow(b)
    requires RowTexts(a) <= texts && RowTexts(b) <= texts && !CollisionIn(texts)
    requires Up(a) == Up(b)
    ensures a == b
  {
    forall i | 0 <= i < |Up(a)|
      ensures a[2 * i] == b[2 * i]
      ensures (if 2 * i + 1 < |a| then a[2 * i + 1] else a[2 * i]) ==
              (if 2 * i + 1 < |b| then b[2 * i + 1] else b[2 * i])
    {
      SameNode(a, b, i, i, texts);
    }
    if a != [] {
      var last := |Up(a)| - 1;
      assert |a| == |b| by {
        assert a[2 * last] == b[2 * last];
      }
    }
    forall k | 0 <= k < |a|
      ensures a[k] == b[k]
    {
      assert k == 2 * (k / 2) || k == 2 * (k / 2) + 1;
      assert a[2 * (k / 2)] == b[2 * (k / 2)];
    }
  }

  // ---------- whole trees ----------

  lemma {:induction false} LevelTexts(row: seq<string>, i: nat)
    requires i < |Levels(row)| - 1
    ensures RowTexts(Levels(row)[i]) <= TreeTexts(row)
    decreases |row|
  {
    if i > 0 { LevelTexts(Up(row), i - 1); }
  }

  lemma {:induction false} LevelDistinct(row: seq<string>, i: nat, texts: set<string>)
    requires row != [] && DigestRow(row) && DistinctRow(row)
    requires i < |Levels(row)|
    requires TreeTexts(row) <= texts && !CollisionIn(texts)
    ensures DigestRow(Levels(row)[i]) && DistinctRow(Levels(row)[i])
    decreases |row|
  {
    if i > 0 {
      UpDistinct(row, texts);
      LevelDistinct(Up(row), i - 1, texts);
    }
  }

  /** Two trees with one root agree level by level, counted from the root. */
  lemma {:induction false} LevelsAgree(a: seq<string>, b: seq<string>, j: nat, texts: set<string>)
    requires a != [] && b != []
    requires DigestRow(a) && DistinctRow(a) && DigestRow(b) && DistinctRow(b)
    requires TreeTexts(a) <= texts && TreeTexts(b) <= texts && !CollisionIn(texts)
    requires Top(a) == Top(b)
    requires j < |Levels(a)| && j < |Levels(b)|
    ensures Levels(a)[|Levels(a)| - 1 - j] == Levels(b)[|Levels(b)| - 1 - j]
  {
    hide Levels, TreeTexts, RowTexts, Up, DigestRow, DistinctRow, CollisionIn;
    var la, lb := Levels(a), Levels(b);
    LevelsChain(a);
    LevelsChain(b);
    if j == 0 {
      assert la[|la| - 1] == [Top(a)] == lb[|lb| - 1];
    } else {
      LevelsAgree(a, b, j - 1, texts);
      var i, k := |la| - 1 - j, |lb| - 1 - j;
      assert la[i + 1] == Up(la[i]) && lb[k + 1] == Up(lb[k]);
      LevelTexts(a, i);
      LevelTexts(b, k);
      LevelDistinct(a, i, texts);
      LevelDistinct(b, k, texts);
      UpInjective(la[i], lb[k], texts);
    }
  }

  // ---------- leaves ----------

  lemma LeafAt(entries: Entries, i: nat)
    requires i < |entries|
    ensures SortedKeys(entries.Keys)[i] in entries
    ensures var k := SortedKeys(entries.Keys)[i];
            LeafRow(entries)[i] == LeafHash(k, entries[k]) && LeafText(k, entries[k]) in LeafTexts(entries)
  {
    assert SortedKeys(entries.Keys)[i] in SortedKeys(entries.Keys);
  }

  lemma {:induction false} SameLeaf(m: Entries, n: Entries, i: nat, j: nat, texts: set<string>)
    requires WellFormed(m) && WellFormed(n) && i < |m| && j < |n|
    requires LeafTexts(m) <= texts && LeafTexts(n) <= texts && !CollisionIn(texts)
    requires LeafRow(m)[i] == LeafRow(n)[j]
    ensures SortedKeys(m.Keys)[i] == SortedKeys(n.Keys)[j]
    ensures SortedKeys(m.Keys)[i] in m && SortedKeys(n.Keys)[j] in n
    ensures m[SortedKeys(m.Keys)[i]] == n[SortedKeys(n.Keys)[j]]
  {
    LeafAt(m, i);
    LeafAt(n, j);
    var k, l := SortedKeys(m.Keys)[i], SortedKeys(n.Keys)[j];
    SameDigestSameText(LeafText(k, m[k]), LeafText(l, n[l]), texts);
    FirstBar(k, m[k], l, n[l]);
  }

  lemma {:induction false} LeafRowDistinct(m: Entries, texts: set<string>)
    requires WellFormed(m) && LeafTexts(m) <= texts && !CollisionIn(texts)
    ensures DigestRow(LeafRow(m)) && DistinctRow(LeafRow(m))
  {
    var row := LeafRow(m);
    forall i | 0 <= i < |row| ensures IsDigest(row[i]) { LeafAt(m, i); }
    forall i, j | 0 <= i < j < |row|
      ensures row[i] != row[j]
    {
      if row[i] == row[j] {
        SameLeaf(m, m, i, j, texts);
        AscendingDistinct(SortedKeys(m.Keys), i, j);
      }
    }
  }

  lemma SameRowSameMap(m: Entries, n: Entries, texts: set<string>)
    requires WellFormed(m) && WellFormed(n)
    requires LeafTexts(m) <= texts && LeafTexts(n) <= texts && !CollisionIn(texts)
    requires LeafRow(m) == LeafRow(n)
    ensures m == n
  {
    var km, kn := SortedKeys(m.Keys), SortedKeys(n.Keys);
    forall i | 0 <= i < |m|
      ensures km[i] == kn[i] && km[i] in m && kn[i] in n && m[km[i]] == n[kn[i]]
    {
      SameLeaf(m, n, i, i, texts);
    }
    assert km == kn;
    forall k ensures k in m <==> k in n {
      assert k in km <==> k in kn;
    }
    forall k | k in m
      ensures m[k] == n[k]
    {
      assert k in km;
    }
  }

  /** A level above the leaves consists of digests of pair texts. */
  lemma InnerNode(row: seq<string>, i: nat, j: nat, texts: set<string>)
    requires row != [] && DigestRow(row) && DistinctRow(row)
    requires TreeTexts(row) <= texts && !CollisionIn(texts)
    requires 0 < i < |Levels(row)| && j < |Levels(row)[i]|
    ensures exists l, r :: IsDigest(l) && PairText(l, r) in texts && Levels(row)[i][j] == Sha(PairText(l, r))
  {
    LevelsChain(row);
    var below := Levels(row)[i - 1];
    assert Levels(row)[i] == Up(below);
    LevelTexts(row, i - 1);
    LevelDistinct(row, i - 1, texts);
    assert RowText(below, j) in RowTexts(below);
    var l, r := below[2 * j], if 2 * j + 1 < |below| then below[2 * j + 1] else below[2 * j];
    assert PairText(l, r) == RowText(below, j);
  }

  /** A row of leaves is not a higher level of another tree. */
  lemma {:induction false} LeavesAreNotInner(m: Entries, row: seq<string>, i: nat, texts: set<string>)
    requires |m| > 0 && WellFormed(m) && LeafTexts(m) <= texts
    requires row != [] && DigestRow(row) && DistinctRow(row)
    requires TreeTexts(row) <= texts && !CollisionIn(texts)
    requires 0 < i < |Levels(row)|
    ensures LeafRow(m) != Levels(row)[i]
  {
    if LeafRow(m) == Levels(row)[i] {
      LeafAt(m, 0);
      InnerNode(row, i, 0, texts);
      var l, r :| IsDigest(l) && PairText(l, r) in texts && Levels(row)[i][0] == Sha(PairText(l, r));
      var k := SortedKeys(m.Keys)[0];
      SameDigestSameText(LeafText(k, m[k]), PairText(l, r), texts);
      LeafIsNotPair(k, m[k], l, r);
    }
  }

  lemma {:induction false} EmptyRootBinds(m: Entries, texts: set<string>)
    requires WellFormed(m) && |m| > 0
    requires MerkleTexts(m) <= texts && "" in texts && !CollisionIn(texts)
    ensures Root(m) != EMPTY_ROOT
  {
    var row := LeafRow(m);
    LeafRowDistinct(m, texts);
    LevelsChain(row);
    var top := |Levels(row)| - 1;
    if Root(m) == EMPTY_ROOT {
      if top == 0 {
        LeafAt(m, 0);
        SameDigestSameText("", LeafText(SortedKeys(m.Keys)[0], m[SortedKeys(m.Keys)[0]]), texts);
      } else {
        InnerNode(row, top, 0, texts);
        var l, r :| IsDigest(l) && PairText(l, r) in texts && Levels(row)[top][0] == Sha(PairText(l, r));
        SameDigestSameText("", PairText(l, r), texts);
      }
    }
  }

  lemma {:induction false} SameTopSameMap(m: Entries, n: Entries, texts: set<string>)
    requires WellFormed(m) && WellFormed(n) && |m| > 0 && |n| > 0
    requires MerkleTexts(m) <= texts && MerkleTexts(n) <= texts && !CollisionIn(texts)
    requires Top(LeafRow(m)) == Top(LeafRow(n))
    ensures m == n
  {
    hide Top, Levels, LeafRow, TreeTexts, LeafTexts, CollisionIn, WellFormed;
    var a, b := LeafRow(m), LeafRow(n);
    LeafRowDistinct(m, texts);
    LeafRowDistinct(n, texts);
    var h, k := |Levels(a)| - 1, |Levels(b)| - 1;
    LevelsAgree(a, b, if h <= k then h else k, texts);
    if h < k {
      LeavesAreNotInner(m, b, k - h, texts);
    } else if k < h {
      LeavesAreNotInner(n, a, h - k, texts);
    } else {
      SameRowSameMap(m, n, texts);
    }
  }

  /** Root binding: equal roots mean equal maps, unless two of the texts hashed on the way
      collide.  The sizes and heights of the two trees are arbitrary. */
  lemma {:induction false} RootBinding(m: Entries, n: Entries)
    requires WellFormed(m) && WellFormed(n)
    requires Root(m) == Root(n)
    ensures m == n || CollisionIn(MerkleTexts(m) + MerkleTexts(n))
  {
    var texts := MerkleTexts(m) + MerkleTexts(n);
    if !CollisionIn(texts) {
      if |m| > 0 && |n| > 0 {
        SameTopSameMap(m, n, texts);
      } else if |m| > 0 {
        EmptyRootBinds(m, texts);
      } else if |n| > 0 {
        EmptyRootBinds(n, texts);
      }
    }
  }

  // ---------- why keys must be well formed ----------

  /** A key with a separator: the part behind the separator may as well belong to the value. */
  lemma {:induction false} BarKeyAliases(key: string, value: string)
    requires '|' in key
    ensures exists k, v :: k != key && Root(map[k := v]) == Root(map[key := value])
  {
    var i :| 0 <= i < |key| && key[i] == '|';
    var k, v := key[..i], key[i + 1..] + "|" + value;
    MoveBar(key, value, i);
    SingletonRoot(k, v);
    SingletonRoot(key, value);
  }

  lemma MoveBar(key: string, value: string, i: nat)
    requires i < |key| && key[i] == '|'
    ensures LeafText(key[..i], key[i + 1..] + "|" + value) == LeafText(key, value)
  {
    assert key == key[..i] + "|" + key[i + 1..];
  }

  lemma SingletonRoot(k: string, v: string)
    ensures Root(map[k := v]) == LeafHash(k, v)
  {
    LeafAt(map[k := v], 0);
    assert |map[k := v]| == 1;
  }

  /** A key that is a digest: every map of two or more entries has the root of the one-entry
      map that takes the root's two children for a key and a value. */
  lemma {:induction false} DigestKeyAliases(m: Entries)
    requires |m| > 1
    ensures exists l, r :: IsDigest(l) && m != map[l := r] && Root(map[l := r]) == Root(m)
  {
    var l, r := TopChildren(LeafRow(m));
    forall i | 0 <= i < |m| ensures IsDigest(LeafRow(m)[i]) { LeafAt(m, i); }
    SingletonRoot(l, r);
    assert |map[l := r]| == 1;
  }

  lemma {:induction false} TopChildren(row: seq<string>) returns (l: string, r: string)
    requires |row| > 1
    ensures Top(row) == Sha(PairText(l, r))
    ensures DigestRow(row) ==> IsDigest(l)
    decreases |row|
  {
    if |row| == 2 {
      l, r := row[0], row[1];
      assert RowText(row, 0) == PairText(l, r);
    } else {
      l, r := TopChildren(Up(row));
    }
  }
}
