/** The key-value state of kai-os/state/src/state.rs. */
module StateStores {
  import opened Ordering
  import opened Merkle

  datatype Tx = SetTx(key: string, value: string) | RemoveTx(key: string)

  function ApplyTx(entries: Entries, tx: Tx): Entries {
    match tx
    case SetTx(key, value) => entries[key := value]
    case RemoveTx(key) => entries - {key}
  }

  function ApplyAll(entries: Entries, txs: seq<Tx>): Entries {
    if txs == [] then entries
    else ApplyTx(ApplyAll(entries, txs[..|txs| - 1]), txs[|txs| - 1])
  }

  // ---------- entry lists ----------

  function PairsOf(m: Entries, keys: seq<string>): (list: seq<(string, string)>)
    requires forall k :: k in keys ==> k in m
    ensures |list| == |keys|
    ensures forall i :: 0 <= i < |keys| ==> list[i] == (keys[i], m[keys[i]])
  {
    if keys == [] then []
    else PairsOf(m, keys[..|keys| - 1]) + [(keys[|keys| - 1], m[keys[|keys| - 1]])]
  }

  /** The entries in iteration order. */
  function EntryList(m: Entries): (list: seq<(string, string)>)
    ensures |list| == |m|
  {
    PairsOf(m, SortedKeys(m.Keys))
  }

  /** The store after one `Set` for each pair in turn; a repeated key keeps its last value. */
  function Rebuild(list: seq<(string, string)>): Entries {
    if list == [] then map[]
    else Rebuild(list[..|list| - 1])[list[|list| - 1].0 := list[|list| - 1].1]
  }

  /** `part` is `m` on the keys of `keys` and nothing else. */
  ghost predicate IsPart(part: Entries, m: Entries, keys: seq<string>) {
    && (forall k :: k in part <==> k in keys)
    && (forall k :: k in part ==> k in m && part[k] == m[k])
  }

  lemma PartStep(part: Entries, m: Entries, keys: seq<string>, k: string)
    requires IsPart(part, m, keys) && k in m
    ensures IsPart(part[k := m[k]], m, keys + [k])
  {
  }

  lemma {:induction false} RebuildPairs(m: Entries, keys: seq<string>)
    requires forall k :: k in keys ==> k in m
    ensures IsPart(Rebuild(PairsOf(m, keys)), m, keys)
  {
    if keys != [] {
      var init, last := keys[..|keys| - 1], keys[|keys| - 1];
      RebuildPairs(m, init);
      PartStep(Rebuild(PairsOf(m, init)), m, init, last);
      assert PairsOf(m, keys)[..|keys| - 1] == PairsOf(m, init);
      assert init + [last] == keys;
    }
  }

  lemma {:induction false} RebuildEntryList(m: Entries)
    ensures Rebuild(EntryList(m)) == m
  {
    RebuildPairs(m, SortedKeys(m.Keys));
    assert Rebuild(EntryList(m)).Keys == m.Keys;
  }

  /** The entries of the map, each once, every key before the greater ones. */
  lemma {:induction false} EntryListMeaning(m: Entries)
    ensures var list := EntryList(m);
            && (forall k, v :: (k, v) in list <==> k in m && m[k] == v)
            && forall i, j :: 0 <= i < j < |list| ==> Before(list[i].0, list[j].0)
  {
    hide PairsOf, Before, Less;
    var keys, list := SortedKeys(m.Keys), EntryList(m);
    forall k, v | k in m && m[k] == v
      ensures (k, v) in list
    {
      assert k in keys;
      var i :| 0 <= i < |keys| && keys[i] == k;
      assert list[i] == (k, v);
    }
    forall i, j | 0 <= i < j < |list|
      ensures Before(list[i].0, list[j].0)
    {
      LessMeaning(keys[i], keys[j]);
    }
  }

  method RebuildStore(list: seq<(string, string)>) returns (store: StateStore)
    ensures fresh(store) && store.entries == Rebuild(list)
  {
    store := new StateStore();
    for i := 0 to |list|
      invariant fresh(store) && store.entries == Rebuild(list[..i])
    {
      store.Apply(SetTx(list[i].0, list[i].1));
      assert list[..i + 1][..i] == list[..i];
    }
    assert list[..|list|] == list;
  }

  class StateStore {
    var entries: Entries

    constructor ()
      ensures entries == map[]
    {
      entries := map[];
    }

    constructor Clone(other: StateStore)
      ensures entries == other.entries
    {
      entries := other.entries;
    }

    method Apply(tx: Tx)
      modifies this
      ensures entries == ApplyTx(old(entries), tx)
    {
      match tx
      case SetTx(key, value) => entries := entries[key := value];
      case RemoveTx(key) => entries := entries - {key};
    }

    method ApplyTxs(txs: seq<Tx>)
      modifies this
      ensures entries == ApplyAll(old(entries), txs)
    {
      for i := 0 to |txs|
        invariant entries == ApplyAll(old(entries), txs[..i])
      {
        assert txs[..i + 1][..i] == txs[..i];
        Apply(txs[i]);
      }
      assert txs[..|txs|] == txs;
    }

    method StateRoot() returns (root: string)
      ensures root == Root(entries)
    {
      root := MerkleRoot(entries);
    }
  }
}
