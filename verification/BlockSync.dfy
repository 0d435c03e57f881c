/** The fork-rejecting block engine of kai-os/state/src/sync.rs. */
module BlockSync {
  import opened Results
  import opened Hashing
  import opened Texts
  import opened Decimal
  import opened Merkle
  import opened StateStores

  datatype Block = Block(height: nat, prevHash: string, txs: seq<Tx>, stateRoot: string)

  function TxText(tx: Tx): string {
    match tx
    case SetTx(key, value) => "set:" + (key + "=" + value)
    case RemoveTx(key) => "rm:" + key
  }

  /** The transaction texts joined with semicolons. */
  function JoinTxs(txs: seq<Tx>): string {
    if txs == [] then ""
    else if |txs| == 1 then TxText(txs[0])
    else TxText(txs[0]) + ";" + JoinTxs(txs[1..])
  }

  function BlockText(b: Block): string {
    PairText(Show(b.height), PairText(b.prevHash, PairText(JoinTxs(b.txs), b.stateRoot)))
  }

  function BlockHash(b: Block): string {
    Sha(BlockText(b))
  }

  datatype SyncError =
    | HeightGap(expected: nat, got: nat)
    | Duplicate(height: nat)
    | Fork(height: nat, known: string, offered: string)
    | PrevMismatch(expectedHash: string, offered: string)
    | RootMismatch(claimed: string, computed: string)
    | SnapshotHeightMismatch(expected: nat, got: nat)
    | SnapshotRootMismatch(claimed: string, computed: string)

  datatype Engine = Engine(tipHeight: nat, tipHash: string, applied: map<nat, string>, state: Entries)

  function NewEngine(state: Entries): Engine {
    Engine(0, GENESIS_PREV, map[], state)
  }

  function Check(e: Engine, b: Block): Option<SyncError> {
    if b.height in e.applied then
      if e.applied[b.height] != BlockHash(b)
      then Some(Fork(b.height, e.applied[b.height], BlockHash(b)))
      else Some(Duplicate(b.height))
    else if b.height != e.tipHeight + 1 then Some(HeightGap(e.tipHeight + 1, b.height))
    else if b.prevHash != e.tipHash then Some(PrevMismatch(e.tipHash, b.prevHash))
    else
      var computed := Root(ApplyAll(e.state, b.txs));
      if computed != b.stateRoot then Some(RootMismatch(b.stateRoot, computed)) else None
  }

  /** The engine after one offered block: unchanged unless the block passes every check. */
  function Offer(e: Engine, b: Block): Engine {
    if Check(e, b).Some? then e
    else Engine(b.height, BlockHash(b), e.applied[b.height := BlockHash(b)], ApplyAll(e.state, b.txs))
  }

  class SyncEngine {
    var tipHeight: nat
    var tipBlockHash: string
    var applied: map<nat, string>
    var state: StateStore

    constructor (state: StateStore)
      ensures State() == NewEngine(state.entries) && this.state == state
    {
      this.tipHeight := 0;
      this.tipBlockHash := GENESIS_PREV;
      this.applied := map[];
      this.state := state;
    }

    function State(): Engine
      reads this, state
    {
      Engine(tipHeight, tipBlockHash, applied, state.entries)
    }

    method ApplyBlock(block: Block) returns (r: Result<string, SyncError>)
      modifies this
      ensures State() == Offer(old(State()), block)
      ensures r == match Check(old(State()), block)
                   case Some(e) => Err(e)
                   case None => Ok(BlockHash(block))
      ensures r.Err? ==> state == old(state)
    {
      if block.height in applied {
        var known := applied[block.height];
        if known != BlockHash(block) {
          return Err(Fork(block.height, known, BlockHash(block)));
        }
        return Err(Duplicate(block.height));
      }
      if block.height != tipHeight + 1 {
        return Err(HeightGap(tipHeight + 1, block.height));
      }
      if block.prevHash != tipBlockHash {
        return Err(PrevMismatch(tipBlockHash, block.prevHash));
      }
      var scratch := new StateStore.Clone(state);
      scratch.ApplyTxs(block.txs);
      var computed := scratch.StateRoot();
      if computed != block.stateRoot {
        return Err(RootMismatch(block.stateRoot, computed));
      }
      state := scratch;
      tipHeight := block.height;
      tipBlockHash := BlockHash(block);
      applied := applied[block.height := BlockHash(block)];
      return Ok(tipBlockHash);
    }
  }
}
