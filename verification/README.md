# A verified model of the kai-os state, sync, package, transport and health crates

The project models the stateful core of the `kai-os/` workspace in Dafny and proves what its
design promises. Methods with loops and classes with mutable fields follow the Rust code; each is
proved against a specification function, and the promises are lemmas about those functions.

- **Merkle root** (`Merkle`, `MerkleBinding`, `MerkleProofs`): what a state root binds, and what an
  inclusion proof proves.
- **Log and recovery** (`WalJson`, `WalCodec`, `WriteAheadLogs`, `LogReplay`, `WrittenLogs`,
  `LogBinding`, `FailedAppends`, `Persistence`, `PersistentStates`, `Recovery`,
  `RecoveryLosses`, `RecoveryRefinement`): append, replay of a log cut anywhere or left by any failed writes,
  checkpoint, and crash recovery over whole runs.
- **Blocks and snapshots** (`BlockSync`, `ChainAgreement`, `BlockBinding`, `Snapshots`,
  `SyncNodes`, `SyncRuns`, `SyncLosses`, `SyncRefinement`): the fork-rejecting engine, what a block hash binds,
  snapshot transfer, and the source and sink of the sync daemon.
- **Packages** (`Versions`, `Registries`, `Resolution`, `ResolutionFailures`, `PickChains`,
  `ReusedVersions`, `Publishing`): versions, immutable publishing, depth-first resolution,
  lockfiles.
- **Framing** (`Framing`, `Reassembly`): frames from a byte stream.
- **Audit, gateway, health** (`Audit`, `IpcGateways`, `Gossip`, `GossipConvergence`, `Watchdogs`).

## Conventions

- **Hash.** SHA-256 (section 6.2 of FIPS 180-4) is the constant `Hashing.hashFunction`, an
  arbitrary function whose outputs are 64 lower-case hexadecimal digits and whose value on the empty
  text is the documented constant. Injectivity is not assumed. A binding theorem says "equal, or two
  distinct texts of this set collide", where the set is the finite set of texts that were hashed in
  the computations at hand. (That a collision exists somewhere would say nothing: there are more
  texts than digests.)
- **JSON.** The log theorems hold for every codec with the properties in `WalCodec.IsCodec`.
  They include that no decoder accepts record texts, whole or cut, glued together on one line.
  `WalJson` writes out the compact text of serde_json for log records and proves that it has them.
  The codec in use may accept further texts. A snapshot file is what its reader makes of it: a
  snapshot, or nothing.
- **Keys.** A key is well formed if it holds no `|` and is not a digest. The code accepts every key;
  where a result needs well-formed keys, it says so.
- **Text.** A `String` is a sequence of Unicode characters; `BTreeMap` order is the order of
  characters, which is the order of their UTF-8 bytes.
- **Owned values.** A field that Rust clones or replaces as a whole is a value or a fresh object.
- **Induction.** Proofs by induction are written out and do not rely on automatic induction.
- **Outside world.** Failing appends, with any part of the line in the file, failing writes of the
  snapshot file, lost messages and crashes are parameters of the methods and steps of the runs.

## Where the code and its documentation differ

The model follows the code.

- The root binds a map only if keys hold no `|` and are not digests: leaf and inner texts share a
  format (`MerkleBinding.BarKeyAliases`, `MerkleBinding.DigestKeyAliases`).
- A torn last record is dropped by replay but stays in the file. The next append lands on its line,
  is reported as written and is lost; the one after it makes replay fail. Appending after reopening
  is safe exactly if the log ends behind a line break (`LogReplay.AppendAfterTear`,
  `LogReplay.AppendSurvivesIffWhole`).
- A handle whose append failed goes on with a raised sequence number and the old hash. If nothing or
  the whole line was written, its next record breaks the chain; if a part was written, its next
  record is silently lost (`FailedAppends.AppendAfterFailure`). What it appends is replayed exactly
  if none of its appends has failed (`FailedAppends.AppendsSurviveIffNoneFailed`).
- Replay after a crash therefore gives back every returned transaction only in careful runs: the log
  is written only if it ends behind a line break, and no process goes on after a failed append. The
  code enforces neither (`Recovery.LoggedIffWhole`, `Recovery.LostAfterFailure`).
- Recovery compares roots, not stores. In careful runs it restores the fold of the log if all keys are
  well formed (`Recovery.CrashRecovery`). For every two stores with one root, so for every key with a
  `|`, there is a careful run, without any collision needed, after which the disk reopens to the store
  of the older snapshot instead (`RecoveryLosses.LostIfRootsAgree`). `Recovery.RecoversIff` says
  exactly when a log and a snapshot file recover to the fold of the log.
- An acknowledged sync is on the sink's disk exactly if the log took the marker, or is torn and what
  survives of it recovers to the snapshot anyway (`SyncNodes.MarkedReopensIff`). The sink checks
  neither: it marks a torn log after a restart, and listens again after a failed append
  (`SyncLosses.LostOnTornLog`, `SyncLosses.LostAfterFailedMarker`).
- A synced state is never logged, so its disk needs the snapshot file and the marker as the last
  one. Losing the file loses the state (`SyncNodes.LostSnapshotReopensToLog`), and so does the next
  sync between its marker and its snapshot, although the old snapshot is intact
  (`SyncNodes.AckedStoreLasts`, `SyncLosses.LostBehindNextMarker`).
- A block hash binds the transactions exactly if there are none, or a single one with just the one
  equals sign it needs and no semicolon at which its text splits into transactions
  (`BlockBinding.BoundIff`); two or more are never bound. Among lists without separators in keys
  and values it tells them apart (`BlockBinding.SameTipSameCleanBlocks`).
- One tip hash means one state only if the keys are well formed (`ChainAgreement.SameTipOtherState`),
  and so does an accepted snapshot (`Snapshots.OtherStateAccepted`). Heights, hashes and roots agree
  for all keys; transactions need not (`BlockBinding.TwoChainsOneTip`).
- A second publish under one name and version with the same content but another manifest is accepted
  and ignored (`Publishing.OtherManifestIsIgnored`).
- Resolution reuses a resolved name without looking at the new requirement, so a plan may break a
  requirement that a published version would meet (`ReusedVersions.DiamondBreaksRequirement`).
  It does not if the requirements that picks lead to from the root agree on every name
  (`PickChains.MetByAgreement`); `ReusedVersions.MetExactlyIfReusesFit` says exactly when.
- `frame` does not look at `MAX_FRAME`: a longer payload is sent and then refused, and from 2^32 bytes
  on its length prefix is truncated (`Framing.FrameRoundTripIff`).
- The end of a stream is reported as `ClosedMidFrame` even between two frames.

## Model

| member | source | states |
|---|---|---|
| `Ordering.LessMeaning` | kai-os/state/src/merkle.rs:14-19 | in map order a text comes before another exactly if it is a proper beginning of it or has the smaller character where they first differ |
| `Merkle.ComputeLevels` | kai-os/state/src/merkle.rs:14-44 | the level loop builds the levels of the specification, the last node of an odd level paired with itself |
| `Merkle.NextLevel` | kai-os/state/src/merkle.rs:30-39 | one level from the one below, pair by pair |
| `Merkle.MerkleRoot` | kai-os/state/src/merkle.rs:47-56 | the root is the single node of the last level, or the constant for the empty map |
| `Merkle.RootMeaning` | kai-os/state/src/merkle.rs:10-56 | the root is the single node above levels that start with the digests of key, bar and value in ascending key order, and whose nodes are digests of two neighbours, left before right, or of the last one twice |
| `MerkleBinding.RootBinding` | kai-os/state/src/merkle.rs:10-56 | maps of any sizes with well-formed keys and equal roots are equal, or two of the texts hashed for the two roots collide |
| `MerkleBinding.UpInjective` | kai-os/state/src/merkle.rs:31-38 | odd duplication is not ambiguous: levels of distinct nodes with equal parents are equal |
| `MerkleBinding.EmptyRootBinds` | kai-os/state/src/merkle.rs:7-8 | no non-empty map has the root of the empty one, up to collision |
| `MerkleBinding.BarKeyAliases` | kai-os/state/src/merkle.rs:10-12 | every key with a separator shares its root with another one-entry map |
| `MerkleBinding.DigestKeyAliases` | kai-os/state/src/merkle.rs:31-38 | every map of two or more entries shares its root with a one-entry map whose key is a digest |
| `MerkleProofs.Prove` | kai-os/state/src/merkle.rs:65-83 | a proof is returned exactly for present keys, and it always folds to the root |
| `MerkleProofs.CollectSiblings` | kai-os/state/src/merkle.rs:67-81 | the sibling loop collects the proof of the specification |
| `MerkleProofs.VerifyProof` | kai-os/state/src/merkle.rs:86-96 | a proof is accepted exactly if folding it from the leaf gives the root |
| `MerkleProofs.ProofSoundness` | kai-os/state/src/merkle.rs:65-96 | in a map with well-formed keys, any accepted proof of any length, for a well-formed key and with a digest before the first bar of every left sibling, is about an entry of the map, up to collision |
| `MerkleProofs.LeftSiblingCounterexample` | kai-os/state/src/merkle.rs:88-94 | for every other left sibling, a well-formed one-entry map accepts the proof up to it for a pair that it does not hold unless key and value are the two parts of the step's text |
| `StateStores.StateStore.Apply` | kai-os/state/src/state.rs:23-32 | set and remove on the entries |
| `StateStores.StateStore.ApplyTxs` | kai-os/state/src/state.rs:34-38 | the loop applies all transactions in order |
| `StateStores.StateStore.StateRoot` | kai-os/state/src/state.rs:56-60 | the root of the current entries |
| `StateStores.RebuildEntryList` | kai-os/state/src/persistence.rs:36-45 | setting the entries of a map one by one rebuilds the map |
| `StateStores.EntryListMeaning` | kai-os/state/src/persistence.rs:36-45 | an entry list has every entry of the map, in ascending key order |
| `WalJson.ReadWrittenRecord` | kai-os/state/src/wal.rs:39-44 | reading a written record, whatever follows it, gives the record and the rest |
| `WalJson.OpJsonInjective` | kai-os/state/src/wal.rs:48-53 | distinct operations have distinct texts |
| `WalJson.EscapeMeaning` | kai-os/state/src/wal.rs:131-133 | characters print as themselves except quote, backslash and control characters, whose escapes hold no control character |
| `WalJson.OpTextMeaning` | kai-os/state/src/wal.rs:21-31 | the texts of the three operations on strings without escapes |
| `WalJson.RecordTextMeaning` | kai-os/state/src/wal.rs:39-44 | the text of a record: number, previous hash, operation |
| `WalJson.RecordOneLine` | kai-os/state/src/wal.rs:131-133 | a record text holds no line break |
| `WalJson.RecordPrefixFree` | kai-os/state/src/wal.rs:168-178 | no record text is a proper prefix of another |
| `WalJson.RecordNotGlued` | kai-os/state/src/wal.rs:168-178 | no record text ends with the beginning of another one behind other characters |
| `WalCodec.JsonCodec` | kai-os/state/src/wal.rs:131-178 | the compact JSON text is a codec the log can rely on: truncated records, and any number of records glued together, are rejected |
| `WriteAheadLogs.ReplayFile` | kai-os/state/src/wal.rs:155-199 | the replay loop, with blank lines, torn tail, malformed lines and both chain errors |
| `WriteAheadLogs.IsLastLine` | kai-os/state/src/wal.rs:210-216 | whether at most this many lines exist |
| `WriteAheadLogs.WriteAheadLog.Open` | kai-os/state/src/wal.rs:102-115 | the handle continues behind the last replayed record, and replay errors are passed on |
| `WriteAheadLogs.WriteAheadLog.AppendOp` | kai-os/state/src/wal.rs:123-137 | what reaches the file, and which fields change when the write or the sync fails |
| `LogReplay.ReplayWhole` | kai-os/state/src/wal.rs:155-199 | a log written by successful appends replays to exactly its operations |
| `LogReplay.LinesMeaning` | kai-os/state/src/wal.rs:162-163 | what a line is: a carriage return is dropped before a line break and kept at the end of the file |
| `WriteAheadLogs.WhitespaceList` | kai-os/state/src/wal.rs:165-167 | the 25 characters that make a line blank |
| `LogReplay.TornTail` | kai-os/state/src/wal.rs:123-137 | cut a written log after any number of characters: replay succeeds with exactly the complete records, their count and chain hash |
| `LogReplay.CompleteRecordsMeaning` | kai-os/state/src/wal.rs:168-178 | a record counts as complete exactly if its whole text lies before the cut |
| `LogReplay.AppendAfterTear` | kai-os/state/src/wal.rs:102-115 | the first append to a reopened torn log is lost, and after the second one replay fails |
| `LogReplay.AppendSurvivesIffWhole` | kai-os/state/src/wal.rs:102-137 | an append to a reopened cut log survives exactly if the log ends behind a line break |
| `WrittenLogs.WriteKeepsShape` | kai-os/state/src/wal.rs:123-137 | any part of a record line, written to any lines followed by any torn records, leaves such a log |
| `WrittenLogs.ReplayGarbledLine` | kai-os/state/src/wal.rs:168-178 | on any lines, a last line that does not decode is dropped, and makes replay fail once a line follows |
| `WrittenLogs.WriteToWhole` | kai-os/state/src/wal.rs:123-199 | what replay returns after any part of a record was written to any log that ends behind a line break, by any handle |
| `WrittenLogs.WriteToTorn` | kai-os/state/src/wal.rs:123-199 | on any torn log every write is dropped together with the torn line, and a whole line makes replay fail once a line follows |
| `WrittenLogs.AppendReplayedIff` | kai-os/state/src/wal.rs:123-199 | on any log and with any handle, an appended record is replayed behind all others exactly if the log is whole, reads to its end, and the handle stands behind it |
| `FailedAppends.LogTakesOnlyItsHandle` | kai-os/state/src/wal.rs:123-137 | on a log of successful appends, exactly the handle behind its last record can append |
| `FailedAppends.AppendAfterFailure` | kai-os/state/src/wal.rs:123-137 | after a failed append with nothing written the next one breaks the chain by its number, with a part written it is silently lost, with the whole line written but not synced it breaks the chain by its hash unless the hash repeats |
| `FailedAppends.TryAppend` | kai-os/state/src/wal.rs:123-137 | one append of a run: what it leaves of log and handle, and when it succeeds |
| `FailedAppends.AppendsSurviveIffNoneFailed` | kai-os/state/src/wal.rs:123-199 | after any appends by one handle, the next one is replayed with all of them exactly if none had failed, and otherwise its number is never reached, up to a chain hash that repeats |
| `LogBinding.AcceptedIsChain` | kai-os/state/src/wal.rs:155-199 | sequence number and tip of every accepted text are those of its operations |
| `LogBinding.LogBindingTheorem` | kai-os/state/src/wal.rs:46-56 | two accepted non-empty logs with one tip hash hold the same operations, up to collision |
| `LogBinding.TamperDetected` | kai-os/state/src/wal.rs:155-199 | replay of the text with any other characters in place of the line of any record but the last fails, unless they decode to the same record or two record texts collide |
| `Persistence.ToStore` | kai-os/state/src/persistence.rs:36-45 | rebuilding from the file gives its entries |
| `Persistence.LoadSnapshotStore` | kai-os/state/src/persistence.rs:69-80 | a store is returned exactly if the file is readable and its root is the stored one |
| `Persistence.LoadsIff` | kai-os/state/src/persistence.rs:69-80 | a file loads exactly if it holds the entries with their own root |
| `Persistence.SaveSnapshotStore` | kai-os/state/src/persistence.rs:49-66 | success exactly if the file was opened, written and read back; otherwise the file is as before, unreadable, or new |
| `PersistentStates.LastMarker` | kai-os/state/src/wal.rs:253-260 | the backward scan finds the place behind the last marker |
| `PersistentStates.RecoverStore` | kai-os/state/src/wal.rs:261-280 | snapshot and suffix if the roots agree, else all operations from an empty store |
| `PersistentStates.RecoverMeaning` | kai-os/state/src/wal.rs:252-280 | behind the last marker, a snapshot whose entries have its stored root and the marker's is the base of the later operations; in every other case all operations start from an empty store |
| `PersistentStates.PersistentState.Open` | kai-os/state/src/wal.rs:246-287 | opening yields the recovered store and the handle behind the log |
| `PersistentStates.PersistentState.Apply` | kai-os/state/src/wal.rs:290-294 | log first; the store changes only if the record reached the disk |
| `PersistentStates.PersistentState.Checkpoint` | kai-os/state/src/wal.rs:303-318 | marker with the store's root first, snapshot second; the disk and the handle after every failure of the two |
| `Recovery.RecoveryPathsAgree` | kai-os/state/src/wal.rs:252-280 | snapshot plus suffix equals replay from genesis, even if the snapshot is older than the last marker, unless a key is not well formed or two texts collide |
| `Recovery.FoldsAgreeIff` | kai-os/state/src/wal.rs:276-280 | two stores become equal under a list of operations exactly if they agree on every key it does not touch |
| `Recovery.RecoversIff` | kai-os/state/src/wal.rs:252-280 | for every log and snapshot file, recovery gives the fold of the log exactly if there is no marker, the snapshot is not taken, or it agrees with the store at the last marker on every key not touched behind it |
| `Recovery.InvariantStep` | kai-os/state/src/wal.rs:290-318 | every careful step of apply with any key, checkpoint, failing snapshot write, crash, torn write and reopen keeps the invariant |
| `Recovery.CrashRecovery` | kai-os/state/src/wal.rs:246-318 | at the end of every careful run, with any keys, reopening succeeds behind the last logged record and the log holds every transaction whose apply returned; the store is the fold of all logged transactions unless one of their keys is not well formed or two texts collide |
| `RecoveryLosses.LostIfRootsAgree` | kai-os/state/src/wal.rs:252-280 | for every two stores with one root, a careful run from an empty disk after which the disk reopens to the first although the log folds to the second |
| `RecoveryLosses.LostWithBarKey` | kai-os/state/src/wal.rs:252-280 | such a run for every key with a bar |
| `RecoveryLosses.LostWithDigestKey` | kai-os/state/src/wal.rs:252-280 | such a run for every store of two or more entries |
| `Recovery.LoggedIffWhole` | kai-os/state/src/wal.rs:290-294 | at the end of a careful run, what apply logs next is replayed exactly if the log ends behind a line break |
| `Recovery.LostAfterFailure` | kai-os/state/src/wal.rs:290-294 | if an append fails there and the process goes on, what apply logs next is not replayed under its number, unless the chain hash repeats |
| `Recovery.StopAfterFailure` | kai-os/state/src/wal.rs:123-137 | a process that stops after a failed append leaves the disk of a crash |
| `RecoveryRefinement.ApplyIsTwoSteps` | kai-os/state/src/wal.rs:290-294 | a successful apply is exactly the two steps of the runs, record first, and a failed one the failing append |
| `RecoveryRefinement.CheckpointIsTwoSteps` | kai-os/state/src/wal.rs:303-318 | a checkpoint is exactly the marker step followed by the good or bad end of the snapshot write, or a failing append |
| `RecoveryRefinement.OpenIsReopen` | kai-os/state/src/wal.rs:246-287 | opening is the reopen step of the runs |
| `BlockSync.SyncEngine.ApplyBlock` | kai-os/state/src/sync.rs:133-177 | the checks in order with their errors; any rejected block leaves the engine unchanged |
| `ChainAgreement.RunHolds` | kai-os/state/src/sync.rs:133-177 | in every run the applied heights are 1 to the tip, with the hashes of the accepted blocks, and the state is their fold |
| `ChainAgreement.VerdictInRun` | kai-os/state/src/sync.rs:135-170 | in every run each of the five answers to a block, with its values, is given exactly under its own condition on the accepted chain, and acceptance is continuing the chain |
| `ChainAgreement.SameTipSameChain` | kai-os/state/src/sync.rs:25-44 | with any keys, engines with one tip hash have the same height and known hashes and went through the same headers, up to a collision of blocks; their states agree wherever the keys of both are well formed, so the engines are equal if those of their last states are, up to collision |
| `ChainAgreement.SameTipOtherState` | kai-os/state/src/sync.rs:133-177 | for every two initial states with one root, two engines that accepted the same block and keep the two states |
| `ChainAgreement.SameTipWithBarKey` | kai-os/state/src/sync.rs:133-177 | such engines for every key with a bar |
| `BlockBinding.TxListsThatPrintAlike` | kai-os/state/src/sync.rs:26-39 | two different transaction lists with one block hash, for all keys and values |
| `BlockBinding.BoundIff` | kai-os/state/src/sync.rs:26-37 | no other list at all prints like a list exactly if it is empty or a single transaction with one equals sign whose text does not split |
| `BlockBinding.UnboundBlockHasTwin` | kai-os/state/src/sync.rs:26-39 | every other block shares its hash with a block of other transactions, acceptable or not |
| `BlockBinding.OtherBlockAcceptedIff` | kai-os/state/src/sync.rs:133-177 | in every run, another block is accepted under the hash of an acceptable one exactly if it differs in its transactions only, these print alike, and the state after them has the same root, up to collision |
| `BlockBinding.FirstDifference` | kai-os/state/src/sync.rs:25-44 | two chains from one state with one tip hash first differ in a block whose transactions print alike and lead to the same root, up to collision |
| `BlockBinding.TwoChainsOneTip` | kai-os/state/src/sync.rs:133-177 | in every run whose state lacks three keys, two blocks of different transactions are both acceptable and leave the same engine |
| `BlockBinding.SameTipSameBlocks` | kai-os/state/src/sync.rs:25-44 | a chain of bound lists has the blocks of every chain with its tip hash, up to collision |
| `BlockBinding.CleanListsPrintApart` | kai-os/state/src/sync.rs:26-37 | two lists without separators in their fields print differently |
| `BlockBinding.SameTipSameCleanBlocks` | kai-os/state/src/sync.rs:25-44 | two chains of such lists with one tip hash have the same blocks, up to collision |
| `Snapshots.ToState` | kai-os/state/src/snapshot.rs:78-87 | the entries are set in order, the last one winning |
| `Snapshots.TransferRoundTrip` | kai-os/state/src/snapshot.rs:19-30 | a snapshot gives back its state and is accepted against that state's root |
| `Snapshots.AcceptedIsTrusted` | kai-os/state/src/snapshot.rs:45-75 | any snapshot, sorted or not, is accepted exactly if its fields are right and it rebuilds to a state with the trusted root; with well-formed keys in both that is the trusted state, up to collision |
| `Snapshots.SnapshotAnswers` | kai-os/state/src/snapshot.rs:45-75 | the two errors with their values, height before roots and the claimed root before the trusted one |
| `Snapshots.OtherStateAccepted` | kai-os/state/src/snapshot.rs:45-75 | for every key with a bar, the snapshot of another state is accepted |
| `Snapshots.VerifyToStore` | kai-os/syncd/src/lib.rs:89-105 | a store is returned exactly if the root of the rebuilt entries is the declared one, and then it is the rebuilt store |
| `Snapshots.VerifiedIsDeclared` | kai-os/syncd/src/lib.rs:89-105 | a snapshot that declares the root of a trusted store is refused or rebuilds to that store, unless a key is not well formed or two texts collide |
| `SyncNodes.CheckpointedDiskReopens` | kai-os/state/src/wal.rs:303-318 | a disk with a final marker and its snapshot reopens to the snapshot, whatever the log says before |
| `SyncNodes.LostSnapshotReopensToLog` | kai-os/syncd/src/lib.rs:122-131 | without the snapshot file the same disk reopens to the fold of the log |
| `SyncNodes.MarkedReopensIff` | kai-os/state/src/wal.rs:246-318 | on any log and with any handle, the disk after marker and snapshot reopens to the store exactly if the log took the marker, or is torn and what survives recovers to the new snapshot |
| `SyncNodes.TornLogLosesStore` | kai-os/syncd/src/lib.rs:122-131 | on a torn log without markers the disk reopens to the fold of the log |
| `SyncNodes.StaleHandleLosesDisk` | kai-os/syncd/src/lib.rs:122-131 | with any handle that does not stand behind the log the disk does not open |
| `SyncNodes.NextMarkerHidesStore` | kai-os/syncd/src/lib.rs:122-131 | behind the marker of another store the disk reopens to the fold of the log, although the old snapshot is intact |
| `SyncNodes.AckedStoreLasts` | kai-os/syncd/src/lib.rs:122-131 | after any part of the next marker the disk still reopens to the store exactly if the text of the marker is not complete, the roots agree, or the operations alone make the store |
| `SyncNodes.PersistVerified` | kai-os/syncd/src/lib.rs:122-131 | a snapshot whose entries do not have the declared root changes nothing; the disk, store and handle after every failing write; success exactly if the root is right and no write fails, and then the disk reopens to the store exactly if the log kept the marker |
| `SyncNodes.ServeOneSync` | kai-os/syncd/src/bin/kai-sync-node.rs:154-187 | the accept loop goes on after every failure and acknowledges, with the root it declared, the first connection on which nothing fails; the disk reopens to the acknowledged store exactly if the log kept the marker, in particular if it was in order and no append failed |
| `SyncNodes.SyncWithRetry` | kai-os/syncd/src/bin/kai-sync-node.rs:114-135 | the retry loop of the source ends with the first attempt that brought back its own root, and without one only if none of them did |
| `SyncRuns.AckedReopensIff` | kai-os/syncd/src/bin/kai-sync-node.rs:170-185 | whenever an acknowledgement is sent, the disk reopens to the store with that root exactly if the log kept the marker |
| `SyncRuns.AckMeansDurable` | kai-os/syncd/src/lib.rs:107-154 | in every run with retries, foreign snapshots, failing writes and crashes, whenever an acknowledgement is sent the disk reopens to its store exactly if the log kept the marker; and an accepted one stands for the source's store, unless a key is not well formed or two texts collide |
| `SyncRuns.AckedIsDeclared` | kai-os/syncd/src/lib.rs:107-131 | in every run, an acknowledged root was declared by a message that was sent, the store is what its entries rebuild to, and it is the trusted store if the root is that store's, unless a key is not well formed or two texts collide |
| `SyncRuns.GivesUpAfterRetries` | kai-os/syncd/src/bin/kai-sync-node.rs:114-135 | in every run the source counts its failed attempts and gives up exactly with the last of one more than its retries |
| `SyncRefinement.PersistIsSteps` | kai-os/syncd/src/lib.rs:122-131 | persisting a received snapshot is exactly the steps of the runs, with each failing write |
| `SyncRefinement.SyncCompletes` | kai-os/syncd/src/lib.rs:107-154 | for every source and every disk that opens, a run in which the source is synced, with its store on the disk if the log took the marker |
| `SyncRuns.UndisturbedAcksReopen` | kai-os/syncd/src/bin/kai-sync-node.rs:154-187 | if the log was in order at first, no append failed and no crash tore one, every acknowledgement was sent from a disk that reopens to its store |
| `SyncRuns.AckedStoreLastsInRun` | kai-os/syncd/src/lib.rs:122-131 | an acknowledged store whose marker the log took lasts through failed and torn writes, crashes and reopening until another marker is written in full or the snapshot file changes |
| `SyncLosses.LostOnTornLog` | kai-os/syncd/src/bin/kai-sync-node.rs:154-187 | for every torn log without markers, a run that acknowledges a store its disk has lost |
| `SyncLosses.LostAfterFailedMarker` | kai-os/syncd/src/bin/kai-sync-node.rs:170-173 | for every log, a run that goes on after a failed append and acknowledges a store on a disk that does not open |
| `SyncLosses.LostBehindNextMarker` | kai-os/syncd/src/lib.rs:122-131 | for every log, a run in which the next sync crashes behind its marker and the acknowledged store is lost |
| `Versions.OrderIsNumeric` | kai-os/pkg/src/version.rs:6-11 | the order of versions is the order of one number, so it is total |
| `Versions.CaretIsInterval` | kai-os/pkg/src/version.rs:77-86 | a caret admits the versions from its own up to the next major |
| `Versions.VersionFromStr` | kai-os/pkg/src/version.rs:32-48 | the parse loop, with its two errors |
| `Versions.AcceptedVersions` | kai-os/pkg/src/version.rs:32-48 | accepted are exactly three u64 numerals between dots, plus signs and leading zeros included |
| `Versions.AcceptedReqs` | kai-os/pkg/src/version.rs:57-66 | which texts parse to which requirement |
| `Versions.RefusedVersions` | kai-os/pkg/src/version.rs:32-48 | a text without exactly two dots is refused as a whole, any other one by naming its first part that is no numeral |
| `Versions.RefusedReqs` | kai-os/pkg/src/version.rs:57-66 | a requirement is refused with the error of the version behind its caret, or of the whole text without one |
| `Versions.VersionRoundTrip` | kai-os/pkg/src/version.rs:51-55 | parsing a printed version gives it back |
| `Versions.ReqRoundTrip` | kai-os/pkg/src/version.rs:68-75 | parsing a printed requirement gives it back |
| `Registries.PkgRegistry.PublishRelease` | kai-os/pkg/src/registry.rs:70-91 | a publish succeeds exactly if afterwards the entry has the digest of its content; otherwise it is refused as a duplicate and changes nothing |
| `Registries.PublishAnswer` | kai-os/pkg/src/registry.rs:70-91 | a publish is refused exactly if the version is there with other content; the entry afterwards is the old one, or the new one if there was none, and no other entry changes |
| `Registries.BestMatch` | kai-os/pkg/src/registry.rs:94-101 | the highest published version that matches, or none if none matches |
| `Registries.HighestOf` | kai-os/pkg/src/registry.rs:104-106 | the highest published version |
| `Registries.PlanOf` | kai-os/pkg/src/registry.rs:118-120 | the plan lists the resolved packages in name order |
| `Registries.Resolver.Inner` | kai-os/pkg/src/registry.rs:123-168 | the recursive search with its mutable path and result map; the path is restored on success |
| `Registries.Resolve` | kai-os/pkg/src/registry.rs:112-121 | resolution from the highest version of the root |
| `Resolution.ResolutionSound` | kai-os/pkg/src/registry.rs:112-168 | a plan is sorted, backed by the registry, closed under dependencies and acyclic, the root is at its highest version, and every other version is the best match of some requirement of the plan |
| `Resolution.PicksAgree` | kai-os/pkg/src/registry.rs:136-154 | every requirement gets the version it picks exactly if all requirements on one name pick the same, and then all are met |
| `Resolution.LockIsSortedPlan` | kai-os/pkg/src/lockfile.rs:21-36 | the lock entries are those of the plan, sorted by name, for any plan |
| `Resolution.LockListsPlan` | kai-os/pkg/src/lockfile.rs:21-36 | a resolved plan is sorted already, so its lockfile lists it as it is |
| `Resolution.LockVerifies` | kai-os/pkg/src/lockfile.rs:48-55 | the lockfile of a resolved plan verifies |
| `Registries.VerifiesIff` | kai-os/pkg/src/lockfile.rs:48-55 | a lockfile verifies exactly if each entry is published with the integrity it lists |
| `ResolutionFailures.FailureHasWitness` | kai-os/pkg/src/registry.rs:112-154 | a cycle comes with a chain of picked dependencies from the root that returns to the name, a missing dependency with a chain to a requirement nothing matches, and poisoning means exactly that no version of the root is published |
| `ResolutionFailures.ResolvesWithoutWitness` | kai-os/pkg/src/registry.rs:112-168 | without such chains from the highest version of the root, resolution succeeds |
| `PickChains.PlanReachable` | kai-os/pkg/src/registry.rs:112-168 | every package of a plan is led to from the root by picked requirements |
| `PickChains.MetByAgreement` | kai-os/pkg/src/registry.rs:136-154 | every requirement of the plan gets the version it picks exactly if the requirements that picks lead to in the registry agree on every name, and then the plan meets all of them |
| `ReusedVersions.MetExactlyIfReusesFit` | kai-os/pkg/src/registry.rs:136-138 | a plan meets all its requirements exactly if every early return reused a fitting version |
| `ReusedVersions.DiamondBreaksRequirement` | kai-os/pkg/src/registry.rs:136-138 | a family of four published releases whose plan breaks a requirement although the version is published |
| `Publishing.FirstPublishWins` | kai-os/pkg/src/registry.rs:70-91 | every entry is that of the first release under its name and version |
| `Publishing.EntriesNeverChange` | kai-os/pkg/src/registry.rs:70-91 | no later publish changes an entry |
| `Publishing.LockStaysValid` | kai-os/pkg/src/lockfile.rs:48-55 | a lockfile keeps verifying under any later publishes |
| `Publishing.OrderDoesNotMatter` | kai-os/pkg/src/registry.rs:70-121 | consistent releases give one registry in any order and multiplicity |
| `Publishing.OrderMattersIffInconsistent` | kai-os/pkg/src/registry.rs:70-91 | some order gives another registry exactly if two releases under one name and version differ |
| `Publishing.OtherManifestIsIgnored` | kai-os/pkg/src/registry.rs:73-82 | a repeated publish with another manifest is answered as before and changes nothing |
| `Framing.BuildFrame` | kai-os/network/src/transport.rs:13-19 | length prefix, then payload |
| `Framing.ParsePrefix` | kai-os/network/src/transport.rs:22-43 | a frame with anything behind it parses to its payload, and every part of it is incomplete |
| `Framing.BigEndian` | kai-os/network/src/transport.rs:13-30 | the prefix is the length with the most significant byte first |
| `Framing.ParseAnswers` | kai-os/network/src/transport.rs:22-43 | each of the four answers of the parser, with its values, is given exactly under its own condition on the bytes |
| `Framing.FrameRoundTripIff` | kai-os/network/src/transport.rs:13-43 | a frame round-trips exactly up to `MAX_FRAME`; longer payloads are refused, or cut once the 32-bit length wraps |
| `Framing.ParsedIsFrame` | kai-os/network/src/transport.rs:22-43 | the consumed bytes are the frame of the returned payload |
| `Framing.TcpPeer.ReceiveFrame` | kai-os/network/src/tcp.rs:90-113 | the receive loop over buffer and reads, with its three errors |
| `Reassembly.ReceiveAnswers` | kai-os/network/src/tcp.rs:90-113 | a receive answers what the bytes of the stream say, however they are cut: the first payload, an oversized frame with its length, or the end of the stream; else a read failed |
| `Reassembly.StreamReassembly` | kai-os/network/src/tcp.rs:90-113 | however frames are split into reads, and with read errors in between, exactly the payloads come out in order |
| `Reassembly.NothingInvented` | kai-os/network/src/tcp.rs:90-113 | on every stream the returned payloads are the frames it starts with |
| `Reassembly.BufferBounded` | kai-os/network/src/tcp.rs:90-113 | on every stream the buffer holds at most `MAX_FRAME` + 8195 bytes until the first oversized frame |
| `Reassembly.PeakCovers` | kai-os/network/src/tcp.rs:90-113 | the peak that is bounded is at least the length of every buffer on the way |
| `Audit.AuditPipeline.RecordEvent` | kai-os/ai/src/audit.rs:29-46 | one chained event is appended |
| `Audit.AuditPipeline.Verify` | kai-os/ai/src/audit.rs:53-72 | the loop returns whether every event is right in its place |
| `Audit.RecordVerifies` | kai-os/ai/src/audit.rs:29-72 | recording keeps a verifying log verifying |
| `Audit.LastHashBindsLog` | kai-os/ai/src/audit.rs:29-72 | verifying logs with one last hash have one length and say the same everywhere, and are equal if actors and kinds hold no separator, up to collision |
| `IpcGateways.IpcGateway.RegisterAgent` | kai-os/ai/src/ipc.rs:85-92 | capabilities are replaced, the sequence number is kept, one event is recorded |
| `IpcGateways.IpcGateway.CheckRequired` | kai-os/ai/src/ipc.rs:99-114 | the first missing field of the schema is reported |
| `IpcGateways.IpcGateway.DeliverMessage` | kai-os/ai/src/ipc.rs:118-167 | a message is accepted exactly if its agent is registered for its type, its number is greater than the last one and it has the fields of its type; a rejected one changes nothing but the audit log |
| `IpcGateways.RejectionReasons` | kai-os/ai/src/ipc.rs:118-158 | each of the four errors, with its values and audit kind, is given exactly if its check fails and the earlier ones pass |
| `IpcGateways.SchemaMeaning` | kai-os/ai/src/ipc.rs:99-114 | the fields of the four known types, and which field a violation names |
| `IpcGateways.DeliverChanges` | kai-os/ai/src/ipc.rs:118-167 | what a delivery changes, and the one event it adds |
| `IpcGateways.AcceptedExactlyIf` | kai-os/ai/src/ipc.rs:85-167 | over whole runs, a delivery is accepted exactly if the agent's last registration lists its type, its number is positive and above all accepted before, and its fields are there |
| `IpcGateways.OneEventPerCall` | kai-os/ai/src/ipc.rs:85-167 | in every run the log has one event a call and verifies |
| `IpcGateways.AcceptedIncrease` | kai-os/ai/src/ipc.rs:140-149 | accepted sequence numbers of an agent strictly increase, re-registration included |
| `IpcGateways.AcceptedIsAudited` | kai-os/ai/src/ipc.rs:159-166 | an accepted message stands in the log at its place |
| `Gossip.HealthGossip.MergeRemote` | kai-os/health/src/gossip.rs:57-70 | the merge loop; the number returned counts the entries that are later than the one held and all before them on their node |
| `Gossip.HealthGossip.ConsensusView` | kai-os/health/src/gossip.rs:82-101 | the result is a report on the node, no report has a greater tick, and among those of its tick it is dead if any is and healthy only if all are; there is none only without reports |
| `GossipConvergence.FirstLatestMeaning` | kai-os/health/src/gossip.rs:60-68 | no received entry is later, and every earlier one is older |
| `GossipConvergence.SlotHoldsFirstLatest` | kai-os/health/src/gossip.rs:57-70 | after every run of merges a slot holds the first entry received with the greatest tick |
| `GossipConvergence.OrderMattersIffTie` | kai-os/health/src/gossip.rs:60-68 | order matters exactly if two different entries tie at the greatest tick |
| `GossipConvergence.GossipConverges` | kai-os/health/src/gossip.rs:57-78 | the same reports in any grouping, order and multiplicity give the same slots |
| `GossipConvergence.ConsensusConverges` | kai-os/health/src/gossip.rs:82-121 | the consensus view is unique and the same on both nodes |
| `Watchdogs.Watchdog.RegisterService` | kai-os/health/src/watchdog.rs:72-92 | a new service runs from the current tick; a duplicate is refused |
| `Watchdogs.Watchdog.ReceiveHeartbeat` | kai-os/health/src/watchdog.rs:96-112 | a heartbeat heals all but dead services |
| `Watchdogs.Watchdog.AdvanceTick` | kai-os/health/src/watchdog.rs:116-128 | the loop reassesses every service once |
| `Watchdogs.Watchdog.RestartService` | kai-os/health/src/watchdog.rs:154-169 | only a dead service is restarted |
| `Watchdogs.WatchdogRefines` | kai-os/health/src/watchdog.rs:72-169 | in every run the stored state is the closed form of the missed ticks, and restarts plus one if dead is the number of deaths |
| `Watchdogs.VerdictsInRun` | kai-os/health/src/watchdog.rs:72-169 | in every run each answer to a registration, heartbeat or restart is given exactly under its condition on the missed ticks, and a restart returns the number of deaths |

## Left out

- Recovery.CrashRecovery: promised for careful runs only, and for the store with well-formed keys only, since it fails otherwise; what the first careless step leads to is stated for apply.
- SyncRuns.AckMeansDurable: the source's own crashes are not steps; between attempts its store does not change, and `Recovery.CrashRecovery` covers its disk.
- SyncNodes.PersistVerified: the log may be any lines followed by any torn records, which is what appending leaves; a last line of other origin is not covered.
- LogReplay.TornTail: a cut inside a multi-byte character makes the line reader fail with an I/O error; cuts are between characters.
- Integer width: sequence numbers, heights, ticks and counters are unbounded; reaching 2^64 is not modelled, nor the sum of two watchdog limits beyond it. Version numbers are u64 with overflow rejected.
- `load_snapshot_store` slices the stored root in its error message and would panic on a root shorter than 16 bytes; the model reports the error.
- The JSON of snapshot files and network messages, and texts that serde_json accepts beyond its own output, are abstract.
- SHA-256 itself, Ed25519, keyring, sessions, peers and upgrade handshakes.
- `observe` of the gossip state overwrites freely and has no convergence law.
- `snapshot_id`, `to_text`, `integrity` display, error texts other than those of version parsing, `deterministic_txs`, argument parsing, timeouts and process exit.
- Node lifecycle, supervisor, runtime, model registry, proposals, verified cache, CLI and integration crates.
- Nothing was executed.
