# StrongKV verification

A Dafny model of StrongKV, a replicated key-value store, and proofs about it. StrongKV leaves
consensus to NuRaft; what it has to get right itself is a crash-safe write-ahead log, a
deduplicating state machine with snapshots, batched writes and linearizable reads, and an
incremental RESP2 parser. NuRaft appears here only through what it promises: one committed log,
leaders whose logs hold every committed entry of an earlier term, and clocks, votes and contacts.
Each node's answers come out of a replica of the state machine and its result cache.

The project is layered as the program is:

| layer | modules |
|---|---|
| bytes, checksum, file formats | `Bytes`, `Fnv`, `BinaryCodec`, `CheckedRecord`, `WalFormat`, `KnownBytes` |
| write-ahead log | `SortedMap`, `Disk`, `LogModel`, `LogEffects`, `FileLogStore`, `LogPack` |
| state machine | `Decimal`, `Commands`, `KvApply`, `Answers`, `ResultCache`, `Ordering`, `KvStateCodec`, `KvStateMachine`, `Replicas`, `StateSize`, `Snapshots`, `SnapshotLimits` |
| protocol and client | `Resp`, `RespRoundTrip`, `RespGrammar`, `RespParser`, `CommandService`, `Client` |
| node and cluster | `Workers`, `WorkerOrder`, `Proposals`, `ReadLease`, `Cluster`, `LeaseCheck`, `LeaseAnomaly`, `EndToEnd` |

Code that changes state in place is a class or a method with its loop, proved against a function;
the theorems are about those functions, about step systems built from them, and about whole runs.
`Fault` has one constructor for each exception of the source. Check everything with
`dafny verify dfyconfig.toml`.

## Findings

Properties that do not hold of the code as it stands, each with its exact condition:

- **With lease reads on, reads are not linearizable.** A barrier read is answered from whatever its
  node has applied when the read worker gets to it. If the node has been deposed since its barrier
  was applied, it may answer from entries that the new leader has committed and not yet applied
  itself, and the new leader's lease check (`src/raft/raft_node.cpp:494-500`) only asks that it has
  applied its own first entry; a lease read there then goes back in time. The repository's
  documentation (`README.md:208`, `docs/design.md:147-150`) calls both kinds of read linearizable;
  the model follows the code. `LeaseAnomaly.LinearizableIffNoLeaseReads` is the exact condition: for
  every timing and field limit the configuration accepts, some run of at least three voters breaks
  real-time order if and only if lease reads are on. In the witness run
  (`LeaseAnomaly.LeaseReadGoesBack`) a quorum hears each leader before anything of its term is
  committed, the barrier is applied and its result collected before its leader is deposed, and the
  votes come a whole election lower bound later. `Cluster.RealTimeOrder` narrows the exception to
  such pairs of reads: writes are never missed (`Cluster.LeaseReadsFresh`).
- **`append` and `write_at` enter the entry in the index before the encoder can refuse it.** The
  store stays valid if and only if the serialized entry is 1 byte to 64 MiB
  (`FileLogStore.FileLogStore.Append`). After a refused entry the next append with nothing staged
  writes a frame that skips a slot, and the file does not load any more; with a batch staged the
  next append fails (`FileLogStore.AppendAfterRefusal`).
- **`apply_pack` accepts packs that make the log unloadable.** The rewritten file loads if and only
  if the index is positive and the pack, if it and the log are non-empty, does not start beyond the
  next slot (`FileLogStore.ApplyPackLoadsIff`, and of the store itself
  `FileLogStore.FileLogStore.ApplyPackAt`).
- **Writers have no limits where readers do.** A log image loads if and only if it is at most 4 GiB
  (`WalFormat.LoadWholeImage`), a checked record reads back if and only if it is within the
  reader's limit (`CheckedRecord.RoundTrip`), a state if and only if its item counts are within the
  decoder's (`KvStateCodec.StateRoundTrip`). So a restart fails if and only if a stored image is
  beyond those limits (`Snapshots.RestartExact`).

## Model

| member | source | states |
|---|---|---|
| `Fnv.Checksum` | src/common/binary_codec.cpp:129-139 | the accumulator loop computes 64-bit FNV-1a, defined by folding with exclusive-or over bits |
| `Fnv.AbsorbInjectiveInHash` | src/common/binary_codec.cpp:133-136 | one hashing step never merges two different hashes |
| `Fnv.AbsorbInjectiveInByte` | src/common/binary_codec.cpp:133-136 | one hashing step never merges two different bytes |
| `Fnv.SingleByteDetected` | src/common/binary_codec.cpp:129-139 | changing any one byte of any string changes its checksum |
| `Bytes.UnsignedOfBigEndian` | src/common/binary_codec.cpp:12-28 | reading back a big-endian integer of any width gives the value |
| `Bytes.BigEndianOfUnsigned` | src/common/binary_codec.cpp:73-99 | every byte string is the encoding of the integer it reads as |
| `BinaryCodec.BigEndianDigit` | src/common/binary_codec.cpp:12-28 | each byte written by shifting is the matching byte of the big-endian encoding |
| `BinaryCodec.BinaryWriter.PutUnsigned` | src/common/binary_codec.cpp:8-28 | the shifting loop appends exactly the big-endian encoding |
| `BinaryCodec.BinaryWriter.PutString` | src/common/binary_codec.cpp:44-50 | appends length and text, or refuses texts of 2^32 bytes or more and changes nothing |
| `BinaryCodec.BinaryReader.GetUnsigned` | src/common/binary_codec.cpp:68-99 | the shift-and-add loop splits off the integer, or fails on a short buffer |
| `BinaryCodec.BinaryReader.GetString` | src/common/binary_codec.cpp:104-114 | splits off a string within the limit, or fails |
| `BinaryCodec.TakeStringOfStringBytes` | src/common/binary_codec.cpp:44-50 | a stored string reads back if and only if it is within the reader's limit |
| `BinaryCodec.TakeStringInverse` | src/common/binary_codec.cpp:104-114 | what the reader accepts is what the writer writes |
| `KnownBytes.Checksums` | src/common/binary_codec.cpp:129-139 | the listed checksums of the empty text and of one letter |
| `KnownBytes.SetCommand` | src/state_machine/command.cpp:87-101 | the bytes of one command, written out |
| `KnownBytes.CounterResult` | src/state_machine/command.cpp:139-148 | the bytes of one result, written out |
| `KnownBytes.LogHeader` | src/storage/file_log_store.cpp:483-492 | the bytes of a log header, written out |
| `KnownBytes.LogFrame` | src/storage/file_log_store.cpp:494-514 | the bytes of a log frame, written out |
| `KnownBytes.Record` | src/storage/file_util.cpp:170-185 | the bytes of a checked record, written out |
| `KnownBytes.Replies` | src/protocol/resp.cpp:253-278 | the bytes of one reply of each kind, written out |
| `CheckedRecord.WriteRecord` | src/storage/file_util.cpp:170-185 | builds the record of any payload below 2^32 bytes |
| `CheckedRecord.ReadRecordBytes` | src/storage/file_util.cpp:187-220 | the reading steps give exactly the specified result or fault |
| `CheckedRecord.RoundTrip` | src/storage/file_util.cpp:170-220 | a written record reads back if and only if it is within the reader's limit |
| `CheckedRecord.AcceptedIsWritten` | src/storage/file_util.cpp:187-220 | an accepted file is byte for byte the record of its payload |
| `CheckedRecord.SingleByteCorruption` | src/storage/file_util.cpp:187-220 | changing any one byte of a readable record makes reading fail |
| `WalFormat.ScanFrames` | src/storage/file_log_store.cpp:421-471 | whole frames at the head are returned and what follows decides the rest |
| `WalFormat.LoadWholeImage` | src/storage/file_log_store.cpp:404-525 | an encoded log loads as exactly its entries, if and only if it is at most 4 GiB |
| `WalFormat.TornTail` | src/storage/file_log_store.cpp:404-481 | a log cut at any byte from the header on loads as the entries with complete frames, is truncated to their end, and loads the same again |
| `WalFormat.FrameCorruption` | src/storage/file_log_store.cpp:441-452 | one changed byte in a frame's body or checksum drops the last frame, or fails the load if the frame is not the last |
| `WalFormat.GapRejected` | src/storage/file_log_store.cpp:454-466 | a frame whose index does not continue the log makes the file unloadable, whatever follows |
| `WalFormat.LoadExact` | src/storage/file_log_store.cpp:404-481 | for any loadable file the bytes up to the truncation point are the image of what was loaded |
| `LogModel.StepInv` | src/storage/file_log_store.cpp:152-205 | every operation keeps: disk bytes, durable index and entries agree |
| `LogModel.CrashSafe` | src/storage/file_log_store.cpp:541-575 | a crash at any disk state an operation passes through, keeping any prefix of un-synced operations with the last write torn at any byte, leaves a file that loads and holds every durable entry the operation keeps |
| `LogModel.AfterKeeps` | src/storage/file_log_store.cpp:353-375 | a completed operation, or a crash in it followed by load, keeps the invariant and every durable entry not overwritten or discarded |
| `LogModel.DurableForever` | src/storage/file_log_store.cpp:348-375 | over every run of operations and crashes a durable entry stays, byte for byte, until its index is overwritten or discarded |
| `LogEffects.AppendHolds` | src/storage/file_log_store.cpp:152-162 | an append adds its entry at the next slot and nothing else |
| `LogEffects.WriteAtHolds` | src/storage/file_log_store.cpp:164-186 | an overwrite is accepted exactly for the log's indexes and the next slot; it puts its entry there, keeps everything below and nothing above |
| `LogEffects.CompactHolds` | src/storage/file_log_store.cpp:327-337 | compaction discards exactly the indexes up to the given one, and the start is the larger of the old start and the next index |
| `LogEffects.PackHolds` | src/storage/file_log_store.cpp:317-324 | a gap-free pack replaces exactly the indexes from its own on |
| `LogEffects.BatchAccepted` | src/storage/file_log_store.cpp:188-203 | a batch is refused, and changes nothing, exactly when something staged lies outside it |
| `LogEffects.BatchDurable` | src/storage/file_log_store.cpp:188-205 | after a completed batch the durable index is the last one and every crash leaves exactly the whole log |
| `LogEffects.FlushDurable` | src/storage/file_log_store.cpp:339-346 | so it does after a flush |
| `LogEffects.RewriteDurable` | src/storage/file_log_store.cpp:558-575 | and after compaction or a gap-free pack |
| `LogEffects.BatchedForever` | src/storage/file_log_store.cpp:152-205 | an appended entry covered by a completed batch is durable through every later run of operations and crashes, until its index is overwritten or discarded |
| `FileLogStore.LoadFrames` | src/storage/file_log_store.cpp:421-471 | the load loop returns exactly the scanned entries, where each frame starts, and the valid size |
| `FileLogStore.LoadingIsCrashSafe` | src/storage/file_log_store.cpp:473-480 | a crash while the torn tail is truncated leaves a file that loads as the same log |
| `FileLogStore.ApplyPackLoadsIff` | src/storage/file_log_store.cpp:317-324 | the rewritten file loads if and only if the pack was gap-free |
| `FileLogStore.RebuildOffsets` | src/storage/file_log_store.cpp:565-570 | recomputes each frame's offset, for any index in key order, as 24 plus the sizes of the earlier frames |
| `FileLogStore.EncodeEntries` | src/storage/file_log_store.cpp:516-525 | the encoding loop gives the file of any index in key order, or fails if one entry cannot be encoded |
| `FileLogStore.Open` | src/storage/file_log_store.cpp:353-375 | loading a file checks size, magic and header and runs the frame loop: it fails exactly as specified, and otherwise gives a valid store for exactly the loaded log |
| `FileLogStore.PlacePack` | src/storage/file_log_store.cpp:320-322 | inserts the decoded entries after the kept ones, gap or not |
| `FileLogStore.FileLogStore.constructor` | src/storage/file_log_store.cpp:353-375 | a missing file gives the empty log from index 1 |
| `FileLogStore.FileLogStore.Restore` | src/storage/file_log_store.cpp:473-480 | from the loaded log: a valid store for exactly it, the torn tail truncated and the truncation synced |
| `FileLogStore.FileLogStore.QueueEntry` | src/storage/file_log_store.cpp:527-539 | stages a frame, or reports a non-contiguous or unencodable entry |
| `FileLogStore.StagingAgrees` | src/storage/file_log_store.cpp:527-539 | where the indexes agree the non-contiguous error cannot occur, and after an unencodable entry they agree with no log at all |
| `FileLogStore.FileLogStore.SyncPending` | src/storage/file_log_store.cpp:541-556 | writes then syncs whatever is staged; in a valid store exactly the frames after the durable index |
| `FileLogStore.FileLogStore.Append` | src/storage/file_log_store.cpp:152-162 | from any state: the next slot, the entry index updated whatever staging answers; from a valid one it refines the append step, validity is kept if and only if the entry is encodable, and otherwise the indexes agree with no log |
| `FileLogStore.AppendAfterRefusal` | src/storage/file_log_store.cpp:152-162 | from a valid store, a refused append followed by an accepted one and a sync leaves a file that does not load; with a batch staged the second append reports a gap |
| `FileLogStore.FileLogStore.WriteEntryAt` | src/storage/file_log_store.cpp:164-186 | refines the overwrite step with its three errors and disk states |
| `FileLogStore.FileLogStore.TruncateFrom` | src/storage/file_log_store.cpp:605-619 | erases from an index on in both indexes and cuts the file at that entry's offset |
| `FileLogStore.FileLogStore.EndOfAppendBatch` | src/storage/file_log_store.cpp:188-205 | refuses a batch that does not cover what is staged; otherwise every entry is durable: the durable index is the last one and every crash leaves exactly the log |
| `FileLogStore.FileLogStore.FlushAll` | src/storage/file_log_store.cpp:339-346 | every entry is durable, whatever was staged |
| `FileLogStore.FileLogStore.Rewrite` | src/storage/file_log_store.cpp:558-575 | replaces the file by the encoding of any index, or fails before it; a contiguous one becomes the rewritten, durable log |
| `FileLogStore.FileLogStore.CompactThrough` | src/storage/file_log_store.cpp:327-337 | refines the compaction step: keeps exactly the entries above the index |
| `FileLogStore.FileLogStore.ApplyPackAt` | src/storage/file_log_store.cpp:317-324 | any pack: own entries below the index, then the pack; gap-free it refines the pack step, with a gap or index 0 the written file does not load, with an unencodable entry the file is not replaced |
| `LogPack.PackRange` | src/storage/file_log_store.cpp:256-289 | packs a range of the log, or reports a negative count, a missing entry or an entry of 2^31 bytes or more |
| `LogPack.UnpackEntries` | src/storage/file_log_store.cpp:291-315 | the decoding loop gives exactly the specified entries or fault |
| `LogPack.UnpackOfPack` | src/storage/file_log_store.cpp:256-315 | unpacking inverts packing |
| `LogPack.PackOfUnpack` | src/storage/file_log_store.cpp:291-315 | what is accepted is exactly a pack, with no byte over |
| `LogPack.PackTransfers` | src/storage/file_log_store.cpp:256-325 | a leader's packed range applied to a follower gives it the leader's entries in the range, its own below it and none above |
| `Decimal.ScanExact` | src/state_machine/kv_state_machine.cpp:226-238 | the guarded digit loop accepts exactly the digit strings whose value is within the limit |
| `Decimal.ParseInt64Text` | src/state_machine/kv_state_machine.cpp:207-251 | `parse_int64` as the optionally signed decimal strings whose value is an int64 |
| `Decimal.ParseOfPrint` | src/state_machine/kv_state_machine.cpp:207-251 | parsing inverts decimal printing on every int64 |
| `Decimal.PrintCanonical` | src/state_machine/kv_state_machine.cpp:190-198 | printed numbers have no leading zero |
| `Decimal.ParseRequestText` | src/server/command_service.cpp:26-51 | `parse_request_number` accepts exactly the positive 64-bit decimal strings |
| `Decimal.RequestNumberOfPrint` | src/server/command_service.cpp:26-51 | a printed id parses back |
| `Commands.EncodeCommandBytes` | src/state_machine/command.cpp:87-101 | writes the envelope, or refuses another version or an over-long field |
| `Commands.DecodeCommandBytes` | src/state_machine/command.cpp:103-127 | the reading steps give exactly the specified command or fault |
| `Commands.CommandRoundTrip` | src/state_machine/command.cpp:87-127 | decoding inverts encoding if and only if the fields are within the limit |
| `Commands.AcceptedCommand` | src/state_machine/command.cpp:103-127 | every accepted byte string is the encoding of its command, so the codec is a bijection |
| `Commands.ResultRoundTrip` | src/state_machine/command.cpp:139-174 | a result survives its envelope if and only if it is storable |
| `Commands.AcceptedResult` | src/state_machine/command.cpp:150-174 | every accepted envelope is the encoding of the storable result it decodes to |
| `KvApply.DedupIsFiltering` | src/state_machine/kv_state_machine.cpp:124-205 | the map is what the effective commands alone produce, and each dedup record holds its client's greatest id with the result of its one application |
| `KvApply.AtMostOnce` | src/state_machine/kv_state_machine.cpp:133-157 | no numbered request takes effect at two positions |
| `KvApply.LastWriteWins` | src/state_machine/kv_state_machine.cpp:160-205 | after any run a key holds what the last command touching it left: a SET's value, nothing after a DEL, and untouched keys are as they were |
| `KvApply.ReplicatedLastWrite` | src/state_machine/kv_state_machine.cpp:124-205 | over a deduplicated run the last effective SET or DEL of a key decides what it holds |
| `KvApply.BumpExact` | src/state_machine/kv_state_machine.cpp:173-198 | INCR and DECR succeed exactly when the value is an int64 with room, and otherwise change nothing |
| `KvApply.CounterConservation` | src/state_machine/kv_state_machine.cpp:173-198 | over any run a counter moves by exactly one per success, and an invalid value stays with no success |
| `KvApply.ReplicatedCounter` | src/state_machine/kv_state_machine.cpp:124-205 | over a deduplicated run the counter is the effective increments minus the effective decrements |
| `Answers.DelCounts` | src/state_machine/kv_state_machine.cpp:167-170 | DEL answers how many keys it removed and removes no other |
| `Answers.DelAnswers` | src/state_machine/kv_state_machine.cpp:167-170 | over a run, DEL answers one exactly when the last command that touched its key was not a DEL and there was one |
| `Answers.ReplicatedDelAnswers` | src/state_machine/kv_state_machine.cpp:124-170 | the same for an effective DEL of a deduplicated run |
| `Answers.PresentAfter` | src/state_machine/kv_state_machine.cpp:160-205 | a key is present exactly when the last command that touched it was not a DEL |
| `Answers.SetAnswers` | src/state_machine/kv_state_machine.cpp:160-166 | SET stores its value under its key; SET and the barrier answer OK with no payload |
| `Answers.BumpRefusals` | src/state_machine/kv_state_machine.cpp:173-198 | INCR and DECR answer not-an-integer exactly for texts that are no int64, overflow exactly at the bound of their direction, and otherwise the value one up or down |
| `Answers.ErrorsCarryText` | src/state_machine/command.cpp:74-80 | every answer of an applied command that is not OK carries a text and no number |
| `Answers.NumberedAnswers` | src/state_machine/kv_state_machine.cpp:133-157 | by the client's greatest id: zero is a bad command, below is stale, both without effect; the greatest is answered with its one application's result; above is applied and remembered |
| `Answers.AnonymousAnswers` | src/state_machine/kv_state_machine.cpp:124-132 | a write without a client id is always applied and never remembered, a barrier changes nothing |
| `Answers.UndecodableAnswers` | src/state_machine/kv_state_machine.cpp:97-107 | an entry that does not decode is answered as a bad command and changes only the index |
| `ResultCache.CacheBounded` | src/state_machine/kv_state_machine.cpp:108-114 | over any run with increasing indexes the cache holds at most 65,536 results, each committed under its own index |
| `ResultCache.HandedOutOnce` | src/state_machine/kv_state_machine.cpp:279-289 | a result handed out is the one of its index and is gone for good |
| `ResultCache.InstalledForgets` | src/state_machine/kv_state_machine.cpp:588-593 | installing a snapshot forgets every result |
| `ResultCache.UncollectedSurvives` | src/state_machine/kv_state_machine.cpp:108-114 | an uncollected result survives fewer than 65,536 later commits unless a snapshot is installed |
| `Replicas.CommitFaithful` | src/state_machine/kv_state_machine.cpp:81-122 | a commit keeps a replica on the replay of a prefix and caches the result of the command it applies under its index |
| `Replicas.CommitEntry` | src/state_machine/kv_state_machine.cpp:81-122 | committing the next entry of the log on the class is that step, and keeps it faithful to the log |
| `Replicas.OwnResultOnly` | src/state_machine/kv_state_machine.cpp:279-289 | over every run of commits, collected results and installed images, a result handed out for an index is the one application of the command at that index of the log |
| `Replicas.CollectTakes` | src/state_machine/kv_state_machine.cpp:279-289 | collecting a result removes it and no other |
| `Replicas.UncollectedHandedOut` | src/state_machine/kv_state_machine.cpp:108-114 | over every run, a committed command's own result is handed out while fewer than 65,536 commits follow, nobody collects it and no image is installed |
| `Ordering.ListingUnique` | src/state_machine/kv_state_machine.cpp:306-327 | a set of keys has only one listing in key order |
| `Ordering.LexLessMeans` | src/state_machine/kv_state_machine.cpp:312-325 | the order of keys: a proper prefix first, otherwise the first differing byte decides |
| `KvStateCodec.Canonical` | src/state_machine/kv_state_machine.cpp:306-327 | every well-formed state has exactly one image, so equal states serialize to identical bytes |
| `KvStateCodec.StateRoundTrip` | src/state_machine/kv_state_machine.cpp:306-369 | a well-formed state is read back if and only if its item counts are within the decoder's limits |
| `KvStateCodec.DecodedCountsFit` | src/state_machine/kv_state_machine.cpp:329-369 | whatever is decoded at all has item counts within the decoder's limits |
| `KvStateCodec.DeserializeBytes` | src/state_machine/kv_state_machine.cpp:329-369 | the reading loops give exactly the specified state or fault, duplicates and zero ids refused |
| `KvStateCodec.DecodeResultBytes` | src/state_machine/command.cpp:150-174 | the reading steps give exactly the specified result or fault |
| `KvStateMachine.SerializeState` | src/state_machine/kv_state_machine.cpp:306-327 | the writing loops produce the one image of the state |
| `KvStateMachine.ReplayIsFiltering` | src/state_machine/kv_state_machine.cpp:81-157 | for every committed log, undecodable and configuration entries included, the state is the effective commands applied without dedup |
| `KvStateMachine.CommitKeepsWellFormed` | src/state_machine/kv_state_machine.cpp:81-114 | every commit keeps field bounds, non-zero ids and storable results |
| `KvStateMachine.ReachableRoundTrip` | src/state_machine/kv_state_machine.cpp:306-369 | every reachable state survives serialization, if and only if its item counts fit |
| `KvStateMachine.KvStateMachine.Commit` | src/state_machine/kv_state_machine.cpp:81-114 | new state, result and cache of one committed entry, decodable or not |
| `KvStateMachine.KvStateMachine.CommitConfig` | src/state_machine/kv_state_machine.cpp:116-122 | advances the index only |
| `KvStateMachine.KvStateMachine.ApplyCommand` | src/state_machine/kv_state_machine.cpp:124-158 | the dedup decision: apply, repeat the stored result or reject as stale |
| `KvStateMachine.KvStateMachine.ApplyNewRequest` | src/state_machine/kv_state_machine.cpp:160-205 | the effect and result of each command type |
| `KvStateMachine.KvStateMachine.TakeResult` | src/state_machine/kv_state_machine.cpp:279-289 | hands out the cached result of the index and forgets it |
| `KvStateMachine.KvStateMachine.GetMany` | src/state_machine/kv_state_machine.cpp:263-277 | every key is looked up in the same state |
| `Snapshots.CheckpointReadsBack` | src/state_machine/kv_state_machine.cpp:375-388 | a stored checkpoint of any committed prefix loads as that state if and only if its counts fit and its image is at most 1 GiB |
| `Snapshots.SnapshotReadsBack` | src/state_machine/kv_state_machine.cpp:390-450 | a stored snapshot with any metadata loads if and only if the counts of its state fit and metadata and payload leave 12 bytes of 1 GiB |
| `Snapshots.StepOnPrefixes` | src/state_machine/kv_state_machine.cpp:466-609 | commit, checkpoint, snapshot created, received or applied, and restart keep memory and files on committed prefixes; only a restart can fail |
| `Snapshots.RecoveryIsReplay` | src/state_machine/kv_state_machine.cpp:452-609 | for every log and every history of such events with honest senders, while the node runs its state is the replay of the prefix its index names |
| `Snapshots.ApplyInstalls` | src/state_machine/kv_state_machine.cpp:579-609 | applying a snapshot installs the state of that prefix exactly when the stored one is readable and has that index, and otherwise changes nothing |
| `Snapshots.ReceivedIsInstalled` | src/state_machine/kv_state_machine.cpp:550-577 | a received payload is saved exactly when it decodes to a state of its index and the writer accepts it; then the node sends it, and applying it installs it |
| `Snapshots.CreatedIsSent` | src/state_machine/kv_state_machine.cpp:466-507 | a snapshot created at the applied index is what the node sends; other indexes and refused files change nothing |
| `Snapshots.CheckpointKeepsIndex` | src/state_machine/kv_state_machine.cpp:291-294 | a restart that succeeds after an accepted checkpoint starts no earlier than the node was |
| `Snapshots.CommitMoves` | src/state_machine/kv_state_machine.cpp:81-122 | a commit moves memory to the replay of one more entry and touches no file |
| `Snapshots.SendersAreHonest` | src/state_machine/kv_state_machine.cpp:515-548 | what a node sends for an index, after any such history, is the state of the committed prefix of that index |
| `Snapshots.RestartExact` | src/state_machine/kv_state_machine.cpp:65-79 | a restart fails if and only if a stored image is unreadable, and otherwise starts from the newer of the two |
| `Snapshots.RestartAfterAnyRun` | src/state_machine/kv_state_machine.cpp:65-79 | the same after every history |
| `Snapshots.CatchUp` | src/state_machine/kv_state_machine.cpp:81-122 | after any history the node survives, committing the rest of the log equals replaying the whole log from empty |
| `Snapshots.RestartThenCatchUp` | src/state_machine/kv_state_machine.cpp:380-464 | in particular after a restart with readable images |
| `StateSize.ReplayCount` | src/state_machine/kv_state_machine.cpp:81-158 | a log of n entries leaves at most n keys and n clients |
| `StateSize.ImageSize` | src/state_machine/kv_state_machine.cpp:306-327 | a bound on the image's size by the item counts and the field limit |
| `SnapshotLimits.ShortLogsNeverFail` | src/state_machine/kv_state_machine.cpp:375-464 | on every log whose length times its field limit is small enough, with bounded metadata, every restart of every run succeeds |
| `Resp.ParseStable` | src/protocol/resp.cpp:138-227 | a parsed value or an error never changes when bytes are appended |
| `Resp.DrainExtend` | src/protocol/resp.cpp:59-77 | draining a longer stream continues where draining a part of it stopped |
| `Resp.ServeIsDrain` | src/server/tcp_server.cpp:167-192 | however a stream is cut into packets, serving it is draining the whole stream |
| `Resp.PacketBoundaries` | src/server/tcp_server.cpp:167-192 | two splittings of a stream give the same values, first error and leftover |
| `RespGrammar.ParserAccepts` | src/protocol/resp.cpp:79-227 | the parser returns a value after some bytes if and only if those bytes spell it in the grammar of lines, numbers, bulk strings and arrays within the limits |
| `RespGrammar.ReadLineExact` | src/protocol/resp.cpp:79-92 | a line is read exactly when CR LF ends it and no LF comes before, more is asked exactly without any LF |
| `RespGrammar.RefusedForGood` | src/protocol/resp.cpp:138-227 | after an error no continuation of the input is ever accepted |
| `RespGrammar.ServeOverflows` | src/protocol/resp.cpp:59-64 | a connection is cut exactly when some packet does not fit with what the packets before it left unread |
| `RespRoundTrip.RoundTrip` | src/protocol/resp.cpp:138-286 | parsing an encoding followed by anything returns the value and leaves exactly the rest |
| `RespRoundTrip.PrefixAsksForMore` | src/protocol/resp.cpp:79-227 | every strict prefix of an encoding asks for more and is never an error |
| `RespRoundTrip.CleanMeans` | src/protocol/resp.cpp:229-265 | the encoder accepts exactly the values none of whose lines contains a CR or LF |
| `Resp.ParseNumberExact` | src/protocol/resp.cpp:94-136 | accepted are exactly the int64 decimal texts with a minus or no sign, and never with a plus |
| `RespParser.ParseNumberText` | src/protocol/resp.cpp:94-136 | the digit loop accepts exactly the specified signed 64-bit numbers |
| `RespParser.EncodeValue` | src/protocol/resp.cpp:229-286 | the accumulating encoder refuses line breaks and otherwise gives the encoding |
| `RespParser.RespParser.Feed` | src/protocol/resp.cpp:59-64 | appends, or refuses what would overflow and changes nothing |
| `RespParser.RespParser.Next` | src/protocol/resp.cpp:66-77 | consumes exactly one complete value, or nothing |
| `RespParser.RespParser.DrainAll` | src/server/tcp_server.cpp:175-192 | the inner loop returns the values of the buffer and leaves the rest |
| `RespParser.RespParser.ServeAll` | src/server/tcp_server.cpp:167-192 | the connection loop over packets |
| `CommandService.SubmittedAlwaysDecodes` | src/server/command_service.cpp:192-229 | whatever a client sends, a submitted write decodes at commit as the same command |
| `CommandService.WriteCommandExact` | src/server/command_service.cpp:192-229 | exactly the well-formed calls, named in letters of either case and numbered or not, are submitted, each as the command it means |
| `CommandService.ArgumentsExact` | src/protocol/resp.cpp:288-303 | exactly the non-empty arrays of bulk and simple strings are commands |
| `CommandService.CommandArguments` | src/protocol/resp.cpp:288-303 | the loop collects exactly those texts, or refuses |
| `CommandService.NumberedCommand` | src/server/command_service.cpp:192-220 | the server reads a numbered call as its operation, key, value and ids |
| `CommandService.ClientToStateMachine` | src/client/client.cpp:180-193 | client encoding, server parsing, command encoding and commit decoding together give the command the client meant |
| `CommandService.PlainToStateMachine` | src/server/command_service.cpp:203-208 | the same for a call without numbering, submitted with neither id |
| `Client.Client.Command` | src/client/client.cpp:175-194 | one fresh id per write, every attempt that reaches the network carries the same arguments, at most seeds + 3 attempts, the first reply that is not a redirect |
| `Client.FinalMeans` | src/client/client.cpp:82-87 | a reply ends the call unless it is an error text that begins with NOT_LEADER, spelled out |
| `Client.ExactlyOnce` | src/state_machine/kv_state_machine.cpp:133-157 | in every run of numbering, retrying clients the result of any committed copy of an outstanding call is that of its single application, never STALE_REQUEST |
| `Client.AppliedOnce` | src/state_machine/kv_state_machine.cpp:133-157 | that application is unique |
| `EndToEnd.WritesExactlyOnce` | src/state_machine/kv_state_machine.cpp:133-157 | in every reachable state of the cluster a finished numbered write not below its client's greatest id was answered with the result of its single application, at or before its place, never STALE_REQUEST |
| `EndToEnd.RefusedWrites` | src/state_machine/kv_state_machine.cpp:133-151 | a finished write below its client's greatest id was answered stale, one without a request id or that does not decode as a bad command, and only those |
| `EndToEnd.RetriedWritesExactlyOnce` | src/client/client.cpp:260-298 | the same for an outstanding call of numbering, retrying clients, however often it was sent |
| `EndToEnd.OnePlace` | src/state_machine/kv_state_machine.cpp:133-157 | that application, hence that answer, is unique |
| `Workers.InvKept` | src/raft/raft_node.cpp:239-303 | every queue, worker and shutdown step, the drain of a queue that `stop` has emptied included, keeps each accepted item in exactly one place |
| `Workers.NothingLost` | src/raft/raft_node.cpp:154-303 | over every interleaving an item is completed at most once, and exactly once when both workers have joined |
| `WorkerOrder.FirstInFirstOut` | src/raft/raft_node.cpp:239-303 | over every interleaving each worker answers in the order of acceptance, in batches of at most 128 and 4,096, and what stop refuses comes after |
| `WorkerOrder.DrainsFill` | src/raft/raft_node.cpp:290-298 | a drain leaves nothing behind that would have fitted |
| `WorkerOrder.ReadsAfterBarrier` | src/raft/raft_node.cpp:440-473 | over every interleaving a read is answered only after the barrier of its batch is completed or was refused |
| `Workers.NoDeadlock` | src/raft/raft_node.cpp:239-271 | until both workers have joined, a worker or `stop` itself can move |
| `Workers.ShutdownTerminates` | src/raft/raft_node.cpp:239-271 | once the running flag is cleared every step leaves strictly less work |
| `Proposals.AnswerBatch` | src/raft/raft_node.cpp:305-405 | each proposal gets exactly one reply: the shared failure, the result of its own command at its own place in the log, or, if and only if nothing is cached there, an explicit miss; the results are gone from the cache afterwards |
| `ReadLease.CountLease` | src/raft/raft_node.cpp:502-534 | the two counting loops answer whether the fresh voters are a majority of the voters |
| `ReadLease.ReportedFreshness` | src/raft/raft_node.cpp:517-530 | what the loops count from the server's reports is the lease's set of fresh voters |
| `LeaseCheck.HasFreshQuorum` | src/raft/raft_node.cpp:502-534 | from the server's reports the loops, in configured milliseconds, decide the quorum part of the lease |
| `LeaseCheck.HasValidReadLease` | src/raft/raft_node.cpp:482-535 | on a report that describes the node, the check answers whether the node holds the lease of the cluster model |
| `ReadLease.TimelyKept` | src/config/config.cpp:380-384 | every vote, heartbeat, response and election keeps the timing invariant |
| `ReadLease.NoHigherLeader` | src/raft/raft_node.cpp:482-535 | while the lease check passes no leader of a higher term exists |
| `Cluster.InvKept` | src/raft/raft_node.cpp:154-208 | every step of Raft, replicas, images, writes and both kinds of read keeps the cluster invariant |
| `Cluster.ReadIsSequential` | src/state_machine/kv_state_machine.cpp:253-277 | what a replica's map answers is the sequential store's answer at the replica's applied index |
| `Cluster.ResultIsSequential` | src/state_machine/kv_state_machine.cpp:279-289 | what a replica's cache holds for an entry is the sequential store's result of it |
| `Cluster.AnswersAreSequential` | src/raft/raft_node.cpp:373-473 | every finished call has one place in the committed log, no two writes share one, and the answer its replica gave is the sequential store's there |
| `Cluster.ReadsReturnLastWrite` | src/raft/raft_node.cpp:407-473 | a finished read returns what the last effective command on the key in its prefix left |
| `Cluster.RealTimeOrder` | src/raft/raft_node.cpp:180-208 | in every reachable state a call that finished before another was made comes first in the log, except possibly a lease read after a barrier read that its leader overtook |
| `Cluster.BarrierReadsLinearizable` | src/raft/raft_node.cpp:407-473 | with lease reads off, real-time order holds without exception and every answer is sequential |
| `Cluster.LeaseReadsFresh` | src/raft/raft_node.cpp:186-208 | a lease read reflects every write acknowledged and every lease read answered before it was made |
| `LeaseAnomaly.LeaseReadGoesBack` | src/raft/raft_node.cpp:494-500 | for every accepted timing and field limit with lease reads on, a reachable state of three voters in which a lease read misses the value an earlier barrier read returned |
| `LeaseAnomaly.LinearizableIffNoLeaseReads` | src/raft/raft_node.cpp:190-204 | for every accepted timing and field limit, some reachable state of at least three voters breaks real-time order if and only if lease reads are on |

## Left out

- NuRaft itself (election, replication, membership changes, snapshot transport): assumed, as guards of the environment steps; the set of voters is fixed and a log entry is its serialized bytes.
- ReadLease.NoHigherLeader: holds under three timing assumptions, which are guards of the steps: equal clock rates, responses received less than one heartbeat after the follower's timer reset, no vote for a higher term within the election lower bound of the last contact.
- WalFormat.FrameCorruption: excludes the four bytes of the length prefix, which no checksum covers.
- Snapshots.RecoveryIsReplay: relies on senders whose payloads, if they decode, are states of committed prefixes, since the code accepts any payload with a matching index; `Snapshots.SendersAreHonest` shows that nodes are such senders. NuRaft's reading of an index from its own snapshot metadata is a parameter.
- Cluster.RealTimeOrder: names the only pairs that can be out of order, one way; an overtaken pair may still be in order, and the exact condition is the one on the configuration.
- LogModel.CrashSafe: concerns entries of 1 byte to 64 MiB, gap-free packs, indexes below 2^64 and files of at most 4 GiB; the Findings say what fails outside.
- LogPack.UnpackOfPack: integers of a NuRaft buffer are taken as big-endian; the byte order is NuRaft's own.
- Cluster.InvKept: a node's worker threads are collapsed to the steps that matter for order; their queues are the subject of `Workers`.
- Client.Client.Command: connecting, authenticating and choosing the next endpoint are one attempt with a given outcome; replies such as TIMEOUT end the call, as in the code.
- Proposals.AnswerBatch: the append itself is given by its outcome, the indexes it reports being increasing.
- Sockets, the accept loop, threads and condition-variable timing; system calls and the Windows branches (replaced by the disk model).
- Log queries (`log_entries_ext`, `entry_at`, `term_at`), migration of the legacy log file and `FileStateManager`: easy or thin wrappers.
- Configuration loading, logger, command line, benchmark, INFO, ROLE and AUTH.
