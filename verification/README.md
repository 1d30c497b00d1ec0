# A verified model of the slasher

The slasher (`slasher/src`) watches the attestations of every validator and reports those that can
be slashed: two different votes for one target, or one vote that surrounds another. What it has to
find is easy to say: compare all votes pairwise. What it does is much cheaper and much less
obvious. It keeps two ring arrays of 16-bit distances per validator, split into chunks, updated by
walks that stop early and reset lazily when time moves on; a second ring of attester records that
is zeroed lazily; a store whose identifiers are handed out again after pruning, with a cache beside
it; and a queue that de-duplicates, defers and groups attestations in front of all that.

This project models that code and proves that it finds exactly what the pairwise comparison finds.

## How it is built

- `ReferenceHistory` is a slasher with none of the machinery: it remembers the first vote of every
  validator for every target, the votes each array accepted, and the slashings emitted. It has no
  ring, chunk, identifier, cache or pruning. `Detection` and `Runs` prove it sound and complete
  against the pairwise definition (`Runs.Guilty`) over whole runs, described by `Protocol`: accept,
  process, prune and harvest events in any order, with attestations that arrive while a processing
  run holds the queue, and with transactions that fail to commit.
- `Chunks`, `TargetArrays`, `DatabaseTables`, `SlasherDatabase`, `ArrayUpdate`, `AttestationBatches`
  and `SlasherService` are the slasher itself: classes with the source's fields and loops. Ghost
  fields hold the reference's state. Every method proves that it moves the reference exactly as
  the reference's own function says and that the tables still represent it. Every error of the
  slasher's own logic is an `Outcome`, and every method of the processing path proves that its
  outcome is `Pass`.
- `SlasherService.RunSlasher` puts both halves together: a slasher object, driven through any run
  with a clock that does not go backwards, hands over exactly the reference's slashings, and these
  implicate exactly the guilty.
- `EvidenceOrder` says which attestation of a slashing is the older one. `QueueFate` follows each
  accepted attestation through a run. `Subsequences` describes what a filter keeps by the positions it
  takes, so that order and repetition are fixed as well as membership. `DatabaseKeys` covers the byte keys
  and `Proposers` the detection of double block proposals.

Assumptions:

- The configuration passed its own `validate`. Nothing else is assumed of it: chunk sizes, history
  lengths up to 65536 and validator chunk sizes are arbitrary.
- Epochs passed to successive processing and pruning calls do not decrease. Epochs stay far below
  2^64, so that only the saturation at 0 matters; it is written out.
- Hash roots are collision free. An attestation's data stands for its root; its `root` number, which
  is compared first, lets every order of roots occur.
- The backend is an ordered map with atomic commit. Validator indices are below 2^40 and
  identifiers below 2^48, as the keys' widths demand.

## Model

| member | source | states |
|---|---|---|
| `SlasherService.RunSlasher` | slasher/src/slasher.rs:78-200 | A slasher driven through any run hands over exactly the reference's slashings; every one is valid evidence, every validator with a slashable pair among committed votes is implicated, and nobody is implicated without a slashable pair among kept votes. |
| `SlasherService.RunWithAndWithoutPrunes` | slasher/src/database.rs:724-815 | A slasher that prunes, and so reuses identifiers, and one that never prunes hand over the same slashings, for every run; the second one's events are the first one's in order, contain no prune and contain every other event as often. |
| `Runs.Exactness` | slasher/src/test_utils.rs:114-135 | With every commit succeeding, a validator is caught if and only if two of its kept attestations are slashable: the pairwise comparison the random tests use as their oracle. |
| `Runs.Completeness` | slasher/src/slasher.rs:130-258 | Whatever the order, batches, prunes and failed commits, a slashable pair among committed votes means an emitted slashing implicates the validator. |
| `Runs.Soundness` | slasher/src/slasher.rs:130-258 | Whoever is implicated by any emitted slashing, even one found in a transaction that failed, has a slashable pair among the kept attestations. |
| `Runs.EvidenceIsValid` | consensus/state_processing/src/per_block_processing/verify_attester_slashing.rs:28-33 | Every emitted slashing satisfies the verification predicate in its own argument order and implicates somebody. |
| `Runs.VerdictDependsOnVotesOnly` | slasher/tests/random.rs:43-147 | Two slashers with any two configurations, arrival orders, batches and prunes that kept the same attestations catch the same validators. |
| `Runs.PruneInvisible` | slasher/src/slasher.rs:337-339 | Removing every prune from a run changes nothing in the reference's final state but the clock, and a run with a monotone clock stays one. |
| `Runs.WithoutPrunesInOrder` | slasher/src/slasher.rs:337-339 | The run without prunes takes exactly the positions of the other events, in order. |
| `Runs.WithoutPrunesCount` | slasher/src/slasher.rs:337-339 | It contains no prune and every other event as often as the run. |
| `Runs.WithoutPrunesConcat` | slasher/src/slasher.rs:337-339 | Removing prunes from two runs in a row is removing them from each. |
| `Runs.AbortKeepsEvidence` | slasher/src/slasher.rs:88-97 | A failed commit takes back records and arrays but no evidence: the slashings are those of the same run committed. |
| `Runs.KeptAndCommitted` | slasher/src/slasher.rs:130-153 | The kept and the committed attestations of the theorems are exactly those some processing run, or some committed one, found in its queue with the keep fate. |
| `Runs.OrderedExactly` | slasher/src/slasher.rs:88-97 | The runs the slasher is proved for are exactly those whose processing and pruning epochs never go down. |
| `Runs.SelectInOrder` | slasher/src/slasher.rs:302-334 | Validation sorts positions, not just members: each fate takes exactly its positions of the queue, in order. |
| `EvidenceOrder.OlderFirst` | slasher/src/lib.rs:54-94 | In every run each slashing pairs an attestation of one processing run with one of the same or a later run, and the later one stands first only if it surrounds the other. |
| `EvidenceOrder.NewEvidence` | slasher/src/slasher.rs:203-258 | Evidence found by a processing run pairs an attestation it kept, as the newer one, with one kept by it or before. |
| `EvidenceOrder.PairOneByOne` | slasher/tests/attester_slashings.rs:17-32 | Two attestations accepted and processed one after the other by a fresh slasher give exactly the evidence of that pair, in order, or nothing if there is none. |
| `SlasherService.RunOneByOne` | slasher/tests/attester_slashings.rs:17-32 | The same for a slasher object: exactly that set is handed over. |
| `Runs.RunValid` | slasher/src/slasher.rs:130-200 | In every reachable state records, arrays and evidence are sound for the kept attestations and complete for the committed votes. |
| `Runs.CommitFitsLog` | slasher/src/slasher.rs:155-192 | After a committed run the votes the arrays saw are votes of committed attestations, and every committed vote was seen. |
| `Detection.PairIsCaught` | slasher/src/slasher.rs:203-258 | If both votes of a slashable pair went through a sound reference that is complete for its log, the validator is caught. |
| `Detection.ArrayVerdict` | slasher/src/lib.rs:36-45 | An array's conviction always finds a recorded vote; a surround status is a surround vote by that validator; `AlreadyDoubleVoted` only names a validator with an emitted double-vote slashing. |
| `Detection.CheckBatchList` | slasher/src/slasher.rs:203-258 | One subqueue, double votes before arrays, keeps the reference sound and complete for the extended log. |
| `Detection.CheckArraysAccepts` | slasher/src/array.rs:417-475 | A vote is missing from an array only if evidence against its validator is out: of an uncaught validator the array accepts every vote, in order. |
| `Detection.CheckRecordStep` | slasher/src/database.rs:587-644 | The double-vote check never replaces a record, and afterwards the vote is recorded or the validator is caught double voting. |
| `Detection.RecordEvidence` | slasher/src/lib.rs:65-71 | The double-vote check adds exactly one slashing, the recorded attestation first, and only for different data. |
| `Detection.ArrayEvidence` | slasher/src/array.rs:221-347 | A surrounding vote is reported first, against the surrounded vote of smallest target; a surrounded vote second, against the surrounding one of largest target. |
| `Types.SlashingStatus.IntoSlashing` | slasher/src/lib.rs:54-94 | A slashing results exactly for the three slashable statuses; it consists of the two attestations, the newer one first only if it surrounds the other, which makes it valid evidence. |
| `TargetBounds.Kind.BoundIsExtremum` | slasher/src/array.rs:196-386 | The value the arrays stand for is the clamped minimum or maximum over the covering votes: a bound for all of them, and attained unless neutral. |
| `TargetBounds.Kind.BoundMonotone` | slasher/src/array.rs:262-273 | Both arrays are non-decreasing in the epoch. |
| `TargetBounds.Kind.BoundNeutralFrom` | slasher/src/array.rs:513-516 | No vote accepted by epoch p affects a cell at or beyond p. |
| `DatabaseTables.CellIsExtremum` | slasher/src/array.rs:477-519 | In every represented database each in-window cell is exactly the clamped extremum over the votes its array accepted. |
| `DatabaseTables.CellsNonDecreasing` | slasher/src/array.rs:358-371 | The stored cells of a validator are non-decreasing throughout the window. |
| `DatabaseTables.RingIsExact` | slasher/src/database.rs:663-680 | A slot for a target in (max - N, max] is null exactly when nothing was recorded; while the target is in the window it names a stored attestation by that validator with exactly that target. |
| `Configuration.Config.Validate` | slasher/src/config.rs:100-122 | Accepts exactly non-zero parameters, a history of at most 65536 epochs and a chunk size that divides it. |
| `Configuration.Config.AddressInjective` | slasher/src/config.rs:132-157 | Two (validator, epoch) pairs share a disk key and a cell if and only if they are the same validator and the epochs agree modulo the history length. |
| `Configuration.Config.WindowCellsDistinct` | slasher/src/config.rs:132-157 | Distinct epochs of one window never share a cell. |
| `Configuration.Config.Cell` | slasher/src/config.rs:140-157 | The cell index is always inside the chunk. |
| `Configuration.Config.ChunkRange` | slasher/src/config.rs:159-167 | The validators of a chunk are exactly a contiguous range. |
| `Configuration.Config.AttestingValidatorsInChunk` | slasher/src/config.rs:169-179 | Exactly the attesters that belong to the chunk. |
| `Configuration.Config.AttestingValidatorsInOrder` | slasher/src/config.rs:169-179 | They are taken from exactly their positions, in the attestation's order. |
| `Chunks.Chunk.GetTarget` | slasher/src/array.rs:35-52 | Reads the epoch plus the stored distance and never leaves the chunk. |
| `Chunks.Chunk.EpochDistance` | slasher/src/array.rs:84-99 | Exactly which of the two errors occurs for which distances, and otherwise the distance. |
| `Chunks.Chunk.SetRawDistance` | slasher/src/array.rs:65-82 | Changes one cell and no other, or fails exactly when the chunk is too short. |
| `Chunks.Chunk.SetTarget` | slasher/src/array.rs:54-63 | Succeeds exactly for distances below the maximum and then changes one cell; otherwise nothing changes. |
| `Chunks.Chunk.UpdateMin` | slasher/src/array.rs:248-274 | Terminates even where the epoch saturates at 0; exactly the walked cells hold the new target, and where the walk goes on is the next start epoch. |
| `Chunks.Chunk.UpdateMax` | slasher/src/array.rs:349-372 | The same for the walk towards the current epoch. |
| `TargetArrays.EarlyStopIsFullScan` | slasher/src/array.rs:450-472 | Stopping at the first cell that does not improve gives, at every epoch of the window, what updating every covered cell gives. |
| `TargetArrays.TargetArray.GetChunkForUpdate` | slasher/src/array.rs:393-414 | Loading a chunk, or starting a neutral one, changes no distance of the flat array. |
| `TargetArrays.TargetArray.UpdateChunk` | slasher/src/array.rs:450-471 | The walk inside one chunk, seen on the flat array; when it goes on, the next start epoch is where the inner loop left the chunk. |
| `TargetArrays.TargetArray.WalkChunks` | slasher/src/array.rs:450-474 | The nested loops terminate and leave the flat array changed on one stretch only, stopping at the window's end or at a cell that does not improve. |
| `TargetArrays.TargetArray.Walk` | slasher/src/array.rs:440-475 | If the row held the bounds of the accepted votes before, it holds the bounds of the votes with the new one added; no other validator's row changes; no distance error occurs for any valid history length. |
| `TargetArrays.TargetArray.EpochUpdate` | slasher/src/array.rs:521-559 | Every epoch from the previous current epoch on is neutral, every earlier epoch of the new window is untouched, for any jump including none and more than the history. |
| `TargetArrays.TargetArray.ResetKeepsAgreement` | slasher/src/array.rs:513-516 | Lazy reset loses nothing: a row that held the bounds at the previous epoch holds them at the current one. |
| `ArrayUpdate.CheckSlashable` | slasher/src/array.rs:221-347 | For both arrays, the verdict is the reference's, and the lookup of the other vote never fails. |
| `ArrayUpdate.ApplyAttestationForValidator` | slasher/src/array.rs:417-475 | One vote moves the reference as one array check and the row keeps tracking the accepted votes. |
| `ArrayUpdate.UpdateEpochs` | slasher/src/array.rs:574-585 | After bringing every validator of the chunk up to date, every row tracks its accepted votes at the current epoch. |
| `ArrayUpdate.GroupBySource` | slasher/src/array.rs:485-494 | Groups the queue by the chunk of the source, each group in queue order. |
| `WorkOrder.SourceGroupInOrder` | slasher/src/array.rs:485-494 | A group takes exactly the queue positions whose source lies in its chunk, in queue order. |
| `WorkOrder.SourceGroupConcat` | slasher/src/array.rs:485-494 | The group of a queue followed by another is the first one's group followed by the second one's. |
| `WorkOrder.SourceGroupCount` | slasher/src/array.rs:485-494 | A group holds each attestation of its chunk as often as the queue and no other. |
| `WorkOrder.ArrayOrderIsStableSort` | slasher/src/array.rs:587-607 | The arrays see the queue stably sorted by source chunk: a permutation, chunks ascending, each chunk in queue order. |
| `WorkOrder.QueueWorkConcat` | slasher/src/slasher.rs:210-234 | A queue is worked off from front to back. |
| `ArrayUpdate.ApplyGroups` | slasher/src/array.rs:587-607 | All groups in ascending order of source chunk, every attestation for its validators in the chunk: the reference's array pass, with the slashings it emits. |
| `ArrayUpdate.StoreChunks` | slasher/src/array.rs:616-618 | After storing, the table holds the loaded chunks of this row and every other row is as before. |
| `ArrayUpdate.UpdateArray` | slasher/src/array.rs:562-621 | One array processes the queue like the reference; its stored rows are current afterwards and other rows are untouched. |
| `ArrayUpdate.UpdateCurrentEpochs` | slasher/src/array.rs:513-516 | Exactly the validators of the chunk get the new current epoch; all others keep theirs. |
| `ArrayUpdate.Update` | slasher/src/array.rs:477-519 | Both arrays and the current epochs: the database is represented again, the slashings returned are the reference's new ones, no error occurs. |
| `WorkOrder.ArrayWorkSameVotes` | slasher/src/array.rs:485-494 | Regrouping by source neither loses nor invents a vote. |
| `SlasherDatabase.SlasherDB.GetIndexedAttestation` | slasher/src/database.rs:527-542 | The stored attestation, or the missing-attestation error exactly when there is none. |
| `SlasherDatabase.SlasherDB.CacheAttestationDataRoot` | slasher/src/database.rs:567-574 | The root is cached under the identifier; any other entries may be evicted but none changes. |
| `SlasherDatabase.SlasherDB.GetAttestationDataRoot` | slasher/src/database.rs:544-565 | For every stored identifier the root returned is that attestation's, whatever the cache evicted before, and is cached afterwards; the cache keeps agreeing with the store. |
| `SlasherDatabase.SlasherDB.StoreIndexedAttestation` | slasher/src/database.rs:490-525 | Returns the existing identifier and changes nothing, or stores under 1 or one past the largest; keeps identifiers and keys in bijection and overwrites nothing. |
| `SlasherDatabase.SlasherDB.StoreAndCache` | slasher/src/slasher.rs:163-180 | Storing and priming the cache keeps the whole representation, also when the identifier was in use before a prune or in an aborted transaction. |
| `SlasherDatabase.SlasherDB.RecordLookup` | slasher/src/database.rs:663-680 | For every target in the window the ring answers exactly like the reference's records. |
| `SlasherDatabase.SlasherDB.LookupAnswersForRingEpoch` | slasher/src/database.rs:663-680 | Without a lower-bound check a lookup answers for the one epoch of the ring's range with the same slot; it is right if and only if the target is in that range. |
| `SlasherDatabase.SlasherDB.GetAttestationForValidator` | slasher/src/database.rs:646-661 | Returns the recorded attestation, or the missing-record error exactly when there is none. |
| `SlasherDatabase.SlasherDB.UpdateAttesterMaxTarget` | slasher/src/database.rs:400-436 | Moving the maximum forward zeroes every slot that comes into range and keeps every slot still in range; other validators are untouched. |
| `SlasherDatabase.SlasherDB.CheckAndUpdateAttesterRecord` | slasher/src/database.rs:587-644 | The status and the new record are the reference's; neither a missing attestation nor an inconsistent root is reachable. |
| `SlasherDatabase.SlasherDB.InsertAttesterRecord` | slasher/src/database.rs:632-643 | Recording a first vote keeps the whole ring exact, for this validator's other targets too, and moves the reference by its insertion. |
| `SlasherDatabase.SlasherDB.Rollback` | slasher/src/slasher.rs:88-97 | After an aborted transaction the restored tables, the cache that was not rolled back and the evidence already handed over are a valid database again. |
| `SlasherDatabase.SlasherDB.DeleteIdsWhileBelow` | slasher/src/database.rs:779-805 | Deleting from the first key leaves exactly the entries at or above the bound and returns exactly the identifiers deleted. |
| `SlasherDatabase.SlasherDB.DeleteAttestations` | slasher/src/database.rs:806-812 | Exactly these attestations leave the table and exactly their roots leave the cache. |
| `SlasherDatabase.SlasherDB.PruneIndexedAttestations` | slasher/src/database.rs:774-815 | Removes exactly the attestations whose target left the window, from both tables and from the cache, and does not change what the database represents. |
| `AttestationBatches.IndexedAttesterRecord.SetId` | slasher/src/attester_record.rs:70-74 | Sets the identifier of a record that has none. |
| `AttestationBatches.DeduplicatedAt` | slasher/src/attestation_queue.rs:44-66 | A (validator, data) key is present exactly when some attestation of the batch attests it, and it holds a largest such attestation. |
| `AttestationBatches.DeduplicatedIsFirstLargest` | slasher/src/attestation_queue.rs:44-66 | The attestation held is the first of the largest ones: earlier ones are smaller, later ones not larger. |
| `AttestationBatches.AttestationBatch.Queue` | slasher/src/attestation_queue.rs:44-66 | Queueing a record updates the map as the de-duplication function says and keeps every record in the list. |
| `AttestationBatches.GroupByValidatorChunkIndex` | slasher/src/attestation_queue.rs:69-85 | The subqueues hold the map's records, each in the subqueue of its validator's chunk, with validators ascending and for one validator roots ascending. |
| `AttestationBatches.AscendingInOrder` | slasher/src/attestation_queue.rs:72-82 | The keys are taken by ascending validator and then root, each exactly once. |
| `AttestationBatches.SubqueueKeysInOrder` | slasher/src/attestation_queue.rs:72-82 | A subqueue takes exactly the key positions of its chunk, in order. |
| `AttestationBatches.SubqueueInKeyOrder` | slasher/src/attestation_queue.rs:72-82 | So the keys of each subqueue are ascending and distinct. |
| `AttestationBatches.InSubqueue` | slasher/src/attestation_queue.rs:69-85 | A key is in a subqueue if and only if it is a key of the batch and the subqueue is its validator's chunk. |
| `AttestationBatches.SubqueuesFromBatch` | slasher/src/attestation_queue.rs:69-85 | Subqueues contain nothing that was not in the batch. |
| `AttestationBatches.SubqueuesCoverBatch` | slasher/src/attestation_queue.rs:42-85 | Every vote of the batch reaches its validator's subqueue, carried by an attestation with the same data. |
| `SlasherService.Validate` | slasher/src/slasher.rs:302-334 | Kept, deferred and dropped are exactly the three fates, in order; no record is in two of them. |
| `SlasherService.CheckDoubleVotes` | slasher/src/slasher.rs:261-294 | Checking one attestation for all its validators in the chunk moves the reference accordingly and returns the new slashings. |
| `SlasherService.BuildBatch` | slasher/src/slasher.rs:154-159 | The batch holds every kept record and de-duplicates them. |
| `SlasherService.StoreBatch` | slasher/src/slasher.rs:161-180 | Exactly the records the batch still refers to are stored and get a non-zero identifier; the others get none and nothing else is stored. |
| `SlasherService.Slasher.CheckAllDoubleVotes` | slasher/src/slasher.rs:210-234 | The double-vote pass over a subqueue is the reference's, and never fails. |
| `SlasherService.Slasher.ProcessBatch` | slasher/src/slasher.rs:203-258 | A subqueue is processed like the reference's batch and never fails. |
| `SlasherService.Slasher.ProcessSubqueues` | slasher/src/slasher.rs:188-192 | All subqueues, empty ones included, in chunk order: the reference's whole pass. |
| `SlasherService.Slasher.ProcessKept` | slasher/src/slasher.rs:154-192 | De-duplicating, storing, grouping and checking the kept records moves the reference through all its subqueues and loses no stored attestation. |
| `SlasherService.Slasher.AcceptAttestation` | slasher/src/slasher.rs:78-80 | Accepting is the protocol's accept step. |
| `SlasherService.Slasher.TakeValid` | slasher/src/slasher.rs:130-153 | What was dequeued is kept or goes back behind what arrived meanwhile; the rest is dropped. |
| `SlasherService.Slasher.ProcessQueued` | slasher/src/slasher.rs:88-97 | A processing run, committed or not, is the protocol's step and never fails on its own; without a commit the tables are what they were, with one no stored attestation is lost. |
| `SlasherService.Slasher.PruneDatabase` | slasher/src/slasher.rs:337-339 | A prune, committed or not, leaves a valid database that represents the same history; without a commit the tables are what they were, with one exactly the attestations outside the window are gone. |
| `SlasherService.Slasher.GetAttesterSlashings` | slasher/src/slasher.rs:63-66 | Hands over every slashing found since the last call, once. |
| `QueueFate.QueueConservation` | slasher/src/attestation_queue.rs:88-101 | At any time, counting repeated acceptances, the queue holds exactly the waiting acceptances and the runs so far kept and dropped exactly the others, each once. |
| `QueueFate.QueueOrder` | slasher/src/attestation_queue.rs:88-101 | An accepted attestation goes to the end; a processing run leaves what arrived meanwhile followed by exactly the deferred positions, in order. |
| `QueueFate.TicketKeptExactly` | slasher/src/slasher.rs:302-334 | An acceptance is kept by a run if and only if that is the first run after it to reach the target and the source is still in the history. |
| `QueueFate.KeptExactly` | slasher/src/slasher.rs:302-334 | The same for any non-decreasing list of epochs, and exactly when an attestation is still waiting. |
| `QueueFate.SeenIsKept` | slasher/src/slasher.rs:130-153 | The attestations the detection theorems speak about are exactly those some run kept. |
| `DatabaseKeys.RoundTrip` | slasher/src/database.rs:93-106 | Reading a big-endian number undoes writing it, for every number that fits. |
| `DatabaseKeys.OrderIsNumeric` | slasher/src/database.rs:119-140 | On byte strings of equal length the byte order is the numeric order. |
| `DatabaseKeys.KeysInLeadingOrder` | slasher/src/database.rs:119-140 | Keys that start with an 8-byte number are kept in the order of that number. |
| `DatabaseKeys.AttesterKeyInjective` | slasher/src/database.rs:93-106 | Attester keys are equal if and only if validator and target modulo the history length are. |
| `DatabaseKeys.AttesterKeyFields` | slasher/src/database.rs:93-106 | The two fields can be read back, the target's slot first. |
| `DatabaseKeys.ProposerKey.RoundTrips` | slasher/src/database.rs:123-140 | Parsing a proposer key gives back slot and proposer. |
| `DatabaseKeys.IndexedAttestationIdKey.RoundTrips` | slasher/src/database.rs:172-192 | Parsing an identifier key gives back target and root. |
| `DatabaseKeys.IndexedAttestationIdKey.OrderedByTarget` | slasher/src/database.rs:172-192 | The first key of the identifier table has the smallest target. |
| `Proposers.KeyIdentifies` | slasher/src/database.rs:123-140 | Two headers share a key if and only if slot and proposer agree. |
| `Proposers.ProposerTable.CheckOrInsertBlockProposal` | slasher/src/database.rs:694-721 | The first header for a key is stored; a slashing results exactly for a different later one and is a double proposal. |
| `Proposers.ProposerTable.ProcessBlocks` | slasher/src/slasher.rs:102-127 | In every order: the number of slashings is the number of headers minus newly filled keys minus headers equal to the stored one; each pairs two distinct headers of one slot and proposer; no second proposal is missed. |
| `Proposers.ProposerTable.PruneProposers` | slasher/src/database.rs:742-772 | Leaves exactly the headers whose slot is in the history, by deleting from the first key in byte order. |

## Left out

- Storage backends, cursors and transactions beyond an ordered map with atomic commit; opening, resetting and migrating a database.
- Encoding and compression of chunks and attestations, tree hashing, signatures and the split between attestation formats: an attestation is its indices, its data and a number for the signature.
- A storage error in the middle of a processing run: such a run ends like one whose commit fails, after all subqueues have been checked rather than some of them.
- The loaded chunks of a row are values in a map, copied into a chunk object while a walk is inside them; the source keeps the chunk itself in the map and updates it through a reference. Nothing else can refer to it.
- Locks: an accept that lands during a processing run appears as `late` in the event, between dequeue and requeue. Other interleavings give the same queues.
- The block half of a processing run shares only the transaction with the attestation half. `Proposers` models it on its own and not inside `SlasherService.Slasher`; the block queue is the set of headers handed to `ProcessBlocks`.
- AttestationBatches.IndexedAttesterRecord.SetId: the panic on a second call is the precondition `id == 0`; `SlasherService.StoreBatch` proves it is met.
- Metrics, logging, batch statistics, service wiring and command-line settings: no behaviour to prove.
