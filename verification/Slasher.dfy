/** The slasher: queueing, validating, storing and checking attestations, proved to follow the protocol. */
module SlasherService {
  import opened Types
  import opened TargetBounds
  import opened Configuration
  import opened ReferenceHistory
  import opened Detection
  import opened WorkOrder
  import opened AttestationBatches
  import opened DatabaseTables
  import opened SlasherDatabase
  import opened ArrayUpdate
  import opened Protocol
  import opened Runs
  import opened Subsequences
  import opened EvidenceOrder

  type Records = seq<IndexedAttesterRecord>

  function IndexedSeq(records: Records): (r: seq<Attestation>)
    ensures |r| == |records| && forall i :: 0 <= i < |r| ==> r[i] == records[i].indexed
  {
    seq(|records|, i requires 0 <= i < |records| => records[i].indexed)
  }

  ghost predicate Distinct(records: Records) {
    forall i, j :: 0 <= i < j < |records| ==> records[i] != records[j]
  }

  lemma NothingDistinct()
    ensures Distinct([])
  {
  }

  lemma NextIsNew(records: Records, i: nat)
    requires Distinct(records) && i < |records|
    ensures records[i] !in records[..i]
  {
  }

  lemma OneMoreDistinct(records: Records, record: IndexedAttesterRecord)
    requires Distinct(records)
    ensures record !in records ==> Distinct(records + [record])
  {
  }

  /** Sort a dequeued batch into kept, deferred and dropped records. */
  method Validate(config: Config, batch: Records, current: Epoch) returns (keep: Records, defer: Records, dropped: nat)
    ensures IndexedSeq(keep) == Select(config, IndexedSeq(batch), current, Keep)
    ensures IndexedSeq(defer) == Select(config, IndexedSeq(batch), current, Defer)
    ensures dropped == |Select(config, IndexedSeq(batch), current, Drop)|
    ensures forall r :: r in keep || r in defer ==> r in batch
    ensures Distinct(batch) ==> Distinct(keep) && Distinct(defer) && forall r :: r in keep ==> r !in defer
  {
    hide Distinct;
    keep, defer, dropped := [], [], 0;
    NothingDistinct();
    for i := 0 to |batch|
      invariant IndexedSeq(keep) == Select(config, IndexedSeq(batch[..i]), current, Keep)
      invariant IndexedSeq(defer) == Select(config, IndexedSeq(batch[..i]), current, Defer)
      invariant dropped == |Select(config, IndexedSeq(batch[..i]), current, Drop)|
      invariant forall r :: r in keep || r in defer ==> r in batch[..i]
      invariant Distinct(batch) ==> Distinct(keep) && Distinct(defer) && forall r :: r in keep ==> r !in defer
    {
      var record := batch[i];
      var target, source := record.indexed.data.target, record.indexed.data.source;
      assert IndexedSeq(batch[..i + 1])[..i] == IndexedSeq(batch[..i]);
      if Distinct(batch) {
        NextIsNew(batch, i);
        OneMoreDistinct(keep, record);
        OneMoreDistinct(defer, record);
      }
      if source > target || source + config.historyLength <= current {
        dropped := dropped + 1;
      } else if target > current {
        defer := defer + [record];
      } else {
        keep := keep + [record];
      }
    }
    assert batch[..|batch|] == batch;
  }

  // ---- Double votes ----

  lemma {:induction false} CheckRecordsConcat(h: History, w1: Work, w2: Work)
    ensures h.CheckRecords(w1 + w2) == h.CheckRecords(w1).CheckRecords(w2)
  {
    if w2 == [] {
      assert w1 + w2 == w1;
    } else {
      assert (w1 + w2)[..|w1 + w2| - 1] == w1 + w2[..|w2| - 1];
      CheckRecordsConcat(h, w1, w2[..|w2| - 1]);
    }
  }

  lemma RecordPairsNone(h: History, vs: seq<Validator>, a: Attestation)
    requires vs == []
    ensures h.CheckRecords(Pairs(vs, a)) == h
  {
  }

  lemma RecordPairsStep(h: History, vs: seq<Validator>, i: nat, a: Attestation)
    requires i < |vs|
    ensures h.CheckRecords(Pairs(vs[..i + 1], a)) == h.CheckRecords(Pairs(vs[..i], a)).CheckRecord(vs[i], a)
  {
    var work := Pairs(vs[..i + 1], a);
    assert work[..|work| - 1] == Pairs(vs[..i], a);
  }

  lemma RecordQueueStep(config: Config, h: History, done: seq<Attestation>, a: Attestation, row: nat)
    requires config.Valid()
    ensures h.CheckRecords(QueueWork(config, done + [a], row)) ==
            h.CheckRecords(QueueWork(config, done, row)).CheckRecords(Pairs(config.AttestingValidatorsInChunk(a.indices, row), a))
  {
    QueueWorkAppend(config, done, a, row);
    CheckRecordsConcat(h, QueueWork(config, done, row), Pairs(config.AttestingValidatorsInChunk(a.indices, row), a));
  }

  /** A stored attestation that validation keeps at the current epoch. */
  ghost predicate ReadyToCheck(config: Config, T: Tables, seen: set<Attestation>, a: Attestation, id: nat, now: Epoch) {
    && a in seen
    && FateOf(config, a.data, now) == Keep
    && id != 0 && id in T.attestations && T.attestations[id] == a
  }

  /** Check one attestation against the records of all its attesters in the chunk. */
  method CheckDoubleVotes(db: SlasherDB, row: nat, a: Attestation, id: nat)
    returns (outcome: Outcome, slashings: set<AttesterSlashing>)
    requires db.Valid() && ReadyToCheck(db.config, db.tables, db.seen, a, id, db.now)
    modifies db`tables, db`cache, db`hist
    ensures db.Valid() && outcome.Pass?
    ensures db.hist == old(db.hist).CheckRecords(Pairs(db.config.AttestingValidatorsInChunk(a.indices, row), a))
    ensures db.hist.emitted == old(db.hist).emitted + slashings
    ensures db.tables.attestations == old(db.tables).attestations
  {
    hide History.Sound, Tables.RecordsAgree, Tables.StoreValid, CacheFits, Tables.ArraysAgree, History.CheckRecords;
    var vs := db.config.AttestingValidatorsInChunk(a.indices, row);
    slashings := {};
    RecordPairsNone(db.hist, vs[..0], a);
    for i := 0 to |vs|
      invariant db.Valid() && db.tables.attestations == old(db.tables).attestations
      invariant db.hist == old(db.hist).CheckRecords(Pairs(vs[..i], a))
      invariant db.hist.emitted == old(db.hist).emitted + slashings
    {
      RecordPairsStep(old(db.hist), vs, i, a);
      var status :- db.CheckAndUpdateAttesterRecord(vs[i], a, id);
      var slashing := status.IntoSlashing(a);
      if slashing.Some? {
        slashings := slashings + {slashing.value};
      }
    }
    assert vs[..|vs|] == vs;
    outcome := Pass;
  }

  /** Every attestation of a subqueue is stored and kept. */
  ghost predicate AllReady(config: Config, T: Tables, seen: set<Attestation>, batch: Records, now: Epoch)
    reads batch
  {
    forall i :: 0 <= i < |batch| ==> ReadyToCheck(config, T, seen, batch[i].indexed, batch[i].id, now)
  }

  lemma QueueProcessable(config: Config, seen: set<Attestation>, queue: seq<Attestation>, row: nat, now: Epoch)
    requires config.Valid()
    requires forall a :: a in queue ==> a in seen && FateOf(config, a.data, now) == Keep
    ensures AllProcessable(seen, QueueWork(config, queue, row))
    ensures forall v, a :: (v, a) in QueueWork(config, queue, row) ==> config.InWindow(a.data.source, now) && a.data.target <= now
  {
    forall v: Validator, a: Attestation | (v, a) in QueueWork(config, queue, row)
      ensures Processable(seen, v, a) && config.InWindow(a.data.source, now) && a.data.target <= now
    {
      InQueueWork(config, queue, row, v, a);
    }
  }

  /** Once the double-vote pass is over, the whole subqueue can be handed to the arrays. */
  lemma ReadyForArrays(config: Config, h: History, seen: set<Attestation>, queue: seq<Attestation>, row: nat, now: Epoch)
    requires config.Valid() && h.Sound(seen)
    requires forall a :: a in queue ==> a in seen && FateOf(config, a.data, now) == Keep
    ensures AllApplicable(config, seen, h.CheckRecords(QueueWork(config, queue, row)), QueueWork(config, queue, row), now)
  {
    QueueProcessable(config, seen, queue, row, now);
    CheckRecordsList(h, seen, QueueWork(config, queue, row));
  }

  // ---- Building and storing a batch ----

  /** De-duplicate the kept records. */
  method BuildBatch(keep: Records) returns (batch: AttestationBatch)
    ensures fresh(batch) && batch.attestations == keep
    ensures Indexed(batch.attesters) == Deduplicated(IndexedSeq(keep))
    ensures forall key :: key in batch.attesters ==> batch.attesters[key] in keep
  {
    batch := new AttestationBatch();
    for i := 0 to |keep|
      invariant fresh(batch) && batch.attestations == keep[..i]
      invariant Indexed(batch.attesters) == Deduplicated(IndexedSeq(keep[..i]))
      invariant forall key :: key in batch.attesters ==> batch.attesters[key] in keep[..i]
    {
      assert IndexedSeq(keep[..i + 1])[..i] == IndexedSeq(keep[..i]);
      batch.Queue(keep[i]);
    }
    assert keep[..|keep|] == keep;
  }

  /** The record has been stored under its identifier. */
  ghost predicate StoredAs(T: Tables, record: IndexedAttesterRecord)
    reads record
  {
    record.id != 0 && record.id in T.attestations && T.attestations[record.id] == record.indexed
  }

  /** Store every record the batch still needs; each gets its identifier exactly once, the others none. */
  method StoreBatch(db: SlasherDB, batch: AttestationBatch)
    requires db.Valid()
    requires Distinct(batch.attestations) && forall i :: 0 <= i < |batch.attestations| ==> batch.attestations[i].id == 0
    modifies db`tables, db`cache, batch.attestations
    ensures db.Valid()
    ensures forall r :: r in batch.attestations ==> if batch.Alive(r) then StoredAs(db.tables, r) else r.id == 0
    ensures forall k :: k in old(db.tables).attestations ==>
              k in db.tables.attestations && db.tables.attestations[k] == old(db.tables).attestations[k]
    ensures forall k :: k in db.tables.attestations && k !in old(db.tables).attestations ==>
              exists r :: r in batch.attestations && batch.Alive(r) && r.id == k
  {
    hide History.Sound, Tables.RecordsAgree, Tables.StoreValid, CacheFits, Tables.ArraysAgree;
    var records := batch.attestations;
    for i := 0 to |records|
      invariant db.Valid()
      invariant forall j :: i <= j < |records| ==> records[j].id == 0
      invariant forall j :: 0 <= j < i ==> if batch.Alive(records[j]) then StoredAs(db.tables, records[j]) else records[j].id == 0
      invariant forall k :: k in old(db.tables).attestations ==>
                  k in db.tables.attestations && db.tables.attestations[k] == old(db.tables).attestations[k]
      invariant forall k :: k in db.tables.attestations && k !in old(db.tables).attestations ==>
                  exists j :: 0 <= j < i && batch.Alive(records[j]) && records[j].id == k
    {
      if batch.Alive(records[i]) {
        var id := db.StoreAndCache(records[i].indexed);
        records[i].SetId(id);
      }
    }
  }

  class Slasher {
    const db: SlasherDB
    var queue: Records
    var attesterSlashings: set<AttesterSlashing>
    /** Slashings already taken by the caller. */
    ghost var harvested: set<AttesterSlashing>
    /** The protocol state this slasher is in. */
    ghost var state: SlasherState

    /** Every slashing of the reference has been handed over or is waiting to be. */
    ghost predicate Accounted()
      reads this, db
    {
      attesterSlashings + harvested == db.hist.emitted
    }

    ghost predicate Valid()
      reads this, db, queue
    {
      && db.Valid() && Accounted()
      && db.hist == state.hist && db.seen == state.seen && db.now == state.now
      && IndexedSeq(queue) == state.queue
      && Distinct(queue) && (forall i :: 0 <= i < |queue| ==> queue[i].id == 0)
    }

    constructor (config: Config)
      requires config.Valid()
      ensures Valid() && fresh(db) && db.config == config
      ensures state == INITIAL && queue == [] && attesterSlashings == {}
    {
      db := new SlasherDB(config);
      queue := [];
      attesterSlashings := {};
      harvested := {};
      state := INITIAL;
    }

    /** The double-vote pass over one subqueue. */
    method CheckAllDoubleVotes(row: nat, batch: Records) returns (outcome: Outcome)
      requires db.Valid() && Accounted() && AllReady(db.config, db.tables, db.seen, batch, db.now)
      modifies this`attesterSlashings, db`tables, db`cache, db`hist
      ensures db.Valid() && Accounted() && outcome.Pass?
      ensures db.hist == old(db.hist).CheckRecords(QueueWork(db.config, IndexedSeq(batch), row))
      ensures db.tables.attestations == old(db.tables).attestations
    {
      hide History.Sound, Tables.RecordsAgree, Tables.StoreValid, CacheFits, Tables.ArraysAgree, History.CheckRecords, QueueWork;
      ghost var queue := IndexedSeq(batch);
      RecordQueueNone(db.config, db.hist, row);
      assert queue[..0] == [];
      for i := 0 to |batch|
        invariant db.Valid() && Accounted()
        invariant db.tables.attestations == old(db.tables).attestations
        invariant db.hist == old(db.hist).CheckRecords(QueueWork(db.config, queue[..i], row))
      {
        assert ReadyToCheck(db.config, old(db.tables), db.seen, batch[i].indexed, batch[i].id, db.now);
        RecordQueueStep(db.config, old(db.hist), queue[..i], queue[i], row);
        assert queue[..i + 1] == queue[..i] + [queue[i]];
        var slashings :- CheckDoubleVotes(db, row, batch[i].indexed, batch[i].id);
        attesterSlashings := attesterSlashings + slashings;
      }
      assert queue[..|batch|] == queue;
      outcome := Pass;
    }

    /** One subqueue: first all double votes, then the arrays. */
    method ProcessBatch(row: nat, batch: Records, current: Epoch) returns (outcome: Outcome)
      requires current == db.now
      requires db.Valid() && Accounted() && AllReady(db.config, db.tables, db.seen, batch, db.now)
      modifies this`attesterSlashings, db`tables, db`cache, db`hist
      ensures db.Valid() && Accounted() && outcome.Pass?
      ensures var queue := IndexedSeq(batch);
              db.hist == old(db.hist).CheckBatch(QueueWork(db.config, queue, row), QueueWork(db.config, ArrayOrder(db.config, queue), row))
      ensures db.tables.attestations == old(db.tables).attestations
    {
      hide Tables.RecordsAgree, Tables.StoreValid, CacheFits, Tables.ArraysAgree, History.Sound, History.CheckRecords, History.CheckArrays, QueueWork, ArrayOrder, AllApplicable;
      ghost var queue := IndexedSeq(batch);
      assert forall a :: a in queue ==> a in db.seen && FateOf(db.config, a.data, db.now) == Keep;
      ReadyForArrays(db.config, db.hist, db.seen, queue, row, db.now);
      :- CheckAllDoubleVotes(row, batch);
      var attestations := IndexedSeq(batch);
      var slashings :- Update(db, row, attestations, current);
      attesterSlashings := attesterSlashings + slashings;
      outcome := Pass;
    }

    /** All subqueues, in the order of their validator chunk. */
    method ProcessSubqueues(subqueues: seq<Records>, current: Epoch, ghost queues: seq<seq<Attestation>>) returns (outcome: Outcome)
      requires current == db.now && db.Valid() && Accounted()
      requires |queues| == |subqueues| && forall c :: 0 <= c < |subqueues| ==> IndexedSeq(subqueues[c]) == queues[c]
      requires forall c :: 0 <= c < |subqueues| ==> AllReady(db.config, db.tables, db.seen, subqueues[c], db.now)
      modifies this`attesterSlashings, db`tables, db`cache, db`hist
      ensures db.Valid() && Accounted() && outcome.Pass?
      ensures db.hist == Protocol.ProcessSubqueues(db.config, old(db.hist), queues, |queues|)
      ensures db.tables.attestations == old(db.tables).attestations
    {
      hide Tables.RecordsAgree, Tables.StoreValid, CacheFits, Tables.ArraysAgree, History.Sound, History.CheckBatch, QueueWork, ArrayOrder;
      for c := 0 to |subqueues|
        invariant db.Valid() && Accounted()
        invariant db.tables.attestations == old(db.tables).attestations
        invariant db.hist == Protocol.ProcessSubqueues(db.config, old(db.hist), queues, c)
      {
        assert AllReady(db.config, old(db.tables), db.seen, subqueues[c], db.now);
        :- ProcessBatch(c, subqueues[c], current);
      }
      outcome := Pass;
    }

    /** De-duplicate, store, group and check the kept records. */
    method ProcessKept(keep: Records, current: Epoch) returns (outcome: Outcome)
      requires current == db.now && db.Valid() && Accounted()
      requires Distinct(keep) && forall i :: 0 <= i < |keep| ==> keep[i].id == 0
      requires forall a :: a in IndexedSeq(keep) ==> a in db.seen && FateOf(db.config, a.data, db.now) == Keep
      modifies this`attesterSlashings, db`tables, db`cache, db`hist, keep
      ensures db.Valid() && Accounted() && outcome.Pass?
      ensures var queues := Subqueues(db.config, IndexedSeq(keep));
              db.hist == Protocol.ProcessSubqueues(db.config, old(db.hist), queues, |queues|)
      ensures forall k :: k in old(db.tables).attestations ==>
                k in db.tables.attestations && db.tables.attestations[k] == old(db.tables).attestations[k]
    {
      hide Tables.RecordsAgree, Tables.StoreValid, CacheFits, Tables.ArraysAgree, History.Sound, Protocol.ProcessSubqueues, Subqueues, Deduplicated, Mirrors, SubqueueKeys, Ascending, AllReady, StoredAs, FateOf;
      var batch := BuildBatch(keep);
      StoreBatch(db, batch);
      var subqueues := GroupByValidatorChunkIndex(db.config, batch.attesters);
      ghost var queues := Subqueues(db.config, IndexedSeq(keep));
      SubqueuesReady(db.config, db.tables, db.seen, batch, keep, subqueues, db.now);
      outcome := ProcessSubqueues(subqueues, current, queues);
    }

    /** Accept an attestation from the network. */
    method AcceptAttestation(a: Attestation)
      requires Valid()
      modifies this
      ensures Valid() && state == old(state).Step(db.config, Accept(a)) && harvested == old(harvested)
      ensures forall i :: 0 <= i < |queue| ==> queue[i] in old(queue) || fresh(queue[i])
    {
      var record := new IndexedAttesterRecord(a);
      queue := queue + [record];
      state := state.Step(db.config, Accept(a));
    }

    /** Dequeue, let `late` arrive, validate what was dequeued and requeue what is too early. */
    method TakeValid(current: Epoch, late: seq<Attestation>) returns (keep: Records)
      requires Distinct(queue) && (forall i :: 0 <= i < |queue| ==> queue[i].id == 0)
      modifies this`queue
      ensures IndexedSeq(keep) == Select(db.config, IndexedSeq(old(queue)), current, Keep)
      ensures IndexedSeq(queue) == late + Select(db.config, IndexedSeq(old(queue)), current, Defer)
      ensures Distinct(keep) && (forall i :: 0 <= i < |keep| ==> keep[i].id == 0 && keep[i] in old(queue))
      ensures Distinct(queue) && (forall i :: 0 <= i < |queue| ==> queue[i].id == 0 && queue[i] !in keep)
      ensures forall i :: 0 <= i < |queue| ==> queue[i] in old(queue) || fresh(queue[i])
    {
      hide Select, Distinct;
      var snapshot := queue;
      queue := [];
      var arrivals := NewRecords(late);
      assert queue + arrivals == arrivals;
      queue := queue + arrivals;
      var defer, dropped;
      keep, defer, dropped := Validate(db.config, snapshot, current);
      forall r | r in snapshot ensures r !in arrivals && r.id == 0 {
        assert forall i :: 0 <= i < |arrivals| ==> fresh(arrivals[i]);
      }
      Requeue(arrivals, defer);
      queue := queue + defer;
    }

    /**
     * Process everything queued at the current epoch. `late` arrives while the run has the
     * queue in its hands; `commits` says whether the final commit succeeds.
     */
    method ProcessQueued(current: Epoch, late: seq<Attestation>, commits: bool) returns (outcome: Outcome)
      requires Valid() && state.Enabled(Process(current, late, commits))
      modifies this, db, queue
      ensures Valid() && outcome.Pass?
      ensures state == old(state).Step(db.config, Process(current, late, commits)) && harvested == old(harvested)
      ensures !commits ==> db.tables == old(db.tables)
      ensures forall id :: id in old(db.tables).attestations ==>
                id in db.tables.attestations && db.tables.attestations[id] == old(db.tables).attestations[id]
      ensures forall i :: 0 <= i < |queue| ==> queue[i] in old(queue) || fresh(queue[i])
    {
      hide Tables.RecordsAgree, Tables.StoreValid, CacheFits, Tables.ArraysAgree, History.Sound, Protocol.ProcessSubqueues, Subqueues, Select, FateOf;
      var keep := TakeValid(current, late);
      ghost var kept := Select(db.config, old(state).queue, current, Keep);
      forall a | a in kept ensures FateOf(db.config, a.data, current) == Keep {
        InSelect(db.config, old(state).queue, current, Keep, a);
      }
      var saved := db.tables;
      ghost var before := db.hist;
      db.Advance(current, set a | a in kept);
      outcome := ProcessKept(keep, current);
      if !commits {
        ProcessGrows(db.config, before, Subqueues(db.config, kept), |Subqueues(db.config, kept)|);
        CacheFitsFewer(db.tables, saved, db.cache);
        db.Rollback(saved, before);
      }
      state := state.Step(db.config, Process(current, late, commits));
    }

    /** Prune; when the commit fails the tables come back but the cache has lost its entries. */
    method PruneDatabase(current: Epoch, commits: bool)
      requires Valid() && state.Enabled(Prune(current, commits))
      modifies this, db
      ensures Valid() && state == old(state).Step(db.config, Prune(current, commits))
      ensures queue == old(queue) && attesterSlashings == old(attesterSlashings) && harvested == old(harvested)
      ensures !commits ==> db.tables == old(db.tables)
      ensures commits ==>
                && db.tables == old(db.tables).(attestations := db.tables.attestations, attestationIds := db.tables.attestationIds)
                && (forall id :: id in db.tables.attestations <==>
                      id in old(db.tables).attestations && current < old(db.tables).attestations[id].data.target + db.config.historyLength)
                && (forall id :: id in db.tables.attestations ==> db.tables.attestations[id] == old(db.tables).attestations[id])
    {
      hide History.Sound, Tables.RecordsAgree, Tables.StoreValid, Tables.ArraysAgree;
      db.Advance(current, {});
      var saved := db.tables;
      db.PruneIndexedAttestations(current);
      if !commits {
        db.Rollback(saved, db.hist);
      }
      state := state.Step(db.config, Prune(current, commits));
    }

    /** Hand over all slashings found and forget them. */
    method GetAttesterSlashings() returns (slashings: set<AttesterSlashing>)
      requires Valid()
      modifies this
      ensures Valid() && state == old(state).Step(db.config, Harvest)
      ensures slashings == old(attesterSlashings) && attesterSlashings == {}
      ensures queue == old(queue) && harvested == old(harvested) + slashings
    {
      slashings := attesterSlashings;
      harvested := harvested + slashings;
      attesterSlashings := {};
      state := state.Step(db.config, Harvest);
    }
  }

  ghost predicate HeldBy(attesters: map<Key, IndexedAttesterRecord>, record: IndexedAttesterRecord) {
    exists key :: key in attesters && attesters[key] == record
  }

  /** The subqueues of records hold exactly the protocol's subqueues. */
  lemma SubqueuesMatch(config: Config, keep: seq<Attestation>, attesters: map<Key, IndexedAttesterRecord>, subqueues: seq<Records>, c: nat)
    requires config.Valid() && Indexed(attesters) == Deduplicated(keep)
    requires Mirrors(subqueues, SubqueueKeys(config, Ascending(attesters.Keys)), attesters)
    ensures |subqueues| == |Subqueues(config, keep)|
    ensures c < |subqueues| ==> IndexedSeq(subqueues[c]) == Subqueues(config, keep)[c]
    ensures c < |subqueues| ==> forall i :: 0 <= i < |subqueues[c]| ==> HeldBy(attesters, subqueues[c][i])
  {
    var m := Deduplicated(keep);
    assert m.Keys == attesters.Keys;
    var keys := SubqueueKeys(config, Ascending(attesters.Keys));
    if c < |subqueues| {
      forall i | 0 <= i < |subqueues[c]| ensures IndexedSeq(subqueues[c])[i] == Subqueues(config, keep)[c][i] {
        assert keys[c][i] in attesters && subqueues[c][i] == attesters[keys[c][i]];
      }
    }
  }

  /** A subqueue of records that the batch still holds is stored and kept. */
  lemma SubqueueReady(config: Config, T: Tables, seen: set<Attestation>, batch: AttestationBatch, keep: Records, subqueue: Records, now: Epoch)
    requires forall key :: key in batch.attesters ==> batch.attesters[key] in keep
    requires forall r :: r in keep && batch.Alive(r) ==> StoredAs(T, r)
    requires forall a :: a in IndexedSeq(keep) ==> a in seen && FateOf(config, a.data, now) == Keep
    requires forall i :: 0 <= i < |subqueue| ==> HeldBy(batch.attesters, subqueue[i])
    ensures AllReady(config, T, seen, subqueue, now)
  {
    forall i | 0 <= i < |subqueue| ensures ReadyToCheck(config, T, seen, subqueue[i].indexed, subqueue[i].id, now) {
      var r := subqueue[i];
      assert HeldBy(batch.attesters, r) && batch.Alive(r) && r in keep;
      var j :| 0 <= j < |keep| && keep[j] == r;
      assert IndexedSeq(keep)[j] == r.indexed;
    }
  }

  lemma SubqueuesReady(config: Config, T: Tables, seen: set<Attestation>, batch: AttestationBatch, keep: Records,
                       subqueues: seq<Records>, now: Epoch)
    requires config.Valid() && Indexed(batch.attesters) == Deduplicated(IndexedSeq(keep))
    requires Mirrors(subqueues, SubqueueKeys(config, Ascending(batch.attesters.Keys)), batch.attesters)
    requires forall key :: key in batch.attesters ==> batch.attesters[key] in keep
    requires forall r :: r in keep && batch.Alive(r) ==> StoredAs(T, r)
    requires forall a :: a in IndexedSeq(keep) ==> a in seen && FateOf(config, a.data, now) == Keep
    ensures var queues := Subqueues(config, IndexedSeq(keep));
            |subqueues| == |queues| && forall c :: 0 <= c < |subqueues| ==>
              IndexedSeq(subqueues[c]) == queues[c] && AllReady(config, T, seen, subqueues[c], now)
  {
    hide Mirrors, Deduplicated, Subqueues, SubqueueKeys, Ascending, AllReady, StoredAs, FateOf;
    SubqueuesMatch(config, IndexedSeq(keep), batch.attesters, subqueues, 0);
    forall c | 0 <= c < |subqueues|
      ensures IndexedSeq(subqueues[c]) == Subqueues(config, IndexedSeq(keep))[c]
      ensures AllReady(config, T, seen, subqueues[c], now)
    {
      SubqueuesMatch(config, IndexedSeq(keep), batch.attesters, subqueues, c);
      SubqueueReady(config, T, seen, batch, keep, subqueues[c], now);
    }
  }

  /** New records for attestations that have just arrived. */
  method NewRecords(attestations: seq<Attestation>) returns (records: Records)
    ensures IndexedSeq(records) == attestations && Distinct(records)
    ensures forall i :: 0 <= i < |records| ==> fresh(records[i]) && records[i].id == 0
  {
    records := [];
    for i := 0 to |attestations|
      invariant IndexedSeq(records) == attestations[..i] && Distinct(records)
      invariant forall j :: 0 <= j < |records| ==> fresh(records[j]) && records[j].id == 0
    {
      var record := new IndexedAttesterRecord(attestations[i]);
      records := records + [record];
    }
  }

  lemma Requeue(arrivals: Records, defer: Records)
    requires Distinct(arrivals) && Distinct(defer) && forall r :: r in defer ==> r !in arrivals
    ensures Distinct(arrivals + defer)
    ensures IndexedSeq(arrivals + defer) == IndexedSeq(arrivals) + IndexedSeq(defer)
  {
    var queue := arrivals + defer;
    forall i, j | 0 <= i < j < |queue| ensures queue[i] != queue[j] {
      assert i < |arrivals| <= j ==> queue[i] in arrivals && queue[j] in defer;
    }
  }

  lemma RecordQueueNone(config: Config, h: History, row: nat)
    requires config.Valid()
    ensures h.CheckRecords(QueueWork(config, [], row)) == h
  {
  }

  // ---- Whole runs ----

  lemma {:induction false} OrderedPrefix(config: Config, events: seq<Event>, i: nat)
    requires config.Valid() && Ordered(config, events) && i < |events|
    ensures Run(config, events[..i]).Enabled(events[i])
    ensures Run(config, events[..i + 1]) == Run(config, events[..i]).Step(config, events[i])
  {
    assert events[..i + 1][..i] == events[..i];
    if i + 1 == |events| {
      assert events[..i + 1] == events;
    } else {
      var init := events[..|events| - 1];
      OrderedPrefix(config, init, i);
      assert init[..i] == events[..i] && init[i] == events[i];
    }
  }

  /**
   * Run a slasher through any sequence of events and collect every slashing it hands over. The
   * result is the reference's, and it implicates exactly the guilty.
   */
  method RunSlasher(config: Config, events: seq<Event>) returns (slashings: set<AttesterSlashing>)
    requires config.Valid() && Ordered(config, events)
    ensures slashings == Run(config, events).hist.emitted
    ensures forall slashing :: slashing in slashings ==> IsSlashable(slashing.attestation1, slashing.attestation2)
    ensures forall v :: Guilty(Run(config, events).committed, v) ==> exists slashing :: slashing in slashings && slashing.Implicates(v)
    ensures forall v, slashing :: slashing in slashings && slashing.Implicates(v) ==> Guilty(Run(config, events).seen, v)
  {
    hide SlasherDB.Valid, SlasherState.Step, SlasherState.Enabled, Ordered, Run, Guilty, IsSlashable, AttesterSlashing.Implicates;
    var slasher := new Slasher(config);
    slashings := {};
    RunNothing(config);
    assert events[..0] == [];
    for i := 0 to |events|
      invariant fresh(slasher) && fresh(slasher.db) && slasher.db.config == config
      invariant forall j :: 0 <= j < |slasher.queue| ==> fresh(slasher.queue[j])
      invariant slasher.Valid() && slasher.state == Run(config, events[..i])
      invariant slashings == slasher.harvested
    {
      OrderedPrefix(config, events, i);
      match events[i] {
        case Accept(a) => slasher.AcceptAttestation(a);
        case Process(current, late, commits) => var outcome := slasher.ProcessQueued(current, late, commits);
        case Prune(current, commits) => slasher.PruneDatabase(current, commits);
        case Harvest =>
          var found := slasher.GetAttesterSlashings();
          slashings := slashings + found;
      }
    }
    assert events[..|events|] == events;
    var rest := slasher.GetAttesterSlashings();
    slashings := slashings + rest;
    RunIsExact(config, events);
  }

  /**
   * Two slashers, one fed a run and the other the same run without its prunes: they hand over the
   * same slashings, although the first deletes attestations and hands out their identifiers again.
   */
  method RunWithAndWithoutPrunes(config: Config, events: seq<Event>)
    returns (pruned: set<AttesterSlashing>, unpruned: set<AttesterSlashing>)
    requires config.Valid() && Ordered(config, events)
    ensures pruned == unpruned == Run(config, events).hist.emitted
    ensures unpruned == Run(config, WithoutPrunes(events)).hist.emitted
    ensures forall event :: event in WithoutPrunes(events) ==> !event.Prune?
    ensures forall event: Event :: !event.Prune? ==> multiset(WithoutPrunes(events))[event] == multiset(events)[event]
    ensures exists picks :: PickedFrom(events, WithoutPrunes(events), picks)
  {
    hide Run, Ordered, WithoutPrunes, PickedFrom;
    PruneInvisible(config, events);
    ghost var picks := WithoutPrunesInOrder(events);
    forall event: Event | !event.Prune? ensures multiset(WithoutPrunes(events))[event] == multiset(events)[event] {
      WithoutPrunesCount(events, event);
    }
    pruned := RunSlasher(config, events);
    unpruned := RunSlasher(config, WithoutPrunes(events));
  }

  /** Two attestations, processed one after the other: exactly the evidence of the pair is handed over. */
  method RunOneByOne(config: Config, a: Attestation, epoch: Epoch, b: Attestation, epoch': Epoch)
    returns (slashings: set<AttesterSlashing>)
    requires config.Valid() && epoch <= epoch'
    requires FateOf(config, a.data, epoch) == Keep && FateOf(config, b.data, epoch') == Keep
    ensures var evidence := EvidenceOf(a, b);
            slashings == if IsSlashable(evidence.attestation1, evidence.attestation2) && exists v :: evidence.Implicates(v)
                         then {evidence} else {}
  {
    hide Run, Ordered;
    var events := OneByOne(a, epoch, b, epoch');
    OrderedExactly(config, events);
    PairOneByOne(config, a, epoch, b, epoch');
    slashings := RunSlasher(config, events);
  }

  lemma RunNothing(config: Config)
    requires config.Valid()
    ensures Run(config, []) == INITIAL
  {
  }

  lemma RunIsExact(config: Config, events: seq<Event>)
    requires config.Valid()
    ensures var s := Run(config, events);
            && (forall slashing :: slashing in s.hist.emitted ==> IsSlashable(slashing.attestation1, slashing.attestation2))
            && (forall v :: Guilty(s.committed, v) ==> exists slashing :: slashing in s.hist.emitted && slashing.Implicates(v))
            && (forall v, slashing :: slashing in s.hist.emitted && slashing.Implicates(v) ==> Guilty(s.seen, v))
  {
    var s := Run(config, events);
    forall slashing | slashing in s.hist.emitted ensures IsSlashable(slashing.attestation1, slashing.attestation2) {
      EvidenceIsValid(config, events, slashing);
    }
    forall v | Guilty(s.committed, v) ensures exists slashing :: slashing in s.hist.emitted && slashing.Implicates(v) {
      Completeness(config, events, v);
    }
    forall v, slashing | slashing in s.hist.emitted && slashing.Implicates(v) ensures Guilty(s.seen, v) {
      assert s.hist.Caught(v);
      Soundness(config, events, v);
    }
  }
}
