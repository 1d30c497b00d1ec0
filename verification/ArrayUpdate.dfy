/** Surround detection: applying the votes of one validator chunk to its min and max arrays. */
module ArrayUpdate {
  import opened Types
  import opened TargetBounds
  import opened Configuration
  import opened ReferenceHistory
  import opened TargetArrays
  import opened DatabaseTables
  import opened SlasherDatabase
  import opened Detection
  import opened WorkOrder
  import Arithmetic

  /** A vote the batch path hands to the arrays: valid at the current epoch and already recorded. */
  ghost predicate Applicable(db: SlasherDB, v: Validator, a: Attestation)
    reads db
  {
    && Processable(db.seen, v, a)
    && db.config.InWindow(a.data.source, db.now) && a.data.target <= db.now
    && db.hist.Recorded(v, a)
  }

  /** The working array holds, for `v`, exactly the votes the reference has accepted by epoch `at`. */
  ghost predicate TracksRow(arr: TargetArray, loaded: ChunkMap, h: History, v: Validator, at: Epoch)
    requires ChunksValid(arr.config, arr.table) && ChunksValid(arr.config, loaded)
  {
    var votes := h.Accepted(arr.kind, v);
    && arr.Agrees(loaded, v, votes, at)
    && (forall vote :: vote in votes ==> vote.source <= vote.target <= at)
  }

  ghost predicate Tracks(arr: TargetArray, loaded: ChunkMap, h: History, at: Epoch)
    requires ChunksValid(arr.config, arr.table) && ChunksValid(arr.config, loaded)
  {
    forall v :: arr.config.InChunk(v, arr.row) ==> TracksRow(arr, loaded, h, v, at)
  }

  /** One vote processed for `v` keeps the array in step with the reference. */
  lemma TracksStep(arr: TargetArray, before: ChunkMap, after: ChunkMap, h: History, v: Validator, a: Attestation, at: Epoch)
    requires ChunksValid(arr.config, arr.table) && ChunksValid(arr.config, before) && ChunksValid(arr.config, after)
    requires Tracks(arr, before, h, at) && arr.config.InChunk(v, arr.row)
    requires a.data.source <= a.data.target <= at
    requires if h.ArrayStatus(arr.kind, v, a).NotSlashable? then
               arr.Agrees(after, v, h.Accepted(arr.kind, v) + [VoteOf(a)], at) && arr.OthersKept(before, after, v)
             else
               forall v', e :: arr.At(after, v', e) == arr.At(before, v', e)
    ensures Tracks(arr, after, h.CheckArray(arr.kind, v, a), at)
  {
    var h' := h.CheckArray(arr.kind, v, a);
    forall w | arr.config.InChunk(w, arr.row) ensures TracksRow(arr, after, h', w, at) {
      assert TracksRow(arr, before, h, w, at);
      if w != v {
        arr.config.OffsetsDistinct(v, w);
        assert h'.Accepted(arr.kind, w) == h.Accepted(arr.kind, w);
      }
    }
  }

  /** The array's verdict on one vote is the reference's, and looking up the other vote never fails. */
  method CheckSlashable(db: SlasherDB, arr: TargetArray, v: Validator, a: Attestation)
    returns (outcome: Outcome, status: SlashingStatus)
    requires db.RecordsValid() && arr.Valid() && arr.config == db.config
    requires TracksRow(arr, arr.chunks, db.hist, v, db.now) && Applicable(db, v, a)
    modifies arr
    ensures arr.Valid() && outcome.Pass?
    ensures status == db.hist.ArrayStatus(arr.kind, v, a)
    ensures forall v', e :: arr.At(arr.chunks, v', e) == arr.At(old(arr.chunks), v', e)
  {
    status := NotSlashable;
    ghost var votes := db.hist.Accepted(arr.kind, v);
    ArrayVerdict(db.hist, db.seen, arr.kind, v, a);
    var bound :- arr.GetTarget(v, a.data.source);
    assert bound == arr.kind.Bound(votes, a.data.source);
    if arr.kind.Convicts(bound, a.data.target) {
      ghost var vote := arr.kind.ConvictionHasWitness(votes, a.data.source, a.data.target);
      var existing :- db.GetAttestationForValidator(v, bound);
      match arr.kind {
        case Min =>
          status := if a.data.source < existing.data.source then SurroundsExisting(existing) else AlreadyDoubleVoted;
        case Max =>
          status := if existing.data.source < a.data.source then SurroundedByExisting(existing) else AlreadyDoubleVoted;
      }
    }
    outcome := Pass;
  }

  method ApplyAttestationForValidator(db: SlasherDB, arr: TargetArray, v: Validator, a: Attestation, current: Epoch)
    returns (outcome: Outcome, status: SlashingStatus)
    requires current == db.now
    requires db.RecordsValid() && arr.Valid() && arr.config == db.config && Tracks(arr, arr.chunks, db.hist, db.now)
    requires db.config.InChunk(v, arr.row) && Applicable(db, v, a)
    modifies arr, db`hist
    ensures outcome.Pass? && db.RecordsValid() && arr.Valid() && Tracks(arr, arr.chunks, db.hist, db.now)
    ensures status == old(db.hist).ArrayStatus(arr.kind, v, a)
    ensures db.hist == old(db.hist).CheckArray(arr.kind, v, a)
  {
    ghost var before := arr.chunks;
    status :- CheckSlashable(db, arr, v, a);
    CheckArrayStep(db.hist, db.seen, arr.kind, v, a);
    if status.NotSlashable? {
      :- arr.Walk(v, a.data.source, a.data.target, current, db.hist.Accepted(arr.kind, v));
    }
    TracksStep(arr, before, arr.chunks, db.hist, v, a, current);
    db.hist := db.hist.CheckArray(arr.kind, v, a);
    RecordsKept(db.config, db.tables, db.tables, old(db.hist), db.hist, db.now, db.now);
    outcome := Pass;
  }

  // ---- The change of current epoch ----

  /** Resetting one validator brings its row up to date. */
  lemma ResetTracks(arr: TargetArray, T: Tables, before: ChunkMap, after: ChunkMap, h: History, v: Validator, current: Epoch)
    requires ChunksValid(arr.config, arr.table) && ChunksValid(arr.config, before) && ChunksValid(arr.config, after)
    requires T.Array(arr.kind) == arr.table && T.RowAgrees(arr.config, h, arr.kind, v)
    requires arr.config.InChunk(v, arr.row)
    requires forall e :: arr.At(before, v, e) == TableAt(arr.config, arr.kind, arr.table, arr.row, v, e)
    requires v in T.currentEpochs ==>
               T.currentEpochs[v] <= current && arr.ResetTo(before, after, v, T.currentEpochs[v], current + 1, current)
    requires v !in T.currentEpochs ==> after == before
    ensures TracksRow(arr, after, h, v, current)
  {
    var votes := h.Accepted(arr.kind, v);
    if v in T.currentEpochs {
      arr.ResetKeepsAgreement(before, after, v, votes, T.currentEpochs[v], current);
    }
  }

  /** Bring every validator of the chunk up to the current epoch. */
  method UpdateEpochs(db: SlasherDB, arr: TargetArray, current: Epoch) returns (outcome: Outcome)
    requires arr.Valid() && arr.config == db.config && arr.chunks == map[]
    requires db.tables.Array(arr.kind) == arr.table
    requires forall v :: db.config.InChunk(v, arr.row) ==> db.tables.RowAgrees(db.config, db.hist, arr.kind, v)
    requires forall v :: v in db.tables.currentEpochs ==> db.tables.currentEpochs[v] <= current
    modifies arr
    ensures arr.Valid() && outcome.Pass?
    ensures Tracks(arr, arr.chunks, db.hist, current)
  {
    hide TracksRow, Tables.RowAgrees, TableAt, TargetArray.ResetTo;
    var config := db.config;
    var v: Validator := arr.row * config.validatorChunkSize;
    var end := (arr.row + 1) * config.validatorChunkSize;
    while v < end
      invariant arr.Valid() && arr.row * config.validatorChunkSize <= v
      invariant forall w: Validator :: config.InChunk(w, arr.row) && w < v ==> TracksRow(arr, arr.chunks, db.hist, w, current)
      invariant forall w: Validator, e: Epoch :: config.InChunk(w, arr.row) && v <= w ==>
                  arr.At(arr.chunks, w, e) == TableAt(config, arr.kind, arr.table, arr.row, w, e)
      decreases end - v
    {
      config.ChunkRange(v, arr.row);
      ghost var before := arr.chunks;
      var previous := if v in db.tables.currentEpochs then Some(db.tables.currentEpochs[v]) else None;
      :- arr.EpochUpdate(v, previous, current);
      ResetTracks(arr, db.tables, before, arr.chunks, db.hist, v, current);
      OthersStillTrack(arr, before, arr.chunks, db.hist, v, current);
      v := v + 1;
    }
    forall w | config.InChunk(w, arr.row) ensures TracksRow(arr, arr.chunks, db.hist, w, current) {
      config.ChunkRange(w, arr.row);
    }
    outcome := Pass;
  }

  lemma OthersStillTrack(arr: TargetArray, before: ChunkMap, after: ChunkMap, h: History, v: Validator, current: Epoch)
    requires ChunksValid(arr.config, arr.table) && ChunksValid(arr.config, before) && ChunksValid(arr.config, after)
    requires arr.config.InChunk(v, arr.row)
    requires after == before || arr.OthersKept(before, after, v)
    ensures forall w :: arr.config.InChunk(w, arr.row) && w != v && TracksRow(arr, before, h, w, current) ==>
              TracksRow(arr, after, h, w, current)
    ensures forall w, e :: arr.config.InChunk(w, arr.row) && w != v ==> arr.At(after, w, e) == arr.At(before, w, e)
  {
    forall w | arr.config.InChunk(w, arr.row) && w != v ensures arr.config.ValidatorOffset(w) != arr.config.ValidatorOffset(v) {
      arr.config.OffsetsDistinct(v, w);
    }
  }

  // ---- Applying a queue ----

  lemma {:induction false} CheckArraysConcat(h: History, kind: Kind, w1: Work, w2: Work)
    ensures h.CheckArrays(kind, w1 + w2) == h.CheckArrays(kind, w1).CheckArrays(kind, w2)
  {
    if w2 == [] {
      assert w1 + w2 == w1;
    } else {
      assert (w1 + w2)[..|w1 + w2| - 1] == w1 + w2[..|w2| - 1];
      CheckArraysConcat(h, kind, w1, w2[..|w2| - 1]);
    }
  }

  lemma CheckPairsNone(h: History, kind: Kind, vs: seq<Validator>, a: Attestation)
    requires vs == []
    ensures h.CheckArrays(kind, Pairs(vs, a)) == h
  {
  }

  lemma CheckPairsStep(h: History, kind: Kind, vs: seq<Validator>, i: nat, a: Attestation)
    requires i < |vs|
    ensures h.CheckArrays(kind, Pairs(vs[..i + 1], a)) == h.CheckArrays(kind, Pairs(vs[..i], a)).CheckArray(kind, vs[i], a)
  {
    var work := Pairs(vs[..i + 1], a);
    assert work[..|work| - 1] == Pairs(vs[..i], a);
  }

  /** Everything in the list can be handed to the arrays at the current epoch. */
  ghost predicate AllApplicable(config: Config, seen: set<Attestation>, h: History, work: Work, now: Epoch) {
    forall v, a :: (v, a) in work ==>
      && Processable(seen, v, a)
      && config.InWindow(a.data.source, now) && a.data.target <= now
      && h.Recorded(v, a)
  }

  /** Processing part of a list leaves the rest applicable. */
  lemma StillApplicable(config: Config, seen: set<Attestation>, h: History, kind: Kind, done: Work, work: Work, now: Epoch)
    requires h.Sound(seen) && AllApplicable(config, seen, h, work, now)
    requires forall x :: x in done ==> x in work
    ensures AllApplicable(config, seen, h.CheckArrays(kind, done), work, now)
  {
    assert AllProcessable(seen, done);
    CheckArraysList(h, seen, kind, done);
    ExtendsKeeps(h, h.CheckArrays(kind, done));
  }

  lemma NextApplicable(config: Config, seen: set<Attestation>, h: History, kind: Kind, vs: seq<Validator>, i: nat, a: Attestation, now: Epoch)
    requires h.Sound(seen) && AllApplicable(config, seen, h, Pairs(vs, a), now) && i < |vs|
    ensures var h' := h.CheckArrays(kind, Pairs(vs[..i], a));
            && Processable(seen, vs[i], a) && h'.Recorded(vs[i], a)
            && config.InWindow(a.data.source, now) && a.data.target <= now
  {
    forall x | x in Pairs(vs[..i], a) ensures x in Pairs(vs, a) {
      var j :| 0 <= j < i && x == Pairs(vs[..i], a)[j];
      assert x == Pairs(vs, a)[j];
    }
    StillApplicable(config, seen, h, kind, Pairs(vs[..i], a), Pairs(vs, a), now);
    assert Pairs(vs, a)[i] == (vs[i], a);
  }

  /** One attestation for all its attesters in the chunk. */
  method ApplyAttestation(db: SlasherDB, arr: TargetArray, a: Attestation, current: Epoch)
    returns (outcome: Outcome, slashings: set<AttesterSlashing>)
    requires current == db.now
    requires db.RecordsValid() && arr.Valid() && arr.config == db.config && Tracks(arr, arr.chunks, db.hist, db.now)
    requires AllApplicable(db.config, db.seen, db.hist, Pairs(db.config.AttestingValidatorsInChunk(a.indices, arr.row), a), db.now)
    modifies arr, db`hist
    ensures outcome.Pass? && db.RecordsValid() && arr.Valid() && Tracks(arr, arr.chunks, db.hist, db.now)
    ensures db.hist == old(db.hist).CheckArrays(arr.kind, Pairs(db.config.AttestingValidatorsInChunk(a.indices, arr.row), a))
    ensures db.hist.emitted == old(db.hist).emitted + slashings
  {
    hide History.Sound, Tables.RecordsAgree, Tables.StoreValid, CacheFits, History.CheckArrays, Tracks, AllApplicable;
    var vs := db.config.AttestingValidatorsInChunk(a.indices, arr.row);
    slashings := {};
    CheckPairsNone(db.hist, arr.kind, vs[..0], a);
    for i := 0 to |vs|
      invariant db.RecordsValid() && arr.Valid() && Tracks(arr, arr.chunks, db.hist, db.now)
      invariant db.hist == old(db.hist).CheckArrays(arr.kind, Pairs(vs[..i], a))
      invariant db.hist.emitted == old(db.hist).emitted + slashings
    {
      CheckPairsStep(old(db.hist), arr.kind, vs, i, a);
      NextApplicable(db.config, db.seen, old(db.hist), arr.kind, vs, i, a, db.now);
      var status :- ApplyAttestationForValidator(db, arr, vs[i], a, current);
      var slashing := status.IntoSlashing(a);
      if slashing.Some? {
        slashings := slashings + {slashing.value};
      }
    }
    assert vs[..|vs|] == vs;
    outcome := Pass;
  }

  /** The attestations of a queue by the chunk of their source. */
  ghost predicate GroupedBySource(config: Config, queue: seq<Attestation>, groups: map<nat, seq<Attestation>>)
    requires config.Valid()
  {
    forall i :: SourceGroup(config, queue, i) == if i in groups then groups[i] else []
  }

  method GroupBySource(config: Config, queue: seq<Attestation>) returns (groups: map<nat, seq<Attestation>>)
    requires config.Valid()
    ensures GroupedBySource(config, queue, groups)
  {
    groups := map[];
    for i := 0 to |queue|
      invariant GroupedBySource(config, queue[..i], groups)
    {
      var a := queue[i];
      var chunk := config.ChunkIndex(a.data.source);
      assert queue[..i + 1][..i] == queue[..i] && queue[..i + 1][i] == a;
      groups := groups[chunk := (if chunk in groups then groups[chunk] else []) + [a]];
    }
    assert queue[..|queue|] == queue;
  }

  /** The queue processed so far, extended by one attestation. */
  lemma QueueStep(config: Config, h: History, kind: Kind, done: seq<Attestation>, a: Attestation, row: nat)
    requires config.Valid()
    ensures h.CheckArrays(kind, QueueWork(config, done + [a], row)) ==
            h.CheckArrays(kind, QueueWork(config, done, row))
             .CheckArrays(kind, Pairs(config.AttestingValidatorsInChunk(a.indices, row), a))
  {
    QueueWorkAppend(config, done, a, row);
    CheckArraysConcat(h, kind, QueueWork(config, done, row), Pairs(config.AttestingValidatorsInChunk(a.indices, row), a));
  }

  /** While a queue is being processed, its next attestation is applicable. */
  lemma QueueApplicable(config: Config, seen: set<Attestation>, h: History, kind: Kind, queue: seq<Attestation>, done: seq<Attestation>, a: Attestation, row: nat, now: Epoch)
    requires config.Valid() && h.Sound(seen) && AllApplicable(config, seen, h, QueueWork(config, queue, row), now)
    requires (forall x :: x in done ==> x in queue) && a in queue
    ensures AllApplicable(config, seen, h.CheckArrays(kind, QueueWork(config, done, row)),
                          Pairs(config.AttestingValidatorsInChunk(a.indices, row), a), now)
  {
    forall x: (Validator, Attestation) | x in QueueWork(config, done, row) ensures x in QueueWork(config, queue, row) {
      InQueueWork(config, done, row, x.0, x.1);
      InQueueWork(config, queue, row, x.0, x.1);
    }
    StillApplicable(config, seen, h, kind, QueueWork(config, done, row), QueueWork(config, queue, row), now);
    var vs := config.AttestingValidatorsInChunk(a.indices, row);
    forall v: Validator, b: Attestation | (v, b) in Pairs(vs, a) ensures (v, b) in QueueWork(config, queue, row) {
      InQueueWork(config, queue, row, v, b);
    }
  }

  /** Apply one source group. */
  method ApplyGroup(db: SlasherDB, arr: TargetArray, group: seq<Attestation>, current: Epoch,
                    ghost queue: seq<Attestation>, ghost done: seq<Attestation>, ghost h0: History)
    returns (outcome: Outcome, slashings: set<AttesterSlashing>)
    requires current == db.now
    requires db.RecordsValid() && arr.Valid() && arr.config == db.config && Tracks(arr, arr.chunks, db.hist, db.now)
    requires h0.Sound(db.seen) && AllApplicable(db.config, db.seen, h0, QueueWork(db.config, queue, arr.row), db.now)
    requires (forall x :: x in done ==> x in queue) && (forall x :: x in group ==> x in queue)
    requires db.hist == h0.CheckArrays(arr.kind, QueueWork(db.config, done, arr.row))
    modifies arr, db`hist
    ensures outcome.Pass? && db.RecordsValid() && arr.Valid() && Tracks(arr, arr.chunks, db.hist, db.now)
    ensures db.hist == h0.CheckArrays(arr.kind, QueueWork(db.config, done + group, arr.row))
    ensures db.hist.emitted == old(db.hist).emitted + slashings
  {
    hide History.Sound, Tables.RecordsAgree, Tables.StoreValid, CacheFits, History.CheckArrays, QueueWork, Tracks, AllApplicable;
    slashings := {};
    assert done + group[..0] == done;
    for j := 0 to |group|
      invariant db.RecordsValid() && arr.Valid() && Tracks(arr, arr.chunks, db.hist, db.now)
      invariant db.hist == h0.CheckArrays(arr.kind, QueueWork(db.config, done + group[..j], arr.row))
      invariant db.hist.emitted == old(db.hist).emitted + slashings
    {
      QueueApplicable(db.config, db.seen, h0, arr.kind, queue, done + group[..j], group[j], arr.row, db.now);
      var found :- ApplyAttestation(db, arr, group[j], current);
      QueueStep(db.config, h0, arr.kind, done + group[..j], group[j], arr.row);
      assert done + group[..j + 1] == done + group[..j] + [group[j]];
      slashings := slashings + found;
    }
    assert group[..|group|] == group;
    outcome := Pass;
  }

  // ---- Storing a row ----

  /** Other validator chunks' stored chunks are untouched. */
  ghost predicate OtherRowsKept(config: Config, table: ChunkMap, table': ChunkMap, row: nat)
    requires config.Valid()
  {
    forall r, e: Epoch :: r != row ==>
      var key := config.DiskKey(r, config.ChunkIndex(e));
      (key in table' <==> key in table) && (key in table ==> table'[key] == table[key])
  }

  /** `table` is the array's table with the loaded chunks in `done` written to it. */
  ghost predicate StoredUpTo(arr: TargetArray, loaded: ChunkMap, done: set<nat>, table: ChunkMap)
    requires arr.config.Valid()
  {
    && (forall i :: i in done ==>
          i in loaded && arr.config.DiskKey(arr.row, i) in table && table[arr.config.DiskKey(arr.row, i)] == loaded[i])
    && (forall key :: (forall i :: i in done ==> key != arr.config.DiskKey(arr.row, i)) ==>
          (key in table <==> key in arr.table) && (key in table ==> table[key] == arr.table[key]))
  }

  lemma StoredRow(arr: TargetArray, loaded: ChunkMap, table: ChunkMap, e: Epoch)
    requires ChunksValid(arr.config, arr.table) && ChunksValid(arr.config, loaded) && ChunksValid(arr.config, table)
    requires forall i :: i in loaded ==> i < arr.config.Width()
    requires StoredUpTo(arr, loaded, loaded.Keys, table)
    ensures forall v :: TableAt(arr.config, arr.kind, table, arr.row, v, e) == arr.At(loaded, v, e)
    ensures forall r :: r != arr.row ==>
              var key := arr.config.DiskKey(r, arr.config.ChunkIndex(e));
              (key in table <==> key in arr.table) && (key in arr.table ==> table[key] == arr.table[key])
  {
    var c := arr.config.ChunkIndex(e);
    assert forall i :: i in loaded.Keys && i != c ==> arr.config.DiskKey(arr.row, c) != arr.config.DiskKey(arr.row, i);
    forall r | r != arr.row
      ensures forall i :: i in loaded.Keys ==> arr.config.DiskKey(r, c) != arr.config.DiskKey(arr.row, i)
    {
      forall i | i in loaded.Keys ensures arr.config.DiskKey(r, c) != arr.config.DiskKey(arr.row, i) {
        if arr.config.DiskKey(r, c) == arr.config.DiskKey(arr.row, i) {
          Arithmetic.RowMajorInjective(r, c, arr.row, i, arr.config.Width());
        }
      }
    }
  }

  /** Write the loaded chunks back: the stored row becomes the working row and nothing else changes. */
  method StoreChunks(arr: TargetArray) returns (table: ChunkMap)
    requires arr.Valid()
    ensures ChunksValid(arr.config, table)
    ensures forall v, e :: TableAt(arr.config, arr.kind, table, arr.row, v, e) == arr.At(arr.chunks, v, e)
    ensures OtherRowsKept(arr.config, arr.table, table, arr.row)
  {
    table := arr.table;
    var pending := arr.chunks.Keys;
    while pending != {}
      invariant pending <= arr.chunks.Keys
      invariant ChunksValid(arr.config, table)
      invariant StoredUpTo(arr, arr.chunks, arr.chunks.Keys - pending, table)
      decreases pending
    {
      var i :| i in pending;
      StoreOne(arr, arr.chunks, arr.chunks.Keys - pending, table, i);
      assert arr.chunks.Keys - pending + {i} == arr.chunks.Keys - (pending - {i});
      table := table[arr.config.DiskKey(arr.row, i) := arr.chunks[i]];
      pending := pending - {i};
    }
    assert arr.chunks.Keys - pending == arr.chunks.Keys;
    forall e: Epoch {
      StoredRow(arr, arr.chunks, table, e);
    }
  }

  lemma StoreOne(arr: TargetArray, loaded: ChunkMap, done: set<nat>, table: ChunkMap, i: nat)
    requires arr.config.Valid() && i in loaded
    requires StoredUpTo(arr, loaded, done, table)
    ensures StoredUpTo(arr, loaded, done + {i}, table[arr.config.DiskKey(arr.row, i) := loaded[i]])
  {
    forall j | j in done && arr.config.DiskKey(arr.row, j) == arr.config.DiskKey(arr.row, i) ensures i == j {
    }
  }

  // ---- One array, then both ----

  /** Votes of validators outside the list are not touched. */
  lemma {:induction false} CheckArraysOther(h: History, kind: Kind, work: Work, k: Kind, v: Validator)
    requires k != kind || forall x :: x in work ==> x.0 != v
    ensures h.CheckArrays(kind, work).Accepted(k, v) == h.Accepted(k, v)
  {
    if work != [] {
      assert work[|work| - 1] in work;
      CheckArraysOther(h, kind, work[..|work| - 1], k, v);
    }
  }

  /** The stored row of the chunk holds the reference's accepted votes as of `at`. */
  ghost predicate RowCurrent(config: Config, T: Tables, h: History, kind: Kind, row: nat, at: Epoch)
    requires ChunksValid(config, T.Array(kind))
  {
    forall v :: config.InChunk(v, row) ==>
      && T.CellsAgree(config, kind, v, h.Accepted(kind, v), at)
      && (forall vote :: vote in h.Accepted(kind, v) ==> vote.source <= vote.target <= at)
  }

  lemma StoredIsCurrent(arr: TargetArray, loaded: ChunkMap, T: Tables, h: History, at: Epoch)
    requires ChunksValid(arr.config, arr.table) && ChunksValid(arr.config, loaded) && ChunksValid(arr.config, T.Array(arr.kind))
    requires Tracks(arr, loaded, h, at)
    requires forall v, e :: TableAt(arr.config, arr.kind, T.Array(arr.kind), arr.row, v, e) == arr.At(loaded, v, e)
    ensures RowCurrent(arr.config, T, h, arr.kind, arr.row, at)
  {
    forall v | arr.config.InChunk(v, arr.row) ensures T.CellsAgree(arr.config, arr.kind, v, h.Accepted(arr.kind, v), at) {
      assert TracksRow(arr, loaded, h, v, at);
    }
  }

  /** Process one validator chunk's queue with one array. */
  method UpdateArray(db: SlasherDB, kind: Kind, row: nat, groups: map<nat, seq<Attestation>>, current: Epoch, ghost queue: seq<Attestation>)
    returns (outcome: Outcome, slashings: set<AttesterSlashing>)
    requires current == db.now && db.RecordsValid() && ChunksValid(db.config, db.tables.Array(kind))
    requires GroupedBySource(db.config, queue, groups)
    requires forall v :: db.config.InChunk(v, row) ==> db.tables.RowAgrees(db.config, db.hist, kind, v)
    requires forall v :: v in db.tables.currentEpochs ==> db.tables.currentEpochs[v] <= current
    requires AllApplicable(db.config, db.seen, db.hist, QueueWork(db.config, ArrayOrder(db.config, queue), row), db.now)
    modifies db`tables, db`hist
    ensures outcome.Pass? && db.RecordsValid()
    ensures db.tables == old(db.tables).WithArray(kind, db.tables.Array(kind)) && ChunksValid(db.config, db.tables.Array(kind))
    ensures OtherRowsKept(db.config, old(db.tables).Array(kind), db.tables.Array(kind), row)
    ensures RowCurrent(db.config, db.tables, db.hist, kind, row, current)
    ensures db.hist == old(db.hist).CheckArrays(kind, QueueWork(db.config, ArrayOrder(db.config, queue), row))
    ensures db.hist.emitted == old(db.hist).emitted + slashings
  {
    var arr := new TargetArray(db.config, kind, row, db.tables.Array(kind));
    :- UpdateEpochs(db, arr, current);
    slashings :- ApplyGroups(db, arr, groups, current, queue);
    var table := StoreChunks(arr);
    db.tables := db.tables.WithArray(kind, table);
    StoredIsCurrent(arr, arr.chunks, db.tables, db.hist, current);
    RepresentsKept(db.config, old(db.tables), db.tables, db.cache, db.hist, db.seen, current);
    outcome := Pass;
  }

  /** All source groups, in the order of their chunk. */
  method ApplyGroups(db: SlasherDB, arr: TargetArray, groups: map<nat, seq<Attestation>>, current: Epoch, ghost queue: seq<Attestation>)
    returns (outcome: Outcome, slashings: set<AttesterSlashing>)
    requires current == db.now
    requires db.RecordsValid() && arr.Valid() && arr.config == db.config && Tracks(arr, arr.chunks, db.hist, db.now)
    requires GroupedBySource(db.config, queue, groups)
    requires AllApplicable(db.config, db.seen, db.hist, QueueWork(db.config, ArrayOrder(db.config, queue), arr.row), db.now)
    modifies arr, db`hist
    ensures outcome.Pass? && db.RecordsValid() && arr.Valid() && Tracks(arr, arr.chunks, db.hist, db.now)
    ensures db.hist == old(db.hist).CheckArrays(arr.kind, QueueWork(db.config, ArrayOrder(db.config, queue), arr.row))
    ensures db.hist.emitted == old(db.hist).emitted + slashings
  {
    hide History.Sound, Tables.RecordsAgree, Tables.StoreValid, CacheFits, Tracks, AllApplicable, History.CheckArrays, QueueWork, BySource, SourceGroup;
    GroupsStart(db.config, db.hist, arr.kind, queue, arr.row);
    ghost var order := ArrayOrder(db.config, queue);
    slashings := {};
    for i := 0 to db.config.Width()
      invariant db.RecordsValid() && arr.Valid() && Tracks(arr, arr.chunks, db.hist, db.now)
      invariant db.hist == old(db.hist).CheckArrays(arr.kind, QueueWork(db.config, BySource(db.config, queue, i), arr.row))
      invariant db.hist.emitted == old(db.hist).emitted + slashings
    {
      GroupsInOrder(db.config, queue, i);
      var group := if i in groups then groups[i] else [];
      var found :- ApplyGroup(db, arr, group, current, order, BySource(db.config, queue, i), old(db.hist));
      slashings := slashings + found;
    }
    outcome := Pass;
  }

  lemma GroupsStart(config: Config, h: History, kind: Kind, queue: seq<Attestation>, row: nat)
    requires config.Valid()
    ensures h.CheckArrays(kind, QueueWork(config, BySource(config, queue, 0), row)) == h
  {
  }

  lemma GroupsInOrder(config: Config, queue: seq<Attestation>, i: nat)
    requires config.Valid() && i < config.Width()
    ensures BySource(config, queue, i + 1) == BySource(config, queue, i) + SourceGroup(config, queue, i)
    ensures forall x :: x in BySource(config, queue, i) ==> x in ArrayOrder(config, queue)
    ensures forall x :: x in SourceGroup(config, queue, i) ==> x in ArrayOrder(config, queue)
  {
    forall x ensures x in BySource(config, queue, i) || x in SourceGroup(config, queue, i) ==> x in ArrayOrder(config, queue) {
      InBySource(config, queue, i, x);
      InSourceGroup(config, queue, i, x);
      InBySource(config, queue, config.Width(), x);
    }
  }

  /** A row of another validator chunk still agrees when only this row's chunks and votes changed. */
  lemma OtherRowAgrees(config: Config, T: Tables, T': Tables, h: History, h': History, kind: Kind, row: nat, v: Validator)
    requires ChunksValid(config, T.Array(kind)) && ChunksValid(config, T'.Array(kind))
    requires T.RowAgrees(config, h, kind, v) && !config.InChunk(v, row)
    requires OtherRowsKept(config, T.Array(kind), T'.Array(kind), row)
    requires h'.Accepted(kind, v) == h.Accepted(kind, v)
    requires (v in T'.currentEpochs <==> v in T.currentEpochs) && (v in T.currentEpochs ==> T'.currentEpochs[v] == T.currentEpochs[v])
    ensures T'.RowAgrees(config, h', kind, v)
  {
    var r := config.ValidatorChunkIndex(v);
    forall e: Epoch
      ensures TableAt(config, kind, T'.Array(kind), r, v, e) == TableAt(config, kind, T.Array(kind), r, v, e)
      ensures config.DiskKey(r, config.ChunkIndex(e)) in T'.Array(kind) <==> config.DiskKey(r, config.ChunkIndex(e)) in T.Array(kind)
    {
      var key := config.DiskKey(r, config.ChunkIndex(e));
      assert (key in T'.Array(kind) <==> key in T.Array(kind)) && (key in T.Array(kind) ==> T'.Array(kind)[key] == T.Array(kind)[key]);
    }
  }

  /** The current epochs after this chunk has been processed. */
  ghost predicate EpochsSet(config: Config, epochs: map<Validator, Epoch>, epochs': map<Validator, Epoch>, row: nat, current: Epoch)
    requires config.Valid()
  {
    forall v: Validator ::
      if config.InChunk(v, row) then v in epochs' && epochs'[v] == current
      else (v in epochs' <==> v in epochs) && (v in epochs ==> epochs'[v] == epochs[v])
  }

  /** After both arrays and the current epochs of the row have been updated, all arrays agree again. */
  lemma ArraysAgreeAgain(config: Config, T: Tables, T': Tables, h: History, h': History, row: nat, current: Epoch)
    requires config.Valid() && T.ArraysAgree(config, h, current)
    requires forall kind :: ChunksValid(config, T'.Array(kind)) && OtherRowsKept(config, T.Array(kind), T'.Array(kind), row)
    requires forall kind :: RowCurrent(config, T', h', kind, row, current)
    requires forall kind, v :: !config.InChunk(v, row) ==> h'.Accepted(kind, v) == h.Accepted(kind, v)
    requires EpochsSet(config, T.currentEpochs, T'.currentEpochs, row, current)
    ensures T'.ArraysAgree(config, h', current)
  {
    assert ChunksValid(config, T'.Array(Min)) && ChunksValid(config, T'.Array(Max));
    forall kind, v ensures T'.RowAgrees(config, h', kind, v) {
      assert T.RowAgrees(config, h, kind, v);
      if !config.InChunk(v, row) {
        OtherRowAgrees(config, T, T', h, h', kind, row, v);
      } else {
        assert RowCurrent(config, T', h', kind, row, current);
      }
    }
    forall v | v in T'.currentEpochs ensures T'.currentEpochs[v] <= current {
      assert config.InChunk(v, row) || v in T.currentEpochs;
    }
  }

  /** All validators of the chunk are now at the current epoch. */
  method UpdateCurrentEpochs(db: SlasherDB, row: nat, current: Epoch)
    requires db.config.Valid()
    modifies db`tables
    ensures db.tables == old(db.tables).(currentEpochs := db.tables.currentEpochs)
    ensures EpochsSet(db.config, old(db.tables).currentEpochs, db.tables.currentEpochs, row, current)
  {
    var config := db.config;
    var v: Validator := row * config.validatorChunkSize;
    var end := (row + 1) * config.validatorChunkSize;
    while v < end
      invariant row * config.validatorChunkSize <= v
      invariant v <= end || v == row * config.validatorChunkSize
      invariant db.tables == old(db.tables).(currentEpochs := db.tables.currentEpochs)
      invariant forall w: Validator ::
                  if row * config.validatorChunkSize <= w < v then w in db.tables.currentEpochs && db.tables.currentEpochs[w] == current
                  else (w in db.tables.currentEpochs <==> w in old(db.tables).currentEpochs)
                       && (w in old(db.tables).currentEpochs ==> db.tables.currentEpochs[w] == old(db.tables).currentEpochs[w])
      decreases end - v
    {
      db.tables := db.tables.(currentEpochs := db.tables.currentEpochs[v := current]);
      v := v + 1;
    }
    forall w: Validator ensures config.InChunk(w, row) <==> row * config.validatorChunkSize <= w < end {
      config.ChunkRange(w, row);
    }
  }

  /** Between the two arrays: the min array has run, the max array's rows are still ready. */
  lemma ReadyForMax(config: Config, T: Tables, T': Tables, h: History, work: Work, row: nat, now: Epoch)
    requires config.Valid() && T.ArraysAgree(config, h, now)
    requires T' == T.WithArray(Min, T'.Array(Min))
    ensures ChunksValid(config, T'.Array(Max))
    ensures forall v :: T'.RowAgrees(config, h.CheckArrays(Min, work), Max, v)
  {
    forall v ensures T'.RowAgrees(config, h.CheckArrays(Min, work), Max, v) {
      assert T.RowAgrees(config, h, Max, v);
      CheckArraysOther(h, Min, work, Max, v);
    }
  }

  /** After the max array: the min rows are as the min pass left them. */
  lemma MinStillCurrent(config: Config, T: Tables, T': Tables, h: History, work: Work, row: nat, current: Epoch)
    requires ChunksValid(config, T.Array(Min)) && RowCurrent(config, T, h, Min, row, current)
    requires T'.minTargets == T.minTargets
    ensures RowCurrent(config, T', h.CheckArrays(Max, work), Min, row, current)
  {
    forall v | config.InChunk(v, row)
      ensures T'.CellsAgree(config, Min, v, h.CheckArrays(Max, work).Accepted(Min, v), current)
      ensures h.CheckArrays(Max, work).Accepted(Min, v) == h.Accepted(Min, v)
    {
      CheckArraysOther(h, Max, work, Min, v);
    }
  }

  lemma OnlyThisRow(config: Config, h: History, queue: seq<Attestation>, row: nat)
    requires config.Valid()
    ensures var work := QueueWork(config, queue, row);
            forall kind, v :: !config.InChunk(v, row) ==>
              h.CheckArrays(Min, work).CheckArrays(Max, work).Accepted(kind, v) == h.Accepted(kind, v)
  {
    var work := QueueWork(config, queue, row);
    forall kind, v | !config.InChunk(v, row)
      ensures h.CheckArrays(Min, work).CheckArrays(Max, work).Accepted(kind, v) == h.Accepted(kind, v)
    {
      forall x: (Validator, Attestation) | x in work ensures x.0 != v {
        InQueueWork(config, queue, row, x.0, x.1);
      }
      CheckArraysOther(h, Min, work, kind, v);
      CheckArraysOther(h.CheckArrays(Min, work), Max, work, kind, v);
    }
  }

  /** Surround detection for one validator chunk's queue: exactly what the reference's two array passes do. */
  method Update(db: SlasherDB, row: nat, queue: seq<Attestation>, current: Epoch)
    returns (outcome: Outcome, slashings: set<AttesterSlashing>)
    requires db.Valid() && current == db.now
    requires AllApplicable(db.config, db.seen, db.hist, QueueWork(db.config, queue, row), db.now)
    modifies db`tables, db`hist
    ensures db.Valid() && outcome.Pass?
    ensures var work := QueueWork(db.config, ArrayOrder(db.config, queue), row);
            db.hist == old(db.hist).CheckArrays(Min, work).CheckArrays(Max, work)
    ensures db.hist.emitted == old(db.hist).emitted + slashings
    ensures db.tables.attestations == old(db.tables).attestations
  {
    hide History.Sound, Tables.RecordsAgree, Tables.StoreValid, CacheFits, AllApplicable, History.CheckArrays, QueueWork, ArrayOrder, RowCurrent, OtherRowsKept, Tables.RowAgrees;
    ghost var config, seen, h0, T0 := db.config, db.seen, db.hist, db.tables;
    ghost var work := QueueWork(config, ArrayOrder(config, queue), row);
    var groups := GroupBySource(db.config, queue);
    ApplicableInOrder(config, seen, h0, queue, row, current);
    var surrounding :- UpdateArray(db, Min, row, groups, current, queue);
    ghost var h1, T1 := db.hist, db.tables;
    ReadyForMax(config, T0, T1, h0, work, row, current);
    StillApplicable(config, seen, h0, Min, work, work, current);
    var surrounded :- UpdateArray(db, Max, row, groups, current, queue);
    ghost var T2 := db.tables;
    MinStillCurrent(config, T1, T2, h1, work, row, current);
    UpdateCurrentEpochs(db, row, current);
    RowsUnaffectedByEpochs(config, T2, db.tables, db.hist, row, current);
    OnlyThisRow(config, h0, ArrayOrder(config, queue), row);
    ArraysAgreeAgain(config, T0, db.tables, h0, db.hist, row, current);
    RepresentsKept(config, T2, db.tables, db.cache, db.hist, seen, current);
    outcome, slashings := Pass, surrounding + surrounded;
  }

  lemma ApplicableInOrder(config: Config, seen: set<Attestation>, h: History, queue: seq<Attestation>, row: nat, now: Epoch)
    requires config.Valid() && AllApplicable(config, seen, h, QueueWork(config, queue, row), now)
    ensures AllApplicable(config, seen, h, QueueWork(config, ArrayOrder(config, queue), row), now)
  {
    ArrayWorkSameVotes(config, queue, row);
  }

  lemma RowsUnaffectedByEpochs(config: Config, T: Tables, T': Tables, h: History, row: nat, current: Epoch)
    requires forall kind :: ChunksValid(config, T.Array(kind)) && RowCurrent(config, T, h, kind, row, current)
    requires T' == T.(currentEpochs := T'.currentEpochs)
    ensures forall kind :: ChunksValid(config, T'.Array(kind)) && RowCurrent(config, T', h, kind, row, current)
  {
    forall kind ensures ChunksValid(config, T'.Array(kind)) && RowCurrent(config, T', h, kind, row, current) {
      assert T'.Array(kind) == T.Array(kind) && RowCurrent(config, T, h, kind, row, current);
    }
  }
}
