/**
 * Soundness and completeness of the reference slasher: whatever order votes are processed in,
 * a validator is implicated by an emitted slashing exactly when its processed votes contain a
 * slashable pair.
 */
module Detection {
  import opened Types
  import opened TargetBounds
  import opened ReferenceHistory

  /** What the batch path guarantees of everything it processes. */
  ghost predicate Processable(seen: set<Attestation>, v: Validator, a: Attestation) {
    && v in a.indices
    && a in seen
    && a.data.source <= a.data.target <= a.data.source + MAX_DISTANCE
  }

  ghost predicate AllProcessable(seen: set<Attestation>, work: Work) {
    forall v, a :: (v, a) in work ==> Processable(seen, v, a)
  }

  /** Nothing is forgotten: records are never replaced and evidence is never withdrawn. */
  ghost predicate Extends(h: History, h': History) {
    && (forall key :: key in h.records ==> key in h'.records && h'.records[key] == h.records[key])
    && h.emitted <= h'.emitted
  }

  lemma ExtendsKeeps(h: History, h': History)
    requires Extends(h, h')
    ensures forall v :: h.Caught(v) ==> h'.Caught(v)
    ensures forall v :: h.DoubleVoted(v) ==> h'.DoubleVoted(v)
    ensures forall v, a :: h.Recorded(v, a) ==> h'.Recorded(v, a)
    ensures forall v, vote :: h.VoteBacked(v, vote) ==> h'.VoteBacked(v, vote)
  {
  }

  // ---- One vote ----

  lemma CheckRecordStep(h: History, seen: set<Attestation>, v: Validator, a: Attestation)
    requires h.Sound(seen) && Processable(seen, v, a)
    ensures Extends(h, h.CheckRecord(v, a)) && h.CheckRecord(v, a).accepted == h.accepted
    ensures h.CheckRecord(v, a).Sound(seen)
    ensures h.CheckRecord(v, a).Recorded(v, a)
  {
    var key := (v, a.data.target);
    assert h.RecordFits(v, a.data.target);
    if key !in h.records {
      InsertKeepsSound(h, seen, v, a);
    } else if h.records[key].data != a.data {
      EmitKeepsSound(h, seen, v, AttesterSlashing(h.records[key], a));
    }
  }

  lemma InsertKeepsSound(h: History, seen: set<Attestation>, v: Validator, a: Attestation)
    requires h.Sound(seen) && Processable(seen, v, a) && (v, a.data.target) !in h.records
    ensures h.(records := h.records[(v, a.data.target) := a]).Sound(seen)
  {
    var h' := h.(records := h.records[(v, a.data.target) := a]);
    ExtendsKeeps(h, h');
    forall w, t ensures h'.RecordFits(w, t) {
      assert h.RecordFits(w, t);
    }
    assert forall kind, w :: h'.Accepted(kind, w) == h.Accepted(kind, w);
  }

  /**
   * The array verdict is right: a surround status is a surround vote by this validator, and
   * `AlreadyDoubleVoted` only ever names a validator against which a double-vote slashing is out.
   */
  lemma ArrayVerdict(h: History, seen: set<Attestation>, kind: Kind, v: Validator, a: Attestation)
    requires h.Sound(seen) && Processable(seen, v, a)
    ensures var bound := kind.Bound(h.Accepted(kind, v), a.data.source);
            kind.Convicts(bound, a.data.target) ==> (v, bound) in h.records
    ensures var status := h.ArrayStatus(kind, v, a);
            && (status.AlreadyDoubleVoted? ==> h.DoubleVoted(v))
            && status.Justified(a)
            && (status.SurroundsExisting? || status.SurroundedByExisting? ==>
                  v in status.existing.indices && status.existing in seen)
  {
    var votes := h.Accepted(kind, v);
    var bound := kind.Bound(votes, a.data.source);
    if kind.Convicts(bound, a.data.target) {
      var vote := kind.ConvictionHasWitness(votes, a.data.source, a.data.target);
      assert h.VoteBacked(v, vote);
      assert h.RecordFits(v, bound);
    }
  }

  /** A double vote is reported with the recorded attestation first, and nothing else is. */
  lemma RecordEvidence(h: History, v: Validator, a: Attestation)
    ensures var key := (v, a.data.target);
            h.CheckRecord(v, a).emitted == h.emitted +
              if key in h.records && h.records[key].data != a.data then {AttesterSlashing(h.records[key], a)} else {}
  {
  }

  /**
   * A surround vote is reported against the extreme one: a vote that surrounds is paired with the
   * surrounded vote of smallest target, a surrounded vote with the surrounding one of largest target.
   */
  lemma ArrayEvidence(h: History, seen: set<Attestation>, kind: Kind, v: Validator, a: Attestation, slashing: AttesterSlashing)
    requires h.Sound(seen) && Processable(seen, v, a)
    requires slashing in h.CheckArray(kind, v, a).emitted && slashing !in h.emitted
    ensures kind.Min? ==>
              && slashing.attestation1 == a && IsSurroundVote(a, slashing.attestation2)
              && forall vote :: vote in h.Accepted(Min, v) && a.data.source < vote.source ==>
                   slashing.attestation2.data.target <= vote.target
    ensures kind.Max? ==>
              && slashing.attestation2 == a && IsSurroundVote(slashing.attestation1, a)
              && forall vote :: vote in h.Accepted(Max, v) && vote.source < a.data.source ==>
                   vote.target <= slashing.attestation1.data.target
  {
    var bound := kind.Bound(h.Accepted(kind, v), a.data.source);
    kind.BoundIsExtremum(h.Accepted(kind, v), a.data.source);
    assert h.RecordFits(v, bound);
  }

  lemma CheckArrayStep(h: History, seen: set<Attestation>, kind: Kind, v: Validator, a: Attestation)
    requires h.Sound(seen) && Processable(seen, v, a) && h.Recorded(v, a)
    ensures Extends(h, h.CheckArray(kind, v, a)) && h.CheckArray(kind, v, a).records == h.records
    ensures h.CheckArray(kind, v, a).Sound(seen)
    ensures h.CheckArray(kind, v, a).Caught(v)
            || h.CheckArray(kind, v, a).Accepted(kind, v) == h.Accepted(kind, v) + [VoteOf(a)]
    ensures forall k: Kind, w: Validator :: (k, w) != (kind, v) ==> h.CheckArray(kind, v, a).Accepted(k, w) == h.Accepted(k, w)
  {
    var status := h.ArrayStatus(kind, v, a);
    ArrayVerdict(h, seen, kind, v, a);
    if status.NotSlashable? {
      AcceptKeepsSound(h, seen, kind, v, a);
    } else if status.SurroundsExisting? {
      EmitKeepsSound(h, seen, v, AttesterSlashing(a, status.existing));
    } else if status.SurroundedByExisting? {
      EmitKeepsSound(h, seen, v, AttesterSlashing(status.existing, a));
    }
  }

  lemma EmitKeepsSound(h: History, seen: set<Attestation>, v: Validator, slashing: AttesterSlashing)
    requires h.Sound(seen)
    requires IsSlashable(slashing.attestation1, slashing.attestation2) && slashing.Implicates(v)
    requires slashing.attestation1 in seen && slashing.attestation2 in seen
    ensures h.(emitted := h.emitted + {slashing}).Sound(seen)
    ensures h.(emitted := h.emitted + {slashing}).Caught(v)
    ensures IsDoubleVote(slashing.attestation1, slashing.attestation2) ==> h.(emitted := h.emitted + {slashing}).DoubleVoted(v)
  {
    var h' := h.(emitted := h.emitted + {slashing});
    ExtendsKeeps(h, h');
    assert forall w, t :: h'.RecordFits(w, t) <==> h.RecordFits(w, t);
    assert forall kind, w :: h'.Accepted(kind, w) == h.Accepted(kind, w);
  }

  lemma AcceptKeepsSound(h: History, seen: set<Attestation>, kind: Kind, v: Validator, a: Attestation)
    requires h.Sound(seen) && h.Recorded(v, a)
    requires !kind.Convicts(kind.Bound(h.Accepted(kind, v), a.data.source), a.data.target)
    ensures h.Accept(kind, v, a).Sound(seen)
  {
    var h' := h.Accept(kind, v, a);
    assert forall w, t :: h'.RecordFits(w, t) <==> h.RecordFits(w, t);
    forall k, w, vote | vote in h'.Accepted(k, w) ensures h'.VoteBacked(w, vote) {
      if vote in h.Accepted(k, w) {
        assert h.VoteBacked(w, vote);
      }
    }
    AppendKeepsOrdered(kind, h.Accepted(kind, v), VoteOf(a));
    forall k: Kind, w ensures k.Ordered(h'.Accepted(k, w)) {
      assert k.Ordered(h.Accepted(k, w));
    }
  }

  lemma AppendKeepsOrdered(kind: Kind, votes: seq<Vote>, vote: Vote)
    requires kind.Ordered(votes)
    requires !kind.Convicts(kind.Bound(votes, vote.source), vote.target)
    ensures kind.Ordered(votes + [vote])
  {
    kind.BoundIsExtremum(votes, vote.source);
  }

  // ---- A list of votes ----

  function VotesOf(v: Validator, work: Work): seq<Vote> {
    if work == [] then []
    else
      var (w, a) := work[|work| - 1];
      VotesOf(v, work[..|work| - 1]) + (if w == v then [VoteOf(a)] else [])
  }

  lemma {:induction false} CheckRecordsList(h: History, seen: set<Attestation>, work: Work)
    requires h.Sound(seen) && AllProcessable(seen, work)
    ensures Extends(h, h.CheckRecords(work)) && h.CheckRecords(work).accepted == h.accepted
    ensures h.CheckRecords(work).Sound(seen)
    ensures forall v, a :: (v, a) in work ==> h.CheckRecords(work).Recorded(v, a)
  {
    if work != [] {
      var init := work[..|work| - 1];
      var (v, a) := work[|work| - 1];
      assert work == init + [(v, a)];
      CheckRecordsList(h, seen, init);
      assert (v, a) in work;
      CheckRecordStep(h.CheckRecords(init), seen, v, a);
      ExtendsKeeps(h.CheckRecords(init), h.CheckRecords(work));
    }
  }

  lemma {:induction false} CheckArraysList(h: History, seen: set<Attestation>, kind: Kind, work: Work)
    requires h.Sound(seen) && AllProcessable(seen, work)
    requires forall v, a :: (v, a) in work ==> h.Recorded(v, a)
    ensures Extends(h, h.CheckArrays(kind, work)) && h.CheckArrays(kind, work).records == h.records
    ensures h.CheckArrays(kind, work).Sound(seen)
  {
    if work != [] {
      var init := work[..|work| - 1];
      var (v, a) := work[|work| - 1];
      assert work == init + [(v, a)];
      CheckArraysList(h, seen, kind, init);
      assert (v, a) in work;
      ExtendsKeeps(h, h.CheckArrays(kind, init));
      CheckArrayStep(h.CheckArrays(kind, init), seen, kind, v, a);
    }
  }

  /** Of an uncaught validator an array accepts every vote, in order; the other array is untouched. */
  lemma {:induction false} CheckArraysAccepts(h: History, seen: set<Attestation>, kind: Kind, work: Work, v: Validator)
    requires h.Sound(seen) && AllProcessable(seen, work)
    requires forall w, a :: (w, a) in work ==> h.Recorded(w, a)
    ensures h.CheckArrays(kind, work).Caught(v)
            || h.CheckArrays(kind, work).Accepted(kind, v) == h.Accepted(kind, v) + VotesOf(v, work)
    ensures forall k :: k != kind ==> h.CheckArrays(kind, work).Accepted(k, v) == h.Accepted(k, v)
  {
    hide History.Sound, History.CheckArray, History.Recorded, History.Caught, History.Accepted, Processable, Extends;
    if work != [] {
      var init := work[..|work| - 1];
      var (w, a) := work[|work| - 1];
      assert work == init + [(w, a)];
      CheckArraysAccepts(h, seen, kind, init, v);
      CheckArraysList(h, seen, kind, init);
      assert (w, a) in work;
      ExtendsKeeps(h, h.CheckArrays(kind, init));
      CheckArrayStep(h.CheckArrays(kind, init), seen, kind, w, a);
      ExtendsKeeps(h.CheckArrays(kind, init), h.CheckArrays(kind, work));
    }
  }

  // ---- Batches ----

  /** An uncaught validator's accepted votes are its whole log, in the same order in both arrays. */
  ghost predicate Complete(h: History, log: Work) {
    && (forall v, a :: (v, a) in log ==> h.Recorded(v, a))
    && (forall v :: h.Caught(v) || h.Accepted(Min, v) == VotesOf(v, log) == h.Accepted(Max, v))
  }

  lemma {:induction false} VotesOfConcat(v: Validator, log: Work, work: Work)
    ensures VotesOf(v, log + work) == VotesOf(v, log) + VotesOf(v, work)
  {
    if work == [] {
      assert log + work == log;
    } else {
      assert (log + work)[..|log + work| - 1] == log + work[..|work| - 1];
      VotesOfConcat(v, log, work[..|work| - 1]);
    }
  }

  /** Processing a batch keeps the reference sound and complete for the extended log. */
  lemma CheckBatchList(h: History, seen: set<Attestation>, log: Work, recordWork: Work, arrayWork: Work)
    requires h.Sound(seen) && Complete(h, log)
    requires AllProcessable(seen, recordWork)
    requires forall x :: x in arrayWork ==> x in recordWork
    ensures h.CheckBatch(recordWork, arrayWork).Sound(seen)
    ensures Extends(h, h.CheckBatch(recordWork, arrayWork))
    ensures Complete(h.CheckBatch(recordWork, arrayWork), log + arrayWork)
  {
    var h1 := h.CheckRecords(recordWork);
    CheckRecordsList(h, seen, recordWork);
    ExtendsKeeps(h, h1);
    var h2 := h1.CheckArrays(Min, arrayWork);
    CheckArraysList(h1, seen, Min, arrayWork);
    ExtendsKeeps(h1, h2);
    var h3 := h2.CheckArrays(Max, arrayWork);
    CheckArraysList(h2, seen, Max, arrayWork);
    ExtendsKeeps(h2, h3);
    forall v ensures h3.Caught(v) || h3.Accepted(Min, v) == VotesOf(v, log + arrayWork) == h3.Accepted(Max, v) {
      BatchAccepts(h, seen, log, recordWork, arrayWork, v);
    }
  }

  lemma BatchAccepts(h: History, seen: set<Attestation>, log: Work, recordWork: Work, arrayWork: Work, v: Validator)
    requires h.Sound(seen) && Complete(h, log)
    requires AllProcessable(seen, recordWork)
    requires forall x :: x in arrayWork ==> x in recordWork
    ensures var h' := h.CheckBatch(recordWork, arrayWork);
            h'.Caught(v) || h'.Accepted(Min, v) == VotesOf(v, log + arrayWork) == h'.Accepted(Max, v)
  {
    hide History.Sound, History.CheckRecords, History.CheckArrays, History.Recorded, History.Caught, Processable, Extends, VotesOf;
    var h1 := h.CheckRecords(recordWork);
    CheckRecordsList(h, seen, recordWork);
    var h2 := h1.CheckArrays(Min, arrayWork);
    CheckArraysList(h1, seen, Min, arrayWork);
    CheckArraysAccepts(h1, seen, Min, arrayWork, v);
    ExtendsKeeps(h1, h2);
    CheckArraysList(h2, seen, Max, arrayWork);
    CheckArraysAccepts(h2, seen, Max, arrayWork, v);
    ExtendsKeeps(h2, h2.CheckArrays(Max, arrayWork));
    ExtendsKeeps(h, h1);
    VotesOfConcat(v, log, arrayWork);
  }

  /** Adding another sound history's evidence keeps a history sound. */
  lemma EvidenceKeepsSound(h: History, after: History, seen: set<Attestation>)
    requires h.Sound(seen) && after.Sound(seen) && h.emitted <= after.emitted
    ensures h.(emitted := after.emitted).Sound(seen)
  {
    var h' := h.(emitted := after.emitted);
    ExtendsKeeps(h, h');
    assert forall w, t :: h'.RecordFits(w, t) <==> h.RecordFits(w, t);
    assert forall kind, w :: h'.Accepted(kind, w) == h.Accepted(kind, w);
  }

  // ---- Exactness ----

  lemma {:induction false} VoteInLog(v: Validator, log: Work, a: Attestation) returns (i: nat)
    requires (v, a) in log
    ensures i < |VotesOf(v, log)| && VotesOf(v, log)[i] == VoteOf(a)
  {
    var n := |log| - 1;
    if log[n] == (v, a) {
      i := |VotesOf(v, log)| - 1;
    } else {
      i := VoteInLog(v, log[..n], a);
    }
  }

  /** Completeness: a slashable pair anywhere in a validator's log means the validator is caught. */
  lemma PairIsCaught(h: History, seen: set<Attestation>, log: Work, v: Validator, a: Attestation, b: Attestation)
    requires h.Sound(seen) && Complete(h, log)
    requires (v, a) in log && (v, b) in log && IsSlashable(a, b)
    ensures h.Caught(v)
  {
    assert h.Recorded(v, a) && h.Recorded(v, b);
    assert Min.Ordered(h.Accepted(Min, v)) && Max.Ordered(h.Accepted(Max, v));
    var i := VoteInLog(v, log, a);
    var j := VoteInLog(v, log, b);
  }
}
