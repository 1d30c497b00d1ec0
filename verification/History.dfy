/**
 * The reference slasher: it remembers every first vote per (validator, target) and every vote
 * either array accepted, for ever, and has no rings, chunks, identifiers, cache or pruning.
 * The database classes are proved to behave exactly like it.
 */
module ReferenceHistory {
  import opened Types
  import opened TargetBounds

  /** Attestations paired with the validator they are processed for, in processing order. */
  type Work = seq<(Validator, Attestation)>

  function VoteOf(a: Attestation): Vote {
    Vote(a.data.source, a.data.target)
  }

  datatype History = History(
    records: map<(Validator, Epoch), Attestation>,
    accepted: map<(Kind, Validator), seq<Vote>>,
    emitted: set<AttesterSlashing>)
  {
    function Accepted(kind: Kind, v: Validator): seq<Vote> {
      if (kind, v) in accepted then accepted[(kind, v)] else []
    }

    function Emit(status: SlashingStatus, a: Attestation): History {
      match status.IntoSlashing(a)
      case None => this
      case Some(slashing) => this.(emitted := emitted + {slashing})
    }

    /** A second vote for a recorded target is a double vote unless the data is the same. */
    function RecordStatus(v: Validator, a: Attestation): SlashingStatus {
      var key := (v, a.data.target);
      if key in records && records[key].data != a.data then DoubleVote(records[key]) else NotSlashable
    }

    function CheckRecord(v: Validator, a: Attestation): History {
      var key := (v, a.data.target);
      (if key in records then this else this.(records := records[key := a])).Emit(RecordStatus(v, a), a)
    }

    /** The verdict of one array: compare the target with the bound at the source epoch. */
    function ArrayStatus(kind: Kind, v: Validator, a: Attestation): SlashingStatus {
      var bound := kind.Bound(Accepted(kind, v), a.data.source);
      if kind.Convicts(bound, a.data.target) && (v, bound) in records then
        var existing := records[(v, bound)];
        match kind
        case Min => if a.data.source < existing.data.source then SurroundsExisting(existing) else AlreadyDoubleVoted
        case Max => if existing.data.source < a.data.source then SurroundedByExisting(existing) else AlreadyDoubleVoted
      else
        NotSlashable
    }

    function Accept(kind: Kind, v: Validator, a: Attestation): History {
      this.(accepted := accepted[(kind, v) := Accepted(kind, v) + [VoteOf(a)]])
    }

    /** An array accepts a vote exactly when it does not find it slashable. */
    function CheckArray(kind: Kind, v: Validator, a: Attestation): History {
      var status := ArrayStatus(kind, v, a);
      (if status.NotSlashable? then Accept(kind, v, a) else this).Emit(status, a)
    }

    function CheckRecords(work: Work): History {
      if work == [] then this
      else
        var (v, a) := work[|work| - 1];
        CheckRecords(work[..|work| - 1]).CheckRecord(v, a)
    }

    function CheckArrays(kind: Kind, work: Work): History {
      if work == [] then this
      else
        var (v, a) := work[|work| - 1];
        CheckArrays(kind, work[..|work| - 1]).CheckArray(kind, v, a)
    }

    /** One subqueue: all double votes first, then the min array, then the max array. */
    function CheckBatch(recordWork: Work, arrayWork: Work): History {
      CheckRecords(recordWork).CheckArrays(Min, arrayWork).CheckArrays(Max, arrayWork)
    }

    /** The validator appears on both sides of some emitted slashing. */
    ghost predicate Caught(v: Validator) {
      exists slashing :: slashing in emitted && slashing.Implicates(v)
    }

    /** A double-vote slashing against the validator has been emitted. */
    ghost predicate DoubleVoted(v: Validator) {
      exists slashing :: slashing in emitted && slashing.Implicates(v) && IsDoubleVote(slashing.attestation1, slashing.attestation2)
    }

    // ---- Invariants of the reference ----

    /** A record names an attestation by that validator with exactly that target. */
    ghost predicate RecordFits(v: Validator, target: Epoch) {
      (v, target) in records ==>
        v in records[(v, target)].indices && records[(v, target)].data.target == target
    }

    /** Every accepted vote was recorded first, and a different record means a caught double vote. */
    ghost predicate VoteBacked(v: Validator, vote: Vote) {
      && (v, vote.target) in records
      && (records[(v, vote.target)].data.source == vote.source || DoubleVoted(v))
    }

    ghost predicate Sound(seen: set<Attestation>) {
      && (forall v, t :: RecordFits(v, t))
      && (forall key :: key in records ==> records[key] in seen)
      && (forall kind: Kind, v :: kind.Ordered(Accepted(kind, v)))
      && (forall kind, v, vote :: vote in Accepted(kind, v) ==> VoteBacked(v, vote))
      && (forall slashing :: slashing in emitted ==>
            && IsSlashable(slashing.attestation1, slashing.attestation2)
            && slashing.attestation1 in seen && slashing.attestation2 in seen
            && exists v :: slashing.Implicates(v))
    }

    /** The data was recorded for the validator, or a conflicting record got it caught double voting. */
    ghost predicate Recorded(v: Validator, a: Attestation) {
      && (v, a.data.target) in records
      && (records[(v, a.data.target)].data == a.data || DoubleVoted(v))
    }
  }
}
