/** Values shared by every part of the slasher: attestations, slashings, errors. */
module Types {

  type Epoch = nat
  type Validator = nat

  datatype Option<+T> = None | Some(value: T)

  /** The errors the slasher's own logic can raise (storage failures are not modelled). */
  datatype Error =
    | ChunkIndexOutOfBounds(index: nat)
    | DistanceTooLarge
    | DistanceCalculationOverflow
    | MissingAttesterRecord(validator: Validator, target: Epoch)
    | MissingIndexedAttestation(id: nat)
    | InconsistentAttestationDataRoot
    | ConfigInvalidZeroParameter
    | ConfigInvalidChunkSize(chunkSize: nat, historyLength: nat)
    | ConfigInvalidHistoryLength(historyLength: nat)

  /** The failure half of a Rust `Result`; the success value is a further out-parameter. */
  datatype Outcome = Pass | Fail(error: Error) {
    predicate IsFailure() { Fail? }
    function PropagateFailure(): Outcome { this }
  }

  /**
   * Attestation data. `root` is the tree-hash root read as a number; it stands for the slot,
   * the committee index and the block roots. Roots are collision free, so the data itself is
   * used wherever the slasher compares roots, and `RootBefore` compares `root` first.
   */
  datatype AttestationData = AttestationData(root: nat, source: Epoch, target: Epoch)

  /** An indexed attestation; its own hash is likewise modelled by the attestation itself. */
  datatype Attestation = Attestation(indices: seq<Validator>, data: AttestationData, signature: nat)

  predicate RootBefore(a: AttestationData, b: AttestationData) {
    a.root < b.root ||
    (a.root == b.root && (a.source < b.source || (a.source == b.source && a.target < b.target)))
  }

  predicate IsDoubleVote(a: Attestation, b: Attestation) {
    a.data.target == b.data.target && a.data != b.data
  }

  predicate IsSurroundVote(a: Attestation, b: Attestation) {
    a.data.source < b.data.source && b.data.target < a.data.target
  }

  /** `is_slashable_attestation_data` of the consensus specification; not symmetric. */
  predicate IsSlashable(a: Attestation, b: Attestation) {
    IsDoubleVote(a, b) || IsSurroundVote(a, b)
  }

  datatype AttesterSlashing = AttesterSlashing(attestation1: Attestation, attestation2: Attestation) {
    /** The validators that can be slashed with this evidence. */
    predicate Implicates(v: Validator) {
      v in attestation1.indices && v in attestation2.indices
    }
  }

  /** The evidence a pair gives, by the votes alone: a newer vote comes first only if it surrounds the older one. */
  function EvidenceOf(older: Attestation, newer: Attestation): AttesterSlashing {
    if IsSurroundVote(newer, older) then AttesterSlashing(newer, older) else AttesterSlashing(older, newer)
  }

  datatype SlashingStatus =
    | NotSlashable
    | AlreadyDoubleVoted
    | DoubleVote(existing: Attestation)
    | SurroundsExisting(existing: Attestation)
    | SurroundedByExisting(existing: Attestation)
  {
    /** What the constructor claims about a new attestation. */
    predicate Justified(newer: Attestation) {
      match this
      case NotSlashable => true
      case AlreadyDoubleVoted => true
      case DoubleVote(existing) => IsDoubleVote(existing, newer)
      case SurroundsExisting(existing) => IsSurroundVote(newer, existing)
      case SurroundedByExisting(existing) => IsSurroundVote(existing, newer)
    }

    /**
     * The surrounding attestation must come first for the evidence to be valid; otherwise the one
     * that was there before comes first.
     */
    function IntoSlashing(newer: Attestation): (r: Option<AttesterSlashing>)
      ensures r.None? <==> NotSlashable? || AlreadyDoubleVoted?
      ensures r.Some? && Justified(newer) ==> IsSlashable(r.value.attestation1, r.value.attestation2)
      ensures r.Some? && Justified(newer) ==> r.value == EvidenceOf(existing, newer)
      ensures r.Some? ==> {r.value.attestation1, r.value.attestation2} == {existing, newer}
    {
      match this
      case NotSlashable => None
      case AlreadyDoubleVoted => None
      case DoubleVote(existing) => Some(AttesterSlashing(existing, newer))
      case SurroundedByExisting(existing) => Some(AttesterSlashing(existing, newer))
      case SurroundsExisting(existing) => Some(AttesterSlashing(newer, existing))
    }
  }
}
