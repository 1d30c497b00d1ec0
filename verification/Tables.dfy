/** The slasher's tables and how they represent the reference history. */
module DatabaseTables {
  import opened Types
  import opened TargetBounds
  import opened Configuration
  import opened ReferenceHistory
  import opened TargetArrays
  import Arithmetic

  /** The attesters table: identifier by (target modulo history length, validator); 0 is the null record. */
  type AttesterRing = map<(nat, Validator), nat>

  /** The identifier the ring names for a validator's vote with this target, or 0. */
  function Named(config: Config, ring: AttesterRing, v: Validator, target: Epoch): nat
    requires config.Valid()
  {
    var key := (target % config.historyLength, v);
    if key in ring then ring[key] else 0
  }

  datatype Tables = Tables(
    attesters: AttesterRing,
    attesterMaxTargets: map<Validator, Epoch>,
    attestations: map<nat, Attestation>,
    attestationIds: map<(Epoch, Attestation), nat>,
    minTargets: ChunkMap,
    maxTargets: ChunkMap,
    currentEpochs: map<Validator, Epoch>)
  {
    function Array(kind: Kind): ChunkMap {
      match kind
      case Min => minTargets
      case Max => maxTargets
    }

    function WithArray(kind: Kind, table: ChunkMap): Tables {
      match kind
      case Min => this.(minTargets := table)
      case Max => this.(maxTargets := table)
    }

    // ---- Attestation store ----

    /** Identifiers and (target, attestation) keys are in bijection, and 0 is never used. */
    ghost predicate StoreValid() {
      && (forall id :: id in attestations ==>
            var key := (attestations[id].data.target, attestations[id]);
            id > 0 && key in attestationIds && attestationIds[key] == id)
      && (forall key :: key in attestationIds ==>
            && key.0 == key.1.data.target
            && attestationIds[key] in attestations && attestations[attestationIds[key]] == key.1)
    }

    // ---- Attester records ----

    /** The ring slot for (v, target) represents the reference record as long as it can be looked up. */
    ghost predicate SlotAgrees(config: Config, h: History, now: Epoch, v: Validator, target: Epoch)
      requires config.Valid()
    {
      var id := Named(config, attesters, v, target);
      && ((v, target) in h.records ==> v in attesterMaxTargets && target <= attesterMaxTargets[v])
      && (v in attesterMaxTargets && target <= attesterMaxTargets[v] < target + config.historyLength ==>
            ((v, target) in h.records <==> id != 0))
      && ((v, target) in h.records && now < target + config.historyLength ==>
            id in attestations && attestations[id] == h.records[(v, target)])
    }

    ghost predicate RecordsAgree(config: Config, h: History, now: Epoch)
      requires config.Valid()
    {
      && (forall v, target :: SlotAgrees(config, h, now, v, target))
      && (forall v :: v in attesterMaxTargets ==> attesterMaxTargets[v] <= now)
      && (forall r, v :: (r, v) in attesters ==> v in attesterMaxTargets)
    }

    // ---- Target arrays ----

    /** The stored row of `v` holds exactly the bounds of `votes` throughout the window ending at `at`. */
    ghost predicate CellsAgree(config: Config, kind: Kind, v: Validator, votes: seq<Vote>, at: Epoch)
      requires ChunksValid(config, Array(kind))
    {
      forall e: Epoch :: config.InWindow(e, at) ==>
        e + TableAt(config, kind, Array(kind), config.ValidatorChunkIndex(v), v, e) == kind.Bound(votes, e)
    }

    /** No chunk of this row has ever been stored. */
    ghost predicate RowUnwritten(config: Config, kind: Kind, row: nat)
      requires config.Valid()
    {
      forall e: Epoch :: config.DiskKey(row, config.ChunkIndex(e)) !in Array(kind)
    }

    /** Array `kind` represents the votes the reference accepted for `v`, as of `v`'s current epoch. */
    ghost predicate RowAgrees(config: Config, h: History, kind: Kind, v: Validator)
      requires ChunksValid(config, Array(kind))
    {
      var votes := h.Accepted(kind, v);
      if v in currentEpochs then
        && CellsAgree(config, kind, v, votes, currentEpochs[v])
        && (forall vote :: vote in votes ==> vote.source <= vote.target <= currentEpochs[v])
      else
        votes == [] && RowUnwritten(config, kind, config.ValidatorChunkIndex(v))
    }

    ghost predicate ArraysAgree(config: Config, h: History, now: Epoch)
      requires config.Valid()
    {
      && ChunksValid(config, minTargets) && ChunksValid(config, maxTargets)
      && (forall kind, v :: RowAgrees(config, h, kind, v))
      && (forall v :: v in currentEpochs ==> currentEpochs[v] <= now)
    }
  }

  // ---- What a represented table means, cell by cell ----

  /**
   * Every in-window cell holds exactly the clamped extremum over the votes its array accepted:
   * no covering vote beats it, and it is neutral or the target of a covering vote.
   */
  lemma CellIsExtremum(config: Config, T: Tables, h: History, now: Epoch, kind: Kind, v: Validator, e: Epoch)
    requires config.Valid() && T.ArraysAgree(config, h, now)
    requires v in T.currentEpochs && config.InWindow(e, T.currentEpochs[v])
    ensures var value := e + TableAt(config, kind, T.Array(kind), config.ValidatorChunkIndex(v), v, e);
            && !kind.Improves(e + kind.Neutral(), value)
            && (forall vote :: vote in h.Accepted(kind, v) && kind.Covers(vote.source, e) ==> !kind.Improves(vote.target, value))
            && (value == e + kind.Neutral()
                || exists vote :: vote in h.Accepted(kind, v) && kind.Covers(vote.source, e) && vote.target == value)
  {
    assert T.RowAgrees(config, h, kind, v);
    kind.BoundIsExtremum(h.Accepted(kind, v), e);
  }

  /** Both arrays are non-decreasing in the epoch throughout the window. */
  lemma CellsNonDecreasing(config: Config, T: Tables, h: History, now: Epoch, kind: Kind, v: Validator, e: Epoch, e': Epoch)
    requires config.Valid() && T.ArraysAgree(config, h, now) && v in T.currentEpochs
    requires config.InWindow(e, T.currentEpochs[v]) && config.InWindow(e', T.currentEpochs[v]) && e <= e'
    ensures e + TableAt(config, kind, T.Array(kind), config.ValidatorChunkIndex(v), v, e)
            <= e' + TableAt(config, kind, T.Array(kind), config.ValidatorChunkIndex(v), v, e')
  {
    assert T.RowAgrees(config, h, kind, v);
    kind.BoundMonotone(h.Accepted(kind, v), e, e');
  }

  /**
   * A slot in the range of the ring is null, or belongs to a recorded vote with exactly that
   * target; while the target is in the window, the slot names a stored attestation by `v` with it.
   */
  lemma RingIsExact(config: Config, T: Tables, h: History, seen: set<Attestation>, now: Epoch, v: Validator, target: Epoch)
    requires config.Valid() && T.RecordsAgree(config, h, now) && h.Sound(seen)
    requires v in T.attesterMaxTargets && target <= T.attesterMaxTargets[v] < target + config.historyLength
    ensures Named(config, T.attesters, v, target) != 0 <==> (v, target) in h.records
    ensures Named(config, T.attesters, v, target) != 0 && now < target + config.historyLength ==>
              var id := Named(config, T.attesters, v, target);
              && id in T.attestations
              && v in T.attestations[id].indices
              && T.attestations[id].data.target == target
  {
    assert T.SlotAgrees(config, h, now, v, target) && h.RecordFits(v, target);
  }

  /** What moving a validator's maximum target forward leaves of its ring: nothing stale, everything in range. */
  ghost predicate RingAdvanced(config: Config, ring: AttesterRing, ring': AttesterRing, v: Validator, previous: Epoch, target: Epoch)
    requires config.Valid()
  {
    && (forall e: Epoch :: previous < e < target < e + config.historyLength ==> Named(config, ring', v, e) == 0)
    && (forall e: Epoch :: e <= previous < target < e + config.historyLength ==> Named(config, ring', v, e) == Named(config, ring, v, e))
    && RingKept(ring, ring', v)
  }

  /** Other validators' entries are untouched. */
  ghost predicate RingKept(ring: AttesterRing, ring': AttesterRing, v: Validator) {
    forall r, w :: w != v ==> ((r, w) in ring' <==> (r, w) in ring) && ((r, w) in ring ==> ring'[(r, w)] == ring[(r, w)])
  }

  lemma SlotsDistinct(config: Config, t: Epoch, t': Epoch)
    requires config.Valid() && t != t' && t < t' + config.historyLength && t' < t + config.historyLength
    ensures t % config.historyLength != t' % config.historyLength
  {
    if t % config.historyLength == t' % config.historyLength {
      Arithmetic.SameRemainder(t, t', config.historyLength);
    }
  }

  /** Zeroing one slot leaves every other target of the same window alone. */
  lemma ZeroSlot(config: Config, ring: AttesterRing, v: Validator, epoch: Epoch)
    requires config.Valid()
    ensures var ring' := ring[(epoch % config.historyLength, v) := 0];
            && RingKept(ring, ring', v)
            && Named(config, ring', v, epoch) == 0
            && (forall e: Epoch :: Named(config, ring', v, e) == 0 || Named(config, ring', v, e) == Named(config, ring, v, e))
            && (forall e: Epoch :: e < epoch < e + config.historyLength ==> Named(config, ring', v, e) == Named(config, ring, v, e))
  {
    var ring' := ring[(epoch % config.historyLength, v) := 0];
    forall e: Epoch | e < epoch < e + config.historyLength ensures Named(config, ring', v, e) == Named(config, ring, v, e) {
      SlotsDistinct(config, e, epoch);
    }
  }

  /** The tables after the first vote of `v` for this target has been recorded under `id`. */
  ghost predicate RecordInserted(config: Config, T: Tables, ring: AttesterRing, T': Tables, v: Validator, target: Epoch, id: nat)
    requires config.Valid()
  {
    && T'.attestations == T.attestations
    && T'.attesters == ring[(target % config.historyLength, v) := id]
    && (if v in T.attesterMaxTargets && target <= T.attesterMaxTargets[v] then
          T'.attesterMaxTargets == T.attesterMaxTargets && ring == T.attesters
        else
          && T'.attesterMaxTargets == T.attesterMaxTargets[v := target]
          && (v in T.attesterMaxTargets ==> RingAdvanced(config, T.attesters, ring, v, T.attesterMaxTargets[v], target))
          && (v !in T.attesterMaxTargets ==> ring == T.attesters))
  }

  /** Recording a first vote represents the reference's insertion. */
  lemma InsertAgrees(config: Config, T: Tables, ring: AttesterRing, T': Tables, h: History, now: Epoch, v: Validator, a: Attestation, id: nat)
    requires config.Valid() && T.RecordsAgree(config, h, now)
    requires a.data.target <= now < a.data.target + config.historyLength
    requires (v, a.data.target) !in h.records
    requires id != 0 && id in T.attestations && T.attestations[id] == a
    requires RecordInserted(config, T, ring, T', v, a.data.target, id)
    ensures T'.RecordsAgree(config, h.(records := h.records[(v, a.data.target) := a]), now)
  {
    var h' := h.(records := h.records[(v, a.data.target) := a]);
    forall w, t ensures T'.SlotAgrees(config, h', now, w, t) {
      if w == v && t != a.data.target {
        OwnSlotAgrees(config, T, ring, T', h, now, v, a, id, t);
      } else {
        assert T.SlotAgrees(config, h, now, w, t);
      }
    }
  }

  lemma OwnSlotAgrees(config: Config, T: Tables, ring: AttesterRing, T': Tables, h: History, now: Epoch, v: Validator, a: Attestation, id: nat, t: Epoch)
    requires config.Valid() && T.RecordsAgree(config, h, now)
    requires a.data.target <= now < a.data.target + config.historyLength
    requires RecordInserted(config, T, ring, T', v, a.data.target, id)
    requires t != a.data.target
    ensures T'.SlotAgrees(config, h.(records := h.records[(v, a.data.target) := a]), now, v, t)
  {
    var target := a.data.target;
    assert T.SlotAgrees(config, h, now, v, t);
    if t < target + config.historyLength && target < t + config.historyLength {
      SlotsDistinct(config, t, target);
      assert Named(config, T'.attesters, v, t) == Named(config, ring, v, t);
      if v !in T.attesterMaxTargets {
        assert (t % config.historyLength, v) !in T.attesters;
      }
    }
  }

  // ---- Pruning ----

  /** The identifiers to delete are exactly those of attestations below the bound. */
  lemma PrunedIds(T: Tables, minEpoch: Epoch, ids: seq<nat>, id: nat)
    requires T.StoreValid() && id in T.attestations
    requires forall k :: k in ids <==> exists key :: key in T.attestationIds && key.0 < minEpoch && T.attestationIds[key] == k
    ensures id in ids <==> T.attestations[id].data.target < minEpoch
  {
    var key := (T.attestations[id].data.target, T.attestations[id]);
    assert key in T.attestationIds && T.attestationIds[key] == id;
  }

  /** `T'` is `T` without the attestations whose target is below the bound. */
  ghost predicate Pruned(T: Tables, T': Tables, minEpoch: Epoch) {
    && T' == T.(attestations := T'.attestations, attestationIds := T'.attestationIds)
    && (forall key :: key in T'.attestationIds <==> key in T.attestationIds && minEpoch <= key.0)
    && (forall key :: key in T'.attestationIds ==> T'.attestationIds[key] == T.attestationIds[key])
    && (forall id :: id in T'.attestations <==> id in T.attestations && minEpoch <= T.attestations[id].data.target)
    && (forall id :: id in T'.attestations ==> T'.attestations[id] == T.attestations[id])
  }

  /** Both tables lose the same attestations, so they stay in bijection, and nothing in the window is lost. */
  lemma PruneAgrees(config: Config, T: Tables, T': Tables, h: History, now: Epoch, now': Epoch, minEpoch: Epoch)
    requires config.Valid() && now <= now' && minEpoch <= now' + 1 && (minEpoch == 0 || now' + 1 == minEpoch + config.historyLength)
    requires T.StoreValid() && T.RecordsAgree(config, h, now) && T.ArraysAgree(config, h, now)
    requires forall v, t :: h.RecordFits(v, t)
    requires Pruned(T, T', minEpoch)
    ensures T'.StoreValid() && T'.RecordsAgree(config, h, now') && T'.ArraysAgree(config, h, now')
  {
    RecordsKept(config, T, T', h, h, now, now');
    ArraysKept(config, T, T', h, h, now, now');
  }

  // ---- What each part of the relation depends on ----

  lemma RecordsKept(config: Config, T: Tables, T': Tables, h: History, h': History, now: Epoch, now': Epoch)
    requires config.Valid() && T.RecordsAgree(config, h, now)
    requires T'.attesters == T.attesters && T'.attesterMaxTargets == T.attesterMaxTargets && h'.records == h.records
    requires now <= now'
    requires forall id :: id in T.attestations && now' < T.attestations[id].data.target + config.historyLength ==>
               id in T'.attestations && T'.attestations[id] == T.attestations[id]
    requires forall v, t :: h.RecordFits(v, t)
    ensures T'.RecordsAgree(config, h', now')
  {
    forall v, t ensures T'.SlotAgrees(config, h', now', v, t) {
      assert T.SlotAgrees(config, h, now, v, t) && h.RecordFits(v, t);
    }
  }

  lemma ArraysKept(config: Config, T: Tables, T': Tables, h: History, h': History, now: Epoch, now': Epoch)
    requires config.Valid() && T.ArraysAgree(config, h, now)
    requires T'.minTargets == T.minTargets && T'.maxTargets == T.maxTargets && T'.currentEpochs == T.currentEpochs
    requires h'.accepted == h.accepted && now <= now'
    ensures T'.ArraysAgree(config, h', now')
  {
    forall kind, v ensures T'.RowAgrees(config, h', kind, v) {
      assert T.RowAgrees(config, h, kind, v);
      assert T'.Array(kind) == T.Array(kind) && h'.Accepted(kind, v) == h.Accepted(kind, v);
    }
  }
}
