/** The slasher database: every operation on its tables, proved against the reference history. */
module SlasherDatabase {
  import opened Types
  import opened TargetBounds
  import opened Configuration
  import opened ReferenceHistory
  import opened TargetArrays
  import opened DatabaseTables
  import opened Detection

  /** A finite non-empty set of numbers has a largest element. */
  lemma {:induction false} Largest(s: set<nat>) returns (k: nat)
    requires s != {}
    ensures k in s && forall k' :: k' in s ==> k' <= k
  {
    var x :| x in s;
    var rest := s - {x};
    assert forall k' :: k' in s ==> k' == x || k' in rest;
    k := x;
    if rest != {} {
      var m := Largest(rest);
      k := if m < x then x else m;
    }
  }

  /** A non-empty table has a first key in an order that compares targets first. */
  lemma {:induction false} FirstKey(s: set<(Epoch, Attestation)>) returns (k: (Epoch, Attestation))
    requires s != {}
    ensures k in s && forall k' :: k' in s ==> k.0 <= k'.0
  {
    var x: (Epoch, Attestation) :| x in s;
    var rest := s - {x};
    assert forall k' :: k' in s ==> k' == x || k' in rest;
    k := x;
    if rest != {} {
      var m := FirstKey(rest);
      k := if x.0 < m.0 then x else m;
    }
  }

  /** A cached root of a stored attestation is that attestation's root. */
  ghost predicate CacheFits(T: Tables, cache: map<nat, AttestationData>) {
    forall id :: id in cache && id in T.attestations ==> cache[id] == T.attestations[id].data
  }

  /** A cache that fits a table fits every part of it. */
  lemma CacheFitsFewer(T: Tables, saved: Tables, cache: map<nat, AttestationData>)
    requires CacheFits(T, cache)
    requires forall k :: k in saved.attestations ==> k in T.attestations && T.attestations[k] == saved.attestations[k]
    ensures CacheFits(saved, cache)
  {
  }

  /** Store, cache and attester ring represent the reference history. */
  ghost predicate Represents(config: Config, T: Tables, cache: map<nat, AttestationData>, h: History, seen: set<Attestation>, now: Epoch)
    requires config.Valid()
  {
    && T.StoreValid()
    && CacheFits(T, cache)
    && T.RecordsAgree(config, h, now)
    && h.Sound(seen)
  }

  /** Storing one attestation under a fresh identifier and priming the cache for it. */
  lemma RepresentsStored(config: Config, T: Tables, T': Tables, cache: map<nat, AttestationData>, cache': map<nat, AttestationData>,
                         h: History, seen: set<Attestation>, now: Epoch, id: nat, a: Attestation)
    requires config.Valid() && Represents(config, T, cache, h, seen, now)
    requires T' == T.(attestations := T'.attestations, attestationIds := T'.attestationIds) && T'.StoreValid()
    requires T'.attestations == T.attestations[id := a] && (id in T.attestations ==> T.attestations[id] == a)
    requires id in cache' && cache'[id] == a.data
    requires forall k :: k in cache' && k != id ==> k in cache && cache'[k] == cache[k]
    ensures Represents(config, T', cache', h, seen, now)
  {
    RecordsKept(config, T, T', h, h, now, now);
  }

  /** Changing only arrays and current epochs leaves the representation of records alone. */
  lemma RepresentsKept(config: Config, T: Tables, T': Tables, cache: map<nat, AttestationData>, h: History, seen: set<Attestation>, now: Epoch)
    requires config.Valid() && Represents(config, T, cache, h, seen, now)
    requires T' == T.(minTargets := T'.minTargets, maxTargets := T'.maxTargets, currentEpochs := T'.currentEpochs)
    ensures Represents(config, T', cache, h, seen, now)
  {
    RecordsKept(config, T, T', h, h, now, now);
  }

  class SlasherDB {
    const config: Config
    var tables: Tables
    var cache: map<nat, AttestationData>
    /** The reference history these tables represent. */
    ghost var hist: History
    /** Everything that was ever handed to the database. */
    ghost var seen: set<Attestation>
    /** The largest epoch passed to an operation so far. */
    ghost var now: Epoch

    ghost predicate CacheAgrees()
      reads this
    {
      CacheFits(tables, cache)
    }

    ghost predicate RecordsValid()
      reads this
    {
      config.Valid() && Represents(config, tables, cache, hist, seen, now)
    }

    ghost predicate Valid()
      reads this
    {
      RecordsValid() && tables.ArraysAgree(config, hist, now)
    }

    constructor (config: Config)
      requires config.Valid()
      ensures Valid() && this.config == config
      ensures hist == History(map[], map[], {}) && seen == {} && now == 0
    {
      this.config := config;
      tables := Tables(map[], map[], map[], map[], map[], map[], map[]);
      cache := map[];
      hist := History(map[], map[], {});
      seen := {};
      now := 0;
    }

    // ---- Attestation store and root cache ----

    method GetIndexedAttestation(id: nat) returns (outcome: Outcome, a: Attestation)
      ensures outcome == if id in tables.attestations then Pass else Fail(MissingIndexedAttestation(id))
      ensures id in tables.attestations ==> a == tables.attestations[id]
    {
      if id in tables.attestations {
        outcome, a := Pass, tables.attestations[id];
      } else {
        outcome, a := Fail(MissingIndexedAttestation(id)), *;
      }
    }

    /** Put a root into the cache, which may evict any other entries. */
    method CacheAttestationDataRoot(id: nat, root: AttestationData)
      modifies this`cache
      ensures id in cache && cache[id] == root
      ensures forall k :: k in cache && k != id ==> k in old(cache) && cache[k] == old(cache)[k]
    {
      var evicted: set<nat> := *;
      cache := (cache - evicted)[id := root];
    }

    method GetAttestationDataRoot(id: nat) returns (outcome: Outcome, root: AttestationData, loaded: Option<Attestation>)
      requires CacheAgrees()
      modifies this`cache
      ensures CacheAgrees()
      ensures outcome == if id in old(cache) || id in tables.attestations then Pass else Fail(MissingIndexedAttestation(id))
      ensures id in tables.attestations ==> root == tables.attestations[id].data
      ensures id in tables.attestations && loaded.Some? ==> loaded.value == tables.attestations[id]
      ensures outcome.Pass? ==> id in cache && cache[id] == root && (loaded.Some? <==> id !in old(cache))
    {
      if id in cache {
        return Pass, cache[id], None;
      }
      root, loaded := *, None;
      var a :- GetIndexedAttestation(id);
      CacheAttestationDataRoot(id, a.data);
      return Pass, a.data, Some(a);
    }

    /**
     * Store an attestation under a new identifier, one past the last key, unless it is stored
     * already. Afterwards the cache may be wrong about that one identifier.
     */
    method StoreIndexedAttestation(a: Attestation) returns (id: nat)
      requires tables.StoreValid() && config.Valid()
      modifies this`tables
      ensures tables.StoreValid()
      ensures id != 0 && id in tables.attestations && tables.attestations[id] == a
      ensures tables == old(tables).(attestations := tables.attestations, attestationIds := tables.attestationIds)
      ensures id in old(tables).attestations ==> old(tables).attestations[id] == a
      ensures tables.attestations == old(tables).attestations[id := a]
      ensures id in old(tables).attestations ==> tables == old(tables)
      ensures id !in old(tables).attestations ==>
                && (forall k :: k in old(tables).attestations ==> old(tables).attestations[k] != a && k < id)
                && (id == 1 || id - 1 in old(tables).attestations)
    {
      var key := (a.data.target, a);
      if key in tables.attestationIds {
        return tables.attestationIds[key];
      }
      var keys := tables.attestations.Keys;
      if keys == {} {
        id := 1;
      } else {
        ghost var largest := Largest(keys);
        var last: nat :| last in keys && forall k :: k in keys ==> k <= last;
        id := last + 1;
      }
      tables := tables.(attestations := tables.attestations[id := a], attestationIds := tables.attestationIds[key := id]);
    }

    /** Store an attestation and prime the cache with its root. */
    method StoreAndCache(a: Attestation) returns (id: nat)
      requires Valid()
      modifies this`tables, this`cache
      ensures Valid()
      ensures id != 0 && id in tables.attestations && tables.attestations[id] == a
      ensures forall k :: k in old(tables).attestations ==> k in tables.attestations && tables.attestations[k] == old(tables).attestations[k]
      ensures tables == old(tables).(attestations := tables.attestations, attestationIds := tables.attestationIds)
      ensures tables.attestations == old(tables).attestations[id := a]
    {
      hide History.Sound, Tables.RecordsAgree, Tables.StoreValid, CacheFits, Tables.RowAgrees;
      id := StoreIndexedAttestation(a);
      CacheAttestationDataRoot(id, a.data);
      RepresentsStored(config, old(tables), tables, old(cache), cache, hist, seen, now, id, a);
      ArraysKept(config, old(tables), tables, hist, hist, now, now);
    }

    // ---- Attester records ----

    /** No lower-bound check: a target outside the ring's range would read another target's slot. */
    function GetAttesterRecord(v: Validator, target: Epoch, previousMax: Option<Epoch>): Option<nat>
      requires config.Valid()
      reads this
    {
      if previousMax.None? || target > previousMax.value then None
      else
        var id := Named(config, tables.attesters, v, target);
        if id == 0 then None else Some(id)
    }

    function GetAttesterMaxTarget(v: Validator): Option<Epoch>
      reads this
    {
      if v in tables.attesterMaxTargets then Some(tables.attesterMaxTargets[v]) else None
    }

    /** Inside the window the ring answers exactly like the reference. */
    lemma RecordLookup(v: Validator, target: Epoch)
      requires RecordsValid() && now < target + config.historyLength
      ensures GetAttesterRecord(v, target, GetAttesterMaxTarget(v)).Some? <==> (v, target) in hist.records
      ensures (v, target) in hist.records ==>
                var id := GetAttesterRecord(v, target, GetAttesterMaxTarget(v)).value;
                id in tables.attestations && tables.attestations[id] == hist.records[(v, target)]
    {
      assert tables.SlotAgrees(config, hist, now, v, target);
    }

    /**
     * What the missing lower-bound check means: a lookup of any target up to the maximum answers
     * for the one epoch in the ring's range that shares its slot, so it is right exactly when the
     * target is that epoch.
     */
    lemma LookupAnswersForRingEpoch(v: Validator, target: Epoch, e: Epoch)
      requires RecordsValid() && v in tables.attesterMaxTargets
      requires target <= tables.attesterMaxTargets[v]
      requires e <= tables.attesterMaxTargets[v] < e + config.historyLength
      requires e % config.historyLength == target % config.historyLength
      ensures GetAttesterRecord(v, target, GetAttesterMaxTarget(v)).Some? <==> (v, e) in hist.records
      ensures target == e <==> tables.attesterMaxTargets[v] < target + config.historyLength
    {
      RingIsExact(config, tables, hist, seen, now, v, e);
      if tables.attesterMaxTargets[v] < target + config.historyLength && target != e {
        SlotsDistinct(config, target, e);
      }
    }

    method GetAttestationForValidator(v: Validator, target: Epoch) returns (outcome: Outcome, a: Attestation)
      requires RecordsValid() && now < target + config.historyLength
      ensures (v, target) in hist.records ==> outcome.Pass? && a == hist.records[(v, target)]
      ensures (v, target) !in hist.records ==> outcome == Fail(MissingAttesterRecord(v, target))
    {
      RecordLookup(v, target);
      var record := GetAttesterRecord(v, target, GetAttesterMaxTarget(v));
      if record.None? {
        outcome, a := Fail(MissingAttesterRecord(v, target)), *;
      } else {
        outcome, a := GetIndexedAttestation(record.value);
      }
    }

    /** Move the maximum target forward, zeroing the slots that come into range. */
    method UpdateAttesterMaxTarget(v: Validator, previousMax: Option<Epoch>, target: Epoch)
      requires config.Valid()
      modifies this`tables
      ensures tables == old(tables).(attesters := tables.attesters, attesterMaxTargets := tables.attesterMaxTargets)
      ensures previousMax.Some? && target <= previousMax.value ==> tables == old(tables)
      ensures previousMax.None? || target > previousMax.value ==>
                tables.attesterMaxTargets == old(tables).attesterMaxTargets[v := target]
      ensures previousMax.None? ==> tables.attesters == old(tables).attesters
      ensures previousMax.Some? && target > previousMax.value ==>
                RingAdvanced(config, old(tables).attesters, tables.attesters, v, previousMax.value, target)
    {
      if previousMax.Some? && target <= previousMax.value {
        return;
      }
      if previousMax.Some? {
        var n := config.historyLength;
        var oldest := if target + 1 < n then 0 else target + 1 - n;
        var start: Epoch := if previousMax.value + 1 < oldest then oldest else previousMax.value + 1;
        var epoch: Epoch := start;
        while epoch < target
          invariant start <= epoch && (epoch <= target || epoch == start)
          invariant tables == old(tables).(attesters := tables.attesters)
          invariant forall e: Epoch :: start <= e < epoch ==> Named(config, tables.attesters, v, e) == 0
          invariant forall e: Epoch :: e <= previousMax.value && target < e + n ==>
                      Named(config, tables.attesters, v, e) == Named(config, old(tables).attesters, v, e)
          invariant RingKept(old(tables).attesters, tables.attesters, v)
        {
          ZeroSlot(config, tables.attesters, v, epoch);
          tables := tables.(attesters := tables.attesters[(epoch % n, v) := 0]);
          epoch := epoch + 1;
        }
      }
      tables := tables.(attesterMaxTargets := tables.attesterMaxTargets[v := target]);
    }

    /** Record a validator's first vote for a target. */
    method InsertAttesterRecord(v: Validator, a: Attestation, id: nat)
      requires Valid() && Processable(seen, v, a)
      requires config.InWindow(a.data.target, now) && (v, a.data.target) !in hist.records
      requires id != 0 && id in tables.attestations && tables.attestations[id] == a
      modifies this`tables, this`hist
      ensures Valid()
      ensures hist == old(hist).CheckRecord(v, a)
      ensures tables == old(tables).(attesters := tables.attesters, attesterMaxTargets := tables.attesterMaxTargets)
    {
      CheckRecordStep(hist, seen, v, a);
      UpdateAttesterMaxTarget(v, GetAttesterMaxTarget(v), a.data.target);
      ghost var ring := tables.attesters;
      tables := tables.(attesters := tables.attesters[(a.data.target % config.historyLength, v) := id]);
      hist := hist.CheckRecord(v, a);
      InsertAgrees(config, old(tables), ring, tables, old(hist), now, v, a, id);
      ArraysKept(config, old(tables), tables, old(hist), hist, now, now);
    }

    /** The double-vote check: exactly the reference's verdict and the reference's new record. */
    method CheckAndUpdateAttesterRecord(v: Validator, a: Attestation, id: nat) returns (outcome: Outcome, status: SlashingStatus)
      requires Valid() && Processable(seen, v, a)
      requires config.InWindow(a.data.target, now)
      requires id != 0 && id in tables.attestations && tables.attestations[id] == a
      modifies this`tables, this`cache, this`hist
      ensures Valid() && outcome.Pass?
      ensures status == old(hist).RecordStatus(v, a)
      ensures hist == old(hist).CheckRecord(v, a)
      ensures tables.attestations == old(tables).attestations
    {
      CheckRecordStep(hist, seen, v, a);
      RecordLookup(v, a.data.target);
      status := NotSlashable;
      var previousMax := GetAttesterMaxTarget(v);
      var record := GetAttesterRecord(v, a.data.target, previousMax);
      if record.Some? {
        assert hist.RecordFits(v, a.data.target);
        hist := hist.CheckRecord(v, a);
        RecordsKept(config, tables, tables, old(hist), hist, now, now);
        ArraysKept(config, tables, tables, old(hist), hist, now, now);
        if record.value == id {
          return Pass, NotSlashable;
        }
        var existingRoot, loaded :- GetAttestationDataRoot(record.value);
        if existingRoot == a.data {
          return Pass, NotSlashable;
        }
        var existing: Attestation;
        if loaded.Some? {
          existing := loaded.value;
        } else {
          existing :- GetIndexedAttestation(record.value);
        }
        if IsDoubleVote(a, existing) {
          return Pass, DoubleVote(existing);
        } else {
          return Fail(InconsistentAttestationDataRoot), NotSlashable;
        }
      } else {
        InsertAttesterRecord(v, a, id);
        return Pass, NotSlashable;
      }
    }

    // ---- Transactions ----

    /** The clock moves on and more attestations become known; no table changes. */
    ghost method Advance(current: Epoch, added: set<Attestation>)
      requires Valid() && now <= current
      modifies this`now, this`seen
      ensures Valid() && now == current && seen == old(seen) + added
    {
      RecordsKept(config, tables, tables, hist, hist, now, current);
      ArraysKept(config, tables, tables, hist, hist, now, current);
      now := current;
      seen := seen + added;
    }

    /**
     * Abort: the tables are as they were before the transaction, while the cache and the
     * emitted slashings are not rolled back.
     */
    method Rollback(saved: Tables, ghost before: History)
      requires Valid()
      requires saved.StoreValid() && saved.RecordsAgree(config, before, now) && saved.ArraysAgree(config, before, now)
      requires before.Sound(seen) && before.emitted <= hist.emitted
      requires CacheFits(saved, cache)
      modifies this`tables, this`hist
      ensures Valid() && tables == saved && hist == before.(emitted := hist.emitted) && hist.emitted == old(hist).emitted
    {
      tables := saved;
      EvidenceKeepsSound(before, hist, seen);
      hist := before.(emitted := hist.emitted);
      RecordsKept(config, saved, saved, before, hist, now, now);
      ArraysKept(config, saved, saved, before, hist, now, now);
    }

    // ---- Pruning ----

    /**
     * Delete entries of the identifier table from the first key on while their target is too old.
     * The first key in byte order is one with the smallest target (DatabaseKeys.IndexedAttestationIdKey);
     * which of those comes first does not matter here.
     */
    method DeleteIdsWhileBelow(minEpoch: Epoch) returns (ids: seq<nat>)
      modifies this`tables
      ensures tables == old(tables).(attestationIds := tables.attestationIds)
      ensures forall key :: key in tables.attestationIds <==> key in old(tables).attestationIds && minEpoch <= key.0
      ensures forall key :: key in tables.attestationIds ==> tables.attestationIds[key] == old(tables).attestationIds[key]
      ensures forall id :: id in ids <==>
                exists key :: key in old(tables).attestationIds && key.0 < minEpoch && old(tables).attestationIds[key] == id
    {
      ghost var all := tables.attestationIds;
      ids := [];
      while tables.attestationIds.Keys != {}
        invariant tables == old(tables).(attestationIds := tables.attestationIds)
        invariant forall key :: key in tables.attestationIds ==> key in all && tables.attestationIds[key] == all[key]
        invariant forall key :: key in all && key !in tables.attestationIds ==> key.0 < minEpoch && all[key] in ids
        invariant forall id :: id in ids ==> exists key :: key in all && key.0 < minEpoch && all[key] == id
        decreases tables.attestationIds.Keys
      {
        ghost var least := FirstKey(tables.attestationIds.Keys);
        var first :| first in tables.attestationIds.Keys && forall k :: k in tables.attestationIds.Keys ==> first.0 <= k.0;
        if first.0 < minEpoch {
          ids := ids + [tables.attestationIds[first]];
          tables := tables.(attestationIds := tables.attestationIds - {first});
        } else {
          break;
        }
      }
    }

    /** Delete these attestations and their cached roots. */
    method DeleteAttestations(ids: seq<nat>)
      modifies this`tables, this`cache
      ensures tables == old(tables).(attestations := tables.attestations)
      ensures forall id :: id in tables.attestations <==> id in old(tables).attestations && id !in ids
      ensures forall id :: id in tables.attestations ==> tables.attestations[id] == old(tables).attestations[id]
      ensures forall id :: id in cache <==> id in old(cache) && id !in ids
      ensures forall id :: id in cache ==> cache[id] == old(cache)[id]
    {
      for i := 0 to |ids|
        invariant tables == old(tables).(attestations := tables.attestations) && cache == old(cache)
        invariant forall id :: id in tables.attestations <==> id in old(tables).attestations && id !in ids[..i]
        invariant forall id :: id in tables.attestations ==> tables.attestations[id] == old(tables).attestations[id]
      {
        tables := tables.(attestations := tables.attestations - {ids[i]});
      }
      assert ids[..|ids|] == ids;
      cache := cache - set id | id in ids;
    }

    /** Delete every attestation below the bound from both tables and from the cache. */
    method DeleteBelow(minEpoch: Epoch)
      requires tables.StoreValid()
      modifies this`tables, this`cache
      ensures Pruned(old(tables), tables, minEpoch)
      ensures forall id :: id in cache ==> id in old(cache) && cache[id] == old(cache)[id]
      ensures forall id :: id in cache && id in old(tables).attestations ==> id in tables.attestations
    {
      var ids := DeleteIdsWhileBelow(minEpoch);
      DeleteAttestations(ids);
      forall id | id in old(tables).attestations ensures id in ids <==> old(tables).attestations[id].data.target < minEpoch {
        PrunedIds(old(tables), minEpoch, ids, id);
      }
    }

    /**
     * Pruning removes exactly the attestations whose target has left the window; what the
     * tables represent does not change.
     */
    method PruneIndexedAttestations(current: Epoch)
      requires Valid() && now <= current
      modifies this`tables, this`cache, this`now
      ensures Valid() && now == current
      ensures tables == old(tables).(attestations := tables.attestations, attestationIds := tables.attestationIds)
      ensures forall id :: id in tables.attestations <==>
                id in old(tables).attestations && current < old(tables).attestations[id].data.target + config.historyLength
      ensures forall id :: id in tables.attestations ==> tables.attestations[id] == old(tables).attestations[id]
      ensures forall id :: id in cache ==> id in old(cache) && cache[id] == old(cache)[id]
      ensures forall id :: id in cache && id in old(tables).attestations ==> id in tables.attestations
    {
      var minEpoch: Epoch := if current + 1 < config.historyLength then 0 else current + 1 - config.historyLength;
      DeleteBelow(minEpoch);
      now := current;
      PruneAgrees(config, old(tables), tables, hist, old(now), now, minEpoch);
    }
  }
}
