/** De-duplicating a batch of attestations and grouping it by validator chunk. */
module AttestationBatches {
  import opened Types
  import opened Configuration
  import opened Subsequences

  /** The de-duplication key: a validator and the root of the data it voted for. */
  type Key = (Validator, AttestationData)

  /** An attestation on its way through the pipeline; its identifier is assigned once, after storing. */
  class IndexedAttesterRecord {
    const indexed: Attestation
    var id: nat

    constructor (indexed: Attestation)
      ensures this.indexed == indexed && id == 0
    {
      this.indexed := indexed;
      this.id := 0;
    }

    /** A compare-exchange from 0; the source panics if an identifier has been set before. */
    method SetId(newId: nat)
      requires id == 0
      modifies this
      ensures id == newId
    {
      if id == 0 {
        id := newId;
      }
    }
  }

  // ---- De-duplication ----

  predicate Attests(a: Attestation, key: Key) {
    key.0 in a.indices && key.1 == a.data
  }

  /** Queue one attestation for one of its validators: keep the larger aggregate, the earlier on a tie. */
  function QueueFor(m: map<Key, Attestation>, v: Validator, a: Attestation): map<Key, Attestation> {
    var key := (v, a.data);
    if key in m && |a.indices| <= |m[key].indices| then m else m[key := a]
  }

  function QueueAll(m: map<Key, Attestation>, vs: seq<Validator>, a: Attestation): map<Key, Attestation> {
    if vs == [] then m else QueueFor(QueueAll(m, vs[..|vs| - 1], a), vs[|vs| - 1], a)
  }

  /** The attestation kept for each key after queueing a whole batch. */
  function Deduplicated(batch: seq<Attestation>): map<Key, Attestation> {
    if batch == [] then map[]
    else
      var a := batch[|batch| - 1];
      QueueAll(Deduplicated(batch[..|batch| - 1]), a.indices, a)
  }

  lemma {:induction false} QueueAllAt(m: map<Key, Attestation>, vs: seq<Validator>, a: Attestation, key: Key)
    ensures var m' := QueueAll(m, vs, a);
            if key.1 == a.data && key.0 in vs then
              key in m' && m'[key] == if key in m && |a.indices| <= |m[key].indices| then m[key] else a
            else
              (key in m' <==> key in m) && (key in m ==> m'[key] == m[key])
  {
    if vs != [] {
      assert vs == vs[..|vs| - 1] + [vs[|vs| - 1]];
      QueueAllAt(m, vs[..|vs| - 1], a, key);
    }
  }

  /**
   * De-duplication loses no vote and invents none: a key is present exactly when some attestation
   * of the batch attests it, and it holds a largest such attestation of the batch.
   */
  lemma {:induction false} DeduplicatedAt(batch: seq<Attestation>, key: Key)
    ensures var m := Deduplicated(batch);
            && (key in m <==> exists a :: a in batch && Attests(a, key))
            && (key in m ==>
                  && m[key] in batch && Attests(m[key], key)
                  && forall a :: a in batch && Attests(a, key) ==> |a.indices| <= |m[key].indices|)
  {
    if batch != [] {
      var init, last := batch[..|batch| - 1], batch[|batch| - 1];
      assert batch == init + [last];
      DeduplicatedAt(init, key);
      QueueAllAt(Deduplicated(init), last.indices, last, key);
      if Attests(last, key) {
        assert last in batch;
      }
    }
  }

  /** Of equally large attestations the one that was queued first is kept. */
  lemma {:induction false} DeduplicatedIsFirstLargest(batch: seq<Attestation>, key: Key) returns (i: nat)
    requires key in Deduplicated(batch)
    ensures i < |batch| && batch[i] == Deduplicated(batch)[key] && Attests(batch[i], key)
    ensures forall j :: 0 <= j < i && Attests(batch[j], key) ==> |batch[j].indices| < |batch[i].indices|
    ensures forall j :: i < j < |batch| && Attests(batch[j], key) ==> |batch[j].indices| <= |batch[i].indices|
  {
    var n := |batch| - 1;
    var init, last := batch[..n], batch[n];
    QueueAllAt(Deduplicated(init), last.indices, last, key);
    if key in Deduplicated(init) {
      i := DeduplicatedIsFirstLargest(init, key);
      if Attests(last, key) && |init[i].indices| < |last.indices| {
        i := n;
      }
    } else {
      i := n;
      forall j | 0 <= j < n ensures !Attests(batch[j], key) {
        DeduplicatedAt(init, key);
        assert init[j] in init;
      }
    }
  }

  // ---- Grouping ----

  /** The order of the map's keys: by validator, then by root. */
  predicate KeyBefore(a: Key, b: Key) {
    a.0 < b.0 || (a.0 == b.0 && RootBefore(a.1, b.1))
  }

  ghost predicate IsFirst(key: Key, keys: set<Key>) {
    key in keys && forall k :: k in keys ==> k == key || KeyBefore(key, k)
  }

  lemma {:induction false} FirstKeyOf(keys: set<Key>) returns (key: Key)
    requires keys != {}
    ensures IsFirst(key, keys)
  {
    var x: Key :| x in keys;
    var rest := keys - {x};
    assert forall k :: k in keys ==> k == x || k in rest;
    key := x;
    if rest != {} {
      var m := FirstKeyOf(rest);
      key := if KeyBefore(m, x) then m else x;
    }
  }

  lemma FirstKeyExists(keys: set<Key>)
    requires keys != {}
    ensures exists key :: IsFirst(key, keys)
  {
    var key := FirstKeyOf(keys);
  }

  /** All keys in ascending order. */
  ghost function Ascending(keys: set<Key>): seq<Key> {
    if keys == {} then []
    else
      FirstKeyExists(keys);
      var key :| IsFirst(key, keys);
      [key] + Ascending(keys - {key})
  }

  lemma AscendingStep(keys: set<Key>, key: Key)
    requires IsFirst(key, keys)
    ensures Ascending(keys) == [key] + Ascending(keys - {key})
  {
    FirstKeyExists(keys);
  }

  lemma {:induction false} InAscending(keys: set<Key>, key: Key)
    ensures key in Ascending(keys) <==> key in keys
    decreases |keys|
  {
    if keys != {} {
      var first := FirstKeyOf(keys);
      AscendingStep(keys, first);
      InAscending(keys - {first}, key);
    }
  }

  /** The map's iteration order, in numbers: validators go up, and for one validator so do the roots. */
  ghost predicate InKeyOrder(keys: seq<Key>) {
    && (forall i, j :: 0 <= i < j < |keys| ==>
          keys[i].0 < keys[j].0 || (keys[i].0 == keys[j].0 && keys[i].1.root <= keys[j].1.root))
    && (forall i, j :: 0 <= i < j < |keys| ==> keys[i] != keys[j])
  }

  /** Ascending lists exactly these keys, each once, in the map's order. */
  lemma {:induction false} AscendingInOrder(keys: set<Key>)
    ensures InKeyOrder(Ascending(keys))
    ensures forall key :: key in Ascending(keys) <==> key in keys
    decreases |keys|
  {
    if keys != {} {
      var first := FirstKeyOf(keys);
      AscendingStep(keys, first);
      var rest := Ascending(keys - {first});
      AscendingInOrder(keys - {first});
      forall j | 0 <= j < |rest| ensures rest[j] != first && KeyBefore(first, rest[j]) {
        assert rest[j] in rest;
      }
    }
  }

  /** Push onto subqueue `c`, creating empty subqueues up to it when needed. */
  function Enqueue<T>(queues: seq<seq<T>>, c: nat, x: T): (r: seq<seq<T>>)
    ensures c < |r| && |queues| <= |r|
    ensures forall i :: 0 <= i < |r| ==>
              r[i] == (if i < |queues| then queues[i] else []) + (if i == c then [x] else [])
  {
    var grown := if c < |queues| then queues else queues + seq(c + 1 - |queues|, _ => []);
    grown[c := grown[c] + [x]]
  }

  /** The keys of each subqueue, when the keys are taken in this order. */
  function SubqueueKeys(config: Config, keys: seq<Key>): seq<seq<Key>>
    requires config.Valid()
  {
    if keys == [] then []
    else
      var key := keys[|keys| - 1];
      Enqueue(SubqueueKeys(config, keys[..|keys| - 1]), config.ValidatorChunkIndex(key.0), key)
  }

  /** Each key lands in the subqueue of its validator's chunk and in no other. */
  lemma {:induction false} InSubqueue(config: Config, keys: seq<Key>, c: nat, key: Key)
    requires config.Valid()
    ensures (c < |SubqueueKeys(config, keys)| && key in SubqueueKeys(config, keys)[c])
            <==> key in keys && config.InChunk(key.0, c)
  {
    if keys != [] {
      assert keys == keys[..|keys| - 1] + [keys[|keys| - 1]];
      InSubqueue(config, keys[..|keys| - 1], c, key);
    }
  }

  ghost function SubqueueOrNone<T>(queues: seq<seq<T>>, c: nat): seq<T> {
    if c < |queues| then queues[c] else []
  }

  lemma EnqueuedAt<T>(queues: seq<seq<T>>, c: nat, x: T, i: nat)
    ensures SubqueueOrNone(Enqueue(queues, c, x), i) == SubqueueOrNone(queues, i) + if i == c then [x] else []
  {
  }

  /** A subqueue takes its keys in the given order, and takes exactly those of its validator chunk. */
  lemma {:induction false} SubqueueKeysInOrder(config: Config, keys: seq<Key>, c: nat) returns (picks: seq<nat>)
    requires config.Valid()
    ensures PickedFrom(keys, SubqueueOrNone(SubqueueKeys(config, keys), c), picks)
    ensures forall k :: 0 <= k < |keys| ==> (k in picks <==> config.InChunk(keys[k].0, c))
  {
    hide Enqueue;
    picks := [];
    if keys != [] {
      var n := |keys| - 1;
      var init, last := keys[..n], keys[n];
      assert keys == init + [last];
      picks := SubqueueKeysInOrder(config, init, c);
      EnqueuedAt(SubqueueKeys(config, init), config.ValidatorChunkIndex(last.0), last, c);
      PickNext(init, SubqueueOrNone(SubqueueKeys(config, init), c), picks, last);
      if config.InChunk(last.0, c) {
        picks := picks + [n];
      }
    }
  }

  lemma PickedInKeyOrder(whole: seq<Key>, part: seq<Key>, picks: seq<nat>)
    requires PickedFrom(whole, part, picks) && InKeyOrder(whole)
    ensures InKeyOrder(part)
  {
    forall i, j | 0 <= i < j < |part| ensures part[i] == whole[picks[i]] && part[j] == whole[picks[j]] && picks[i] < picks[j] {
    }
  }

  /** So the keys of a subqueue are in the map's order too. */
  lemma SubqueueInKeyOrder(config: Config, keys: set<Key>, c: nat)
    requires config.Valid() && c < |SubqueueKeys(config, Ascending(keys))|
    ensures InKeyOrder(SubqueueKeys(config, Ascending(keys))[c])
  {
    hide PickedFrom, InKeyOrder, SubqueueKeys, Ascending;
    AscendingInOrder(keys);
    var picks := SubqueueKeysInOrder(config, Ascending(keys), c);
    PickedInKeyOrder(Ascending(keys), SubqueueKeys(config, Ascending(keys))[c], picks);
  }

  /** The attestations a subqueue processes. */
  function QueueOf(m: map<Key, Attestation>, keys: seq<Key>): (queue: seq<Attestation>)
    ensures |queue| == |keys|
    ensures forall i :: 0 <= i < |keys| && keys[i] in m ==> queue[i] == m[keys[i]]
  {
    seq(|keys|, i requires 0 <= i < |keys| => if keys[i] in m then m[keys[i]] else Attestation([], keys[i].1, 0))
  }

  /** The subqueues a batch of kept attestations is split into. */
  ghost function Subqueues(config: Config, batch: seq<Attestation>): (queues: seq<seq<Attestation>>)
    requires config.Valid()
  {
    var m := Deduplicated(batch);
    var keys := SubqueueKeys(config, Ascending(m.Keys));
    seq(|keys|, c requires 0 <= c < |keys| => QueueOf(m, keys[c]))
  }

  /** Subqueues only contain attestations of the batch. */
  lemma SubqueuesFromBatch(config: Config, batch: seq<Attestation>, c: nat, a: Attestation)
    requires config.Valid() && c < |Subqueues(config, batch)| && a in Subqueues(config, batch)[c]
    ensures a in batch
  {
    var m := Deduplicated(batch);
    var keys := SubqueueKeys(config, Ascending(m.Keys));
    var i :| 0 <= i < |keys[c]| && Subqueues(config, batch)[c][i] == a;
    var key := keys[c][i];
    InSubqueue(config, Ascending(m.Keys), c, key);
    InAscending(m.Keys, key);
    DeduplicatedAt(batch, key);
  }

  /** Every vote of the batch is processed: its data reaches the subqueue of its validator. */
  lemma SubqueuesCoverBatch(config: Config, batch: seq<Attestation>, v: Validator, a: Attestation) returns (c: nat, b: Attestation)
    requires config.Valid() && a in batch && v in a.indices
    ensures c < |Subqueues(config, batch)| && b in Subqueues(config, batch)[c]
    ensures config.InChunk(v, c) && v in b.indices && b.data == a.data
  {
    var key: Key := (v, a.data);
    var m := Deduplicated(batch);
    assert Attests(a, key);
    DeduplicatedAt(batch, key);
    InAscending(m.Keys, key);
    c := config.ValidatorChunkIndex(v);
    var keys := SubqueueKeys(config, Ascending(m.Keys));
    InSubqueue(config, Ascending(m.Keys), c, key);
    var i :| 0 <= i < |keys[c]| && keys[c][i] == key;
    b := m[key];
    assert Subqueues(config, batch)[c][i] == b;
  }

  // ---- The batch itself ----

  /** The attestations behind the records of a map. */
  ghost function Indexed(attesters: map<Key, IndexedAttesterRecord>): map<Key, Attestation> {
    map key | key in attesters :: attesters[key].indexed
  }

  class AttestationBatch {
    var attesters: map<Key, IndexedAttesterRecord>
    /** Every queued record; the references are weak, so a record lives only as long as `attesters` holds it. */
    var attestations: seq<IndexedAttesterRecord>

    constructor ()
      ensures attesters == map[] && attestations == []
    {
      attesters := map[];
      attestations := [];
    }

    method Queue(record: IndexedAttesterRecord)
      modifies this
      ensures attestations == old(attestations) + [record]
      ensures Indexed(attesters) == QueueAll(Indexed(old(attesters)), record.indexed.indices, record.indexed)
      ensures forall key :: key in attesters ==>
                attesters[key] == record || (key in old(attesters) && attesters[key] == old(attesters)[key])
    {
      attestations := attestations + [record];
      var vs := record.indexed.indices;
      for i := 0 to |vs|
        invariant attestations == old(attestations) + [record]
        invariant Indexed(attesters) == QueueAll(Indexed(old(attesters)), vs[..i], record.indexed)
        invariant forall key :: key in attesters ==>
                    attesters[key] == record || (key in old(attesters) && attesters[key] == old(attesters)[key])
      {
        var key := (vs[i], record.indexed.data);
        assert vs[..i + 1][..i] == vs[..i] && vs[..i + 1][i] == vs[i];
        if key in attesters {
          if |attesters[key].indexed.indices| < |record.indexed.indices| {
            attesters := attesters[key := record];
          }
        } else {
          attesters := attesters[key := record];
        }
      }
      assert vs[..|vs|] == vs;
    }

    /** A weak reference can be upgraded exactly when the map still holds the record. */
    predicate Alive(record: IndexedAttesterRecord)
      reads this
    {
      exists key :: key in attesters && attesters[key] == record
    }
  }

  /** The subqueues hold the records of these keys, position by position. */
  ghost predicate Mirrors(subqueues: seq<seq<IndexedAttesterRecord>>, keys: seq<seq<Key>>, attesters: map<Key, IndexedAttesterRecord>) {
    && |subqueues| == |keys|
    && (forall c :: 0 <= c < |keys| ==> |subqueues[c]| == |keys[c]|)
    && (forall c, i :: 0 <= c < |keys| && 0 <= i < |keys[c]| ==>
          keys[c][i] in attesters && subqueues[c][i] == attesters[keys[c][i]])
  }

  lemma MirrorsStep(subqueues: seq<seq<IndexedAttesterRecord>>, keys: seq<seq<Key>>, attesters: map<Key, IndexedAttesterRecord>, c: nat, key: Key)
    requires Mirrors(subqueues, keys, attesters) && key in attesters
    ensures Mirrors(Enqueue(subqueues, c, attesters[key]), Enqueue(keys, c, key), attesters)
  {
  }

  lemma MirrorsNothing(config: Config, attesters: map<Key, IndexedAttesterRecord>)
    requires config.Valid()
    ensures Mirrors([], SubqueueKeys(config, []), attesters)
  {
  }

  lemma AscendingNothing()
    ensures Ascending({}) == []
  {
  }

  lemma SubqueueKeysAppend(config: Config, keys: seq<Key>, key: Key)
    requires config.Valid()
    ensures SubqueueKeys(config, keys + [key]) == Enqueue(SubqueueKeys(config, keys), config.ValidatorChunkIndex(key.0), key)
  {
    assert (keys + [key])[..|keys|] == keys;
  }

  /** Resize if needed, then push. */
  method PushTo<T>(queues: seq<seq<T>>, c: nat, x: T) returns (r: seq<seq<T>>)
    ensures r == Enqueue(queues, c, x)
  {
    r := queues;
    if c >= |r| {
      r := r + seq(c + 1 - |r|, _ => []);
    }
    r := r[c := r[c] + [x]];
  }

  /** Split the records by validator chunk, taking the keys in ascending order. */
  method GroupByValidatorChunkIndex(config: Config, attesters: map<Key, IndexedAttesterRecord>)
    returns (subqueues: seq<seq<IndexedAttesterRecord>>)
    requires config.Valid()
    ensures Mirrors(subqueues, SubqueueKeys(config, Ascending(attesters.Keys)), attesters)
    ensures forall keys :: keys in SubqueueKeys(config, Ascending(attesters.Keys)) ==> InKeyOrder(keys)
  {
    hide Mirrors, SubqueueKeys, Ascending, Enqueue, InKeyOrder;
    subqueues := [];
    MirrorsNothing(config, attesters);
    var remaining := attesters.Keys;
    ghost var done: seq<Key> := [];
    while remaining != {}
      invariant remaining <= attesters.Keys
      invariant done + Ascending(remaining) == Ascending(attesters.Keys)
      invariant Mirrors(subqueues, SubqueueKeys(config, done), attesters)
      decreases remaining
    {
      FirstKeyExists(remaining);
      var key :| key in remaining && forall k :: k in remaining ==> k == key || KeyBefore(key, k);
      var c := config.ValidatorChunkIndex(key.0);
      MirrorsStep(subqueues, SubqueueKeys(config, done), attesters, c, key);
      SubqueueKeysAppend(config, done, key);
      AscendingStep(remaining, key);
      subqueues := PushTo(subqueues, c, attesters[key]);
      done := done + [key];
      remaining := remaining - {key};
    }
    assert done + Ascending({}) == done by { AscendingNothing(); }
    ghost var all := SubqueueKeys(config, Ascending(attesters.Keys));
    forall keys | keys in all ensures InKeyOrder(keys) {
      var c :| 0 <= c < |all| && all[c] == keys;
      SubqueueInKeyOrder(config, attesters.Keys, c);
    }
  }
}
