/** Which attestation of a slashing is the older one, over whole runs. */
module EvidenceOrder {
  import opened Types
  import opened TargetBounds
  import opened Configuration
  import opened ReferenceHistory
  import opened Detection
  import opened WorkOrder
  import opened AttestationBatches
  import opened Protocol
  import opened Runs

  /** A slashing of one of the `kept` attestations with one of the `known` ones, the known one being the older. */
  ghost predicate PairsUp(known: set<Attestation>, kept: set<Attestation>, slashing: AttesterSlashing) {
    exists older, newer :: older in known && newer in kept && slashing == EvidenceOf(older, newer)
  }

  /** Records are known attestations under their own target, and all evidence but `before` pairs known with kept. */
  ghost predicate Confined(h: History, known: set<Attestation>, kept: set<Attestation>, before: set<AttesterSlashing>) {
    && (forall key :: key in h.records ==> h.records[key] in known && h.records[key].data.target == key.1)
    && (forall slashing :: slashing in h.emitted ==> slashing in before || PairsUp(known, kept, slashing))
  }

  lemma RecordConfined(h: History, known: set<Attestation>, kept: set<Attestation>, before: set<AttesterSlashing>,
                       v: Validator, a: Attestation)
    requires Confined(h, known, kept, before) && a in kept && kept <= known
    ensures Confined(h.CheckRecord(v, a), known, kept, before)
  {
    RecordEvidence(h, v, a);
    var key := (v, a.data.target);
    if key in h.records && h.records[key].data != a.data {
      assert EvidenceOf(h.records[key], a) == AttesterSlashing(h.records[key], a);
    }
  }

  lemma ArrayConfined(h: History, known: set<Attestation>, kept: set<Attestation>, before: set<AttesterSlashing>,
                      kind: Kind, v: Validator, a: Attestation)
    requires Confined(h, known, kept, before) && a in kept && kept <= known
    ensures Confined(h.CheckArray(kind, v, a), known, kept, before)
  {
    var status := h.ArrayStatus(kind, v, a);
    if status.SurroundsExisting? || status.SurroundedByExisting? {
      assert status.Justified(a) && status.existing in known;
      assert PairsUp(known, kept, EvidenceOf(status.existing, a));
    }
  }

  lemma {:induction false} RecordsConfined(h: History, known: set<Attestation>, kept: set<Attestation>, before: set<AttesterSlashing>,
                                           work: Work)
    requires Confined(h, known, kept, before) && kept <= known
    requires forall v, a :: (v, a) in work ==> a in kept
    ensures Confined(h.CheckRecords(work), known, kept, before)
  {
    hide Confined, History.CheckRecord;
    if work != [] {
      var (v, a) := work[|work| - 1];
      assert (v, a) in work;
      RecordsConfined(h, known, kept, before, work[..|work| - 1]);
      RecordConfined(h.CheckRecords(work[..|work| - 1]), known, kept, before, v, a);
    }
  }

  lemma {:induction false} ArraysConfined(h: History, known: set<Attestation>, kept: set<Attestation>, before: set<AttesterSlashing>,
                                          kind: Kind, work: Work)
    requires Confined(h, known, kept, before) && kept <= known
    requires forall v, a :: (v, a) in work ==> a in kept
    ensures Confined(h.CheckArrays(kind, work), known, kept, before)
  {
    hide Confined, History.CheckArray;
    if work != [] {
      var (v, a) := work[|work| - 1];
      assert (v, a) in work;
      ArraysConfined(h, known, kept, before, kind, work[..|work| - 1]);
      ArrayConfined(h.CheckArrays(kind, work[..|work| - 1]), known, kept, before, kind, v, a);
    }
  }

  lemma {:induction false} SubqueuesConfined(config: Config, h: History, known: set<Attestation>, batch: seq<Attestation>,
                                             before: set<AttesterSlashing>, n: nat)
    requires config.Valid() && n <= |Subqueues(config, batch)|
    requires var kept := set a | a in batch; Confined(h, known, kept, before) && kept <= known
    ensures Confined(ProcessSubqueues(config, h, Subqueues(config, batch), n), known, (set a | a in batch), before)
  {
    hide Confined, History.CheckRecords, History.CheckArrays, QueueWork, ArrayOrder, Subqueues;
    if n != 0 {
      var kept := set a | a in batch;
      var queue := Subqueues(config, batch)[n - 1];
      SubqueuesConfined(config, h, known, batch, before, n - 1);
      var mid := ProcessSubqueues(config, h, Subqueues(config, batch), n - 1);
      var w1, w2 := QueueWork(config, queue, n - 1), QueueWork(config, ArrayOrder(config, queue), n - 1);
      forall v: Validator, a: Attestation | (v, a) in w1 ensures a in kept {
        InQueueWork(config, queue, n - 1, v, a);
        SubqueuesFromBatch(config, batch, n - 1, a);
      }
      ArrayWorkSameVotes(config, queue, n - 1);
      RecordsConfined(mid, known, kept, before, w1);
      ArraysConfined(mid.CheckRecords(w1), known, kept, before, Min, w2);
      ArraysConfined(mid.CheckRecords(w1).CheckArrays(Min, w2), known, kept, before, Max, w2);
    }
  }

  /** New evidence always involves an attestation kept by this processing run, as the newer one. */
  lemma NewEvidence(config: Config, s: SlasherState, current: Epoch, late: seq<Attestation>, commits: bool, slashing: AttesterSlashing)
    requires config.Valid() && StateValid(s)
    requires slashing in s.Step(config, Process(current, late, commits)).hist.emitted && slashing !in s.hist.emitted
    ensures var kept := set a | a in Select(config, s.queue, current, Keep); PairsUp(s.seen + kept, kept, slashing)
  {
    hide Select, Subqueues, ProcessSubqueues;
    var batch := Select(config, s.queue, current, Keep);
    var kept := set a | a in batch;
    forall key: (Validator, Epoch) | key in s.hist.records
      ensures s.hist.records[key] in s.seen && s.hist.records[key].data.target == key.1
    {
      assert s.hist.RecordFits(key.0, key.1);
    }
    SubqueuesConfined(config, s.hist, s.seen + kept, batch, s.hist.emitted, |Subqueues(config, batch)|);
  }

  /** The slashing pairs an attestation kept by run `i` with one kept by run `j`, the former being the older. */
  ghost predicate PairsRuns(config: Config, events: seq<Event>, slashing: AttesterSlashing, i: nat, j: nat, older: Attestation, newer: Attestation)
    requires config.Valid()
  {
    KeptBy(config, events, i, older) && KeptBy(config, events, j, newer) && i <= j && slashing == EvidenceOf(older, newer)
  }

  /**
   * In every run, an attestation of a later processing run stands first in a slashing only if it
   * surrounds the other one; a double vote names the attestation kept first.
   */
  lemma {:induction false} OlderFirst(config: Config, events: seq<Event>, slashing: AttesterSlashing)
    returns (i: nat, j: nat, older: Attestation, newer: Attestation)
    requires config.Valid() && slashing in Run(config, events).hist.emitted
    ensures PairsRuns(config, events, slashing, i, j, older, newer)
  {
    hide SlasherState.Step, StateValid, KeptBy;
    assert events != [];
    var n := |events| - 1;
    var init, last := events[..n], events[n];
    var s := Run(config, init);
    if slashing in s.hist.emitted {
      i, j, older, newer := OlderFirst(config, init, slashing);
      KeptInPrefix(config, events, i, older);
      KeptInPrefix(config, events, j, newer);
    } else {
      RunValid(config, init);
      OnlyProcessEmits(config, s, last, slashing);
      NewEvidence(config, s, last.current, last.late, last.commits, slashing);
      var kept := set a | a in Select(config, s.queue, last.current, Keep);
      older, newer :| older in s.seen + kept && newer in kept && slashing == EvidenceOf(older, newer);
      j := n;
      KeptNow(config, events, newer);
      if older in kept {
        i := n;
        KeptNow(config, events, older);
      } else {
        KeptAndCommitted(config, init, older);
        i :| KeptBy(config, init, i, older);
        KeptInPrefix(config, events, i, older);
      }
    }
  }

  lemma OnlyProcessEmits(config: Config, s: SlasherState, event: Event, slashing: AttesterSlashing)
    requires config.Valid() && slashing in s.Step(config, event).hist.emitted && slashing !in s.hist.emitted
    ensures event.Process?
  {
  }

  lemma KeptInPrefix(config: Config, events: seq<Event>, i: nat, a: Attestation)
    requires config.Valid() && events != [] && KeptBy(config, events[..|events| - 1], i, a)
    ensures KeptBy(config, events, i, a) && i < |events| - 1
  {
    KeptEarlier(config, events, i, a);
  }

  lemma KeptNow(config: Config, events: seq<Event>, a: Attestation)
    requires config.Valid() && events != [] && events[|events| - 1].Process?
    requires a in Select(config, Run(config, events[..|events| - 1]).queue, events[|events| - 1].current, Keep)
    ensures KeptBy(config, events, |events| - 1, a)
  {
    InSelect(config, Run(config, events[..|events| - 1]).queue, events[|events| - 1].current, Keep, a);
  }

  // ---- Two attestations, one after the other ----

  /** Accept and process one attestation, then the other. */
  function OneByOne(a: Attestation, epoch: Epoch, b: Attestation, epoch': Epoch): seq<Event> {
    [Accept(a), Process(epoch, [], true), Accept(b), Process(epoch', [], true)]
  }

  lemma OneByOneQueues(config: Config, a: Attestation, epoch: Epoch, b: Attestation, epoch': Epoch)
    requires config.Valid() && FateOf(config, a.data, epoch) == Keep
    ensures var events := OneByOne(a, epoch, b, epoch');
            Run(config, events[..1]).queue == [a] && Run(config, events[..3]).queue == [b]
  {
    hide ProcessSubqueues, Subqueues, ArrayLog;
    var events := OneByOne(a, epoch, b, epoch');
    assert events[..1][..0] == [] && events[..2][..1] == events[..1] && events[..3][..2] == events[..2];
    assert Run(config, events[..1]).queue == [] + [a];
    assert Select(config, [a], epoch, Defer) == [] by { assert [a][..0] == []; }
    assert Run(config, events[..2]).queue == [];
    assert Run(config, events[..3]).queue == [] + [b];
  }

  lemma OneByOneKeeps(config: Config, a: Attestation, epoch: Epoch, b: Attestation, epoch': Epoch, i: nat, x: Attestation)
    requires config.Valid() && FateOf(config, a.data, epoch) == Keep && FateOf(config, b.data, epoch') == Keep
    ensures KeptBy(config, OneByOne(a, epoch, b, epoch'), i, x) <==> (i == 1 && x == a) || (i == 3 && x == b)
  {
    hide Run;
    OneByOneQueues(config, a, epoch, b, epoch');
  }

  /**
   * A fresh slasher that is given two attestations one after the other hands over exactly the
   * evidence of that pair, the first one first unless the second surrounds it, and nothing if
   * they are not slashable or have no validator in common.
   */
  lemma PairOneByOne(config: Config, a: Attestation, epoch: Epoch, b: Attestation, epoch': Epoch)
    requires config.Valid() && FateOf(config, a.data, epoch) == Keep && FateOf(config, b.data, epoch') == Keep
    ensures var evidence := EvidenceOf(a, b);
            Run(config, OneByOne(a, epoch, b, epoch')).hist.emitted ==
            if IsSlashable(evidence.attestation1, evidence.attestation2) && exists v :: evidence.Implicates(v) then {evidence} else {}
  {
    hide Run, KeptBy, FateOf;
    var events, evidence := OneByOne(a, epoch, b, epoch'), EvidenceOf(a, b);
    var s := Run(config, events);
    forall slashing | slashing in s.hist.emitted
      ensures slashing == evidence && IsSlashable(slashing.attestation1, slashing.attestation2) && exists v :: slashing.Implicates(v)
    {
      EvidenceIsValid(config, events, slashing);
      var i, j, older, newer := OlderFirst(config, events, slashing);
      OneByOneKeeps(config, a, epoch, b, epoch', i, older);
      OneByOneKeeps(config, a, epoch, b, epoch', j, newer);
    }
    if IsSlashable(evidence.attestation1, evidence.attestation2) && exists v :: evidence.Implicates(v) {
      var v :| evidence.Implicates(v);
      OneByOneKeeps(config, a, epoch, b, epoch', 1, a);
      OneByOneKeeps(config, a, epoch, b, epoch', 3, b);
      KeptAndCommitted(config, events, a);
      KeptAndCommitted(config, events, b);
      Completeness(config, events, v);
    }
  }
}
