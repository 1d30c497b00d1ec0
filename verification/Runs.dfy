/** Theorems about whole runs of the slasher. */
module Runs {
  import opened Types
  import opened TargetBounds
  import opened Configuration
  import opened ReferenceHistory
  import opened Detection
  import opened WorkOrder
  import opened AttestationBatches
  import opened Protocol
  import opened Subsequences

  /** The specification: some two of these attestations, both by `v`, are slashable. */
  ghost predicate Guilty(attestations: set<Attestation>, v: Validator) {
    exists a, b :: a in attestations && b in attestations && v in a.indices && v in b.indices && IsSlashable(a, b)
  }

  /** The log is about committed attestations, and covers each of their votes. */
  ghost predicate LogFits(s: SlasherState) {
    && (forall v, a :: (v, a) in s.log ==> a in s.committed && v in a.indices)
    && (forall v, a :: a in s.committed && v in a.indices ==> Logged(s.log, v, a.data))
  }

  ghost predicate Logged(log: Work, v: Validator, data: AttestationData) {
    exists b :: (v, b) in log && b.data == data
  }

  ghost predicate StateValid(s: SlasherState) {
    && s.hist.Sound(s.seen)
    && Complete(s.hist, s.log)
    && s.committed <= s.seen
    && LogFits(s)
  }

  // ---- One processing run ----

  lemma {:induction false} InSelect(config: Config, queue: seq<Attestation>, current: Epoch, fate: Fate, a: Attestation)
    ensures a in Select(config, queue, current, fate) <==> a in queue && FateOf(config, a.data, current) == fate
  {
    if queue != [] {
      assert queue == queue[..|queue| - 1] + [queue[|queue| - 1]];
      InSelect(config, queue[..|queue| - 1], current, fate, a);
    }
  }

  /** Validation keeps the queue's order, and takes each position of the given fate exactly once. */
  lemma {:induction false} SelectInOrder(config: Config, queue: seq<Attestation>, current: Epoch, fate: Fate) returns (picks: seq<nat>)
    ensures PickedFrom(queue, Select(config, queue, current, fate), picks)
    ensures forall k :: 0 <= k < |queue| ==> (k in picks <==> FateOf(config, queue[k].data, current) == fate)
  {
    picks := [];
    if queue != [] {
      var init, last := queue[..|queue| - 1], queue[|queue| - 1];
      picks := SelectInOrder(config, init, current, fate);
      assert queue == init + [last];
      PickNext(init, Select(config, init, current, fate), picks, last);
      if FateOf(config, last.data, current) == fate {
        picks := picks + [|init|];
      }
    }
  }

  /** Everything in a subqueue of kept attestations can be processed. */
  lemma SubqueueProcessable(config: Config, queue: seq<Attestation>, current: Epoch, seen: set<Attestation>, c: nat)
    requires config.Valid()
    requires var kept := Select(config, queue, current, Keep);
             (forall a :: a in kept ==> a in seen) && c < |Subqueues(config, kept)|
    ensures AllProcessable(seen, QueueWork(config, Subqueues(config, Select(config, queue, current, Keep))[c], c))
  {
    var kept := Select(config, queue, current, Keep);
    var subqueue := Subqueues(config, kept)[c];
    forall v: Validator, a: Attestation | (v, a) in QueueWork(config, subqueue, c) ensures Processable(seen, v, a) {
      InQueueWork(config, subqueue, c, v, a);
      SubqueuesFromBatch(config, kept, c, a);
      InSelect(config, queue, current, Keep, a);
    }
  }

  /** Every subqueue keeps the reference sound and complete. */
  lemma {:induction false} ProcessKeeps(config: Config, h: History, seen: set<Attestation>, log: Work, queue: seq<Attestation>, current: Epoch, n: nat)
    requires config.Valid() && h.Sound(seen) && Complete(h, log)
    requires var kept := Select(config, queue, current, Keep);
             (forall a :: a in kept ==> a in seen) && n <= |Subqueues(config, kept)|
    ensures var queues := Subqueues(config, Select(config, queue, current, Keep));
            var h' := ProcessSubqueues(config, h, queues, n);
            h'.Sound(seen) && Extends(h, h') && Complete(h', log + ArrayLog(config, queues, n))
  {
    hide History.Sound, Complete, AllProcessable, History.CheckBatch, QueueWork, ArrayOrder, Subqueues, Select;
    var queues := Subqueues(config, Select(config, queue, current, Keep));
    if n == 0 {
      assert log + ArrayLog(config, queues, n) == log;
    } else {
      var mid := ProcessSubqueues(config, h, queues, n - 1);
      var sofar := log + ArrayLog(config, queues, n - 1);
      var recordWork, arrayWork := QueueWork(config, queues[n - 1], n - 1), QueueWork(config, ArrayOrder(config, queues[n - 1]), n - 1);
      ProcessKeeps(config, h, seen, log, queue, current, n - 1);
      SubqueueProcessable(config, queue, current, seen, n - 1);
      ArrayWorkSameVotes(config, queues[n - 1], n - 1);
      CheckBatchList(mid, seen, sofar, recordWork, arrayWork);
      assert sofar + arrayWork == log + ArrayLog(config, queues, n);
    }
  }

  lemma SoundGrows(h: History, seen: set<Attestation>, seen': set<Attestation>)
    requires h.Sound(seen) && seen <= seen'
    ensures h.Sound(seen')
  {
  }

  /** Keeping only the evidence of an aborted run. */
  lemma RollbackKeeps(h: History, after: History, seen: set<Attestation>, log: Work)
    requires h.Sound(seen) && after.Sound(seen) && Complete(h, log) && h.emitted <= after.emitted
    ensures h.(emitted := after.emitted).Sound(seen) && Complete(h.(emitted := after.emitted), log)
  {
    EvidenceKeepsSound(h, after, seen);
    ExtendsKeeps(h, h.(emitted := after.emitted));
    assert forall kind, w :: h.(emitted := after.emitted).Accepted(kind, w) == h.Accepted(kind, w);
  }

  // ---- Evidence only grows ----

  lemma {:induction false} CheckRecordsGrow(h: History, work: Work)
    ensures h.emitted <= h.CheckRecords(work).emitted
  {
    if work != [] {
      CheckRecordsGrow(h, work[..|work| - 1]);
    }
  }

  lemma {:induction false} CheckArraysGrow(h: History, kind: Kind, work: Work)
    ensures h.emitted <= h.CheckArrays(kind, work).emitted
  {
    if work != [] {
      CheckArraysGrow(h, kind, work[..|work| - 1]);
    }
  }

  /** A processing run only adds evidence. */
  lemma {:induction false} ProcessGrows(config: Config, h: History, queues: seq<seq<Attestation>>, n: nat)
    requires config.Valid() && n <= |queues|
    ensures h.emitted <= ProcessSubqueues(config, h, queues, n).emitted
  {
    if n != 0 {
      ProcessGrows(config, h, queues, n - 1);
      var mid := ProcessSubqueues(config, h, queues, n - 1);
      var w1, w2 := QueueWork(config, queues[n - 1], n - 1), QueueWork(config, ArrayOrder(config, queues[n - 1]), n - 1);
      CheckRecordsGrow(mid, w1);
      CheckArraysGrow(mid.CheckRecords(w1), Min, w2);
      CheckArraysGrow(mid.CheckRecords(w1).CheckArrays(Min, w2), Max, w2);
    }
  }

  // ---- What the log covers ----

  lemma {:induction false} InArrayLog(config: Config, queues: seq<seq<Attestation>>, n: nat, c: nat, v: Validator, a: Attestation)
    requires config.Valid() && c < n <= |queues|
    requires a in queues[c] && v in a.indices && config.InChunk(v, c)
    ensures (v, a) in ArrayLog(config, queues, n)
  {
    if c == n - 1 {
      InQueueWork(config, queues[c], c, v, a);
      ArrayWorkSameVotes(config, queues[c], c);
    } else {
      InArrayLog(config, queues, n - 1, c, v, a);
    }
  }

  lemma {:induction false} ArrayLogFrom(config: Config, queues: seq<seq<Attestation>>, n: nat, v: Validator, a: Attestation) returns (c: nat)
    requires config.Valid() && n <= |queues| && (v, a) in ArrayLog(config, queues, n)
    ensures c < n && a in queues[c] && v in a.indices
  {
    var order := ArrayOrder(config, queues[n - 1]);
    if (v, a) in QueueWork(config, order, n - 1) {
      c := n - 1;
      InQueueWork(config, order, n - 1, v, a);
      InBySource(config, queues[n - 1], config.Width(), a);
    } else {
      c := ArrayLogFrom(config, queues, n - 1, v, a);
    }
  }

  lemma CommitFitsLog(config: Config, s: SlasherState, kept: seq<Attestation>)
    requires config.Valid() && LogFits(s)
    ensures var queues := Subqueues(config, kept);
            LogFits(s.(committed := s.committed + (set a | a in kept), log := s.log + ArrayLog(config, queues, |queues|)))
  {
    var queues := Subqueues(config, kept);
    var added := ArrayLog(config, queues, |queues|);
    var s' := s.(committed := s.committed + (set a | a in kept), log := s.log + added);
    forall v: Validator, a: Attestation | (v, a) in s'.log ensures a in s'.committed && v in a.indices {
      if (v, a) in added {
        var c := ArrayLogFrom(config, queues, |queues|, v, a);
        SubqueuesFromBatch(config, kept, c, a);
      }
    }
    forall v: Validator, a: Attestation | a in s'.committed && v in a.indices ensures Logged(s'.log, v, a.data) {
      if a in kept {
        var c, b := SubqueuesCoverBatch(config, kept, v, a);
        InArrayLog(config, queues, |queues|, c, v, b);
        assert (v, b) in s'.log;
      } else {
        var b :| (v, b) in s.log && b.data == a.data;
        assert (v, b) in s'.log;
      }
    }
  }

  // ---- Whole runs ----

  lemma ProcessStep(config: Config, s: SlasherState, current: Epoch, late: seq<Attestation>, commits: bool)
    requires config.Valid() && StateValid(s)
    ensures StateValid(s.Step(config, Process(current, late, commits)))
    ensures s.hist.emitted <= s.Step(config, Process(current, late, commits)).hist.emitted
  {
    var kept := Select(config, s.queue, current, Keep);
    var queues := Subqueues(config, kept);
    var seen := s.seen + (set a | a in kept);
    SoundGrows(s.hist, s.seen, seen);
    ProcessKeeps(config, s.hist, seen, s.log, s.queue, current, |queues|);
    var after := ProcessSubqueues(config, s.hist, queues, |queues|);
    if commits {
      CommitFitsLog(config, s, kept);
    } else {
      RollbackKeeps(s.hist, after, seen, s.log);
    }
  }

  lemma {:induction false} RunValid(config: Config, events: seq<Event>)
    requires config.Valid()
    ensures StateValid(Run(config, events))
  {
    if events != [] {
      var init, last := events[..|events| - 1], events[|events| - 1];
      RunValid(config, init);
      if last.Process? {
        ProcessStep(config, Run(config, init), last.current, last.late, last.commits);
      }
    }
  }

  /**
   * Completeness: whatever the arrival order, the batch boundaries and the interleaved prunes,
   * a validator whose committed votes contain a slashable pair is implicated by an emitted slashing.
   */
  lemma Completeness(config: Config, events: seq<Event>, v: Validator)
    requires config.Valid() && Guilty(Run(config, events).committed, v)
    ensures Run(config, events).hist.Caught(v)
  {
    var s := Run(config, events);
    RunValid(config, events);
    var a, b :| a in s.committed && b in s.committed && v in a.indices && v in b.indices && IsSlashable(a, b);
    assert Logged(s.log, v, a.data) && Logged(s.log, v, b.data);
    var a' :| (v, a') in s.log && a'.data == a.data;
    var b' :| (v, b') in s.log && b'.data == b.data;
    PairIsCaught(s.hist, s.seen, s.log, v, a', b');
  }

  /** Soundness: a validator implicated by any emitted slashing has a slashable pair among the kept attestations. */
  lemma Soundness(config: Config, events: seq<Event>, v: Validator)
    requires config.Valid() && Run(config, events).hist.Caught(v)
    ensures Guilty(Run(config, events).seen, v)
  {
    RunValid(config, events);
    var s := Run(config, events);
    var slashing :| slashing in s.hist.emitted && slashing.Implicates(v);
    assert slashing.attestation1 in s.seen && slashing.attestation2 in s.seen;
  }

  /** Every emitted slashing is valid evidence against somebody, in its argument order. */
  lemma EvidenceIsValid(config: Config, events: seq<Event>, slashing: AttesterSlashing)
    requires config.Valid() && slashing in Run(config, events).hist.emitted
    ensures IsSlashable(slashing.attestation1, slashing.attestation2)
    ensures exists v :: slashing.Implicates(v)
  {
    RunValid(config, events);
  }

  // ---- Exactness ----

  predicate AllCommit(events: seq<Event>) {
    forall i :: 0 <= i < |events| && events[i].Process? ==> events[i].commits
  }

  lemma {:induction false} AllCommitted(config: Config, events: seq<Event>)
    requires config.Valid() && AllCommit(events)
    ensures Run(config, events).committed == Run(config, events).seen
  {
    if events != [] {
      var init := events[..|events| - 1];
      forall i | 0 <= i < |init| && init[i].Process? ensures init[i].commits {
        assert init[i] == events[i];
      }
      AllCommitted(config, init);
    }
  }

  /** Without failed commits the slasher finds exactly the guilty: what comparing all kept votes pairwise would find. */
  lemma Exactness(config: Config, events: seq<Event>, v: Validator)
    requires config.Valid() && AllCommit(events)
    ensures Run(config, events).hist.Caught(v) <==> Guilty(Run(config, events).seen, v)
  {
    AllCommitted(config, events);
    if Guilty(Run(config, events).seen, v) {
      Completeness(config, events, v);
    }
    if Run(config, events).hist.Caught(v) {
      Soundness(config, events, v);
    }
  }

  /**
   * The verdict depends on the set of kept attestations only: two slashers that kept the same
   * attestations catch the same validators, whatever their chunk sizes and history lengths, the
   * order of arrival, the batches and the prunes.
   */
  lemma VerdictDependsOnVotesOnly(config1: Config, events1: seq<Event>, config2: Config, events2: seq<Event>, v: Validator)
    requires config1.Valid() && config2.Valid() && AllCommit(events1) && AllCommit(events2)
    requires Run(config1, events1).seen == Run(config2, events2).seen
    ensures Run(config1, events1).hist.Caught(v) <==> Run(config2, events2).hist.Caught(v)
  {
    Exactness(config1, events1, v);
    Exactness(config2, events2, v);
  }

  // ---- Pruning ----

  function WithoutPrunes(events: seq<Event>): seq<Event> {
    if events == [] then []
    else
      var rest := WithoutPrunes(events[..|events| - 1]);
      var last := events[|events| - 1];
      if last.Prune? then rest else rest + [last]
  }

  /** What is left of a run: every event but the prunes, each once, in order. */
  lemma {:induction false} WithoutPrunesInOrder(events: seq<Event>) returns (picks: seq<nat>)
    ensures PickedFrom(events, WithoutPrunes(events), picks)
    ensures forall k :: 0 <= k < |events| ==> (k in picks <==> !events[k].Prune?)
    ensures forall event :: event in WithoutPrunes(events) <==> event in events && !event.Prune?
  {
    picks := [];
    if events != [] {
      var init, last := events[..|events| - 1], events[|events| - 1];
      picks := WithoutPrunesInOrder(init);
      assert events == init + [last];
      PickNext(init, WithoutPrunes(init), picks, last);
      if !last.Prune? {
        picks := picks + [|init|];
      }
    }
  }

  lemma WithoutPrunesCount(events: seq<Event>, event: Event)
    ensures multiset(WithoutPrunes(events))[event] == if event.Prune? then 0 else multiset(events)[event]
  {
    var picks := WithoutPrunesInOrder(events);
    if !event.Prune? {
      PickedCount(events, WithoutPrunes(events), picks, event);
    }
  }

  lemma {:induction false} WithoutPrunesConcat(x: seq<Event>, y: seq<Event>)
    ensures WithoutPrunes(x + y) == WithoutPrunes(x) + WithoutPrunes(y)
  {
    if y == [] {
      assert x + y == x;
    } else {
      assert (x + y)[..|x + y| - 1] == x + y[..|y| - 1];
      WithoutPrunesConcat(x, y[..|y| - 1]);
    }
  }

  /** Pruning is invisible: removing every prune from a run changes neither the slashings nor anything but the clock. */
  lemma {:induction false} PruneInvisible(config: Config, events: seq<Event>)
    requires config.Valid()
    ensures Run(config, WithoutPrunes(events)) == Run(config, events).(now := Run(config, WithoutPrunes(events)).now)
    ensures Run(config, WithoutPrunes(events)).hist.emitted == Run(config, events).hist.emitted
    ensures Ordered(config, events) ==>
              Ordered(config, WithoutPrunes(events)) && Run(config, WithoutPrunes(events)).now <= Run(config, events).now
  {
    if events != [] {
      var init, last := events[..|events| - 1], events[|events| - 1];
      PruneInvisible(config, init);
      if !last.Prune? {
        var rest := WithoutPrunes(init);
        assert (rest + [last])[..|rest|] == rest;
      }
    }
  }

  // ---- Commits and the clock ----

  /** A failed commit takes back everything but the evidence, which is what a successful one gives. */
  lemma AbortKeepsEvidence(config: Config, s: SlasherState, current: Epoch, late: seq<Attestation>)
    requires config.Valid()
    ensures var aborted, done := s.Step(config, Process(current, late, false)), s.Step(config, Process(current, late, true));
            && aborted.hist.emitted == done.hist.emitted
            && aborted.hist.records == s.hist.records && aborted.hist.accepted == s.hist.accepted
            && aborted.committed == s.committed
            && aborted.queue == done.queue && aborted.seen == done.seen
  {
  }

  /** The attestations that processing run `i` of a run of the slasher keeps. */
  ghost predicate KeptBy(config: Config, events: seq<Event>, i: nat, a: Attestation)
    requires config.Valid()
  {
    && i < |events| && events[i].Process?
    && a in Run(config, events[..i]).queue && FateOf(config, a.data, events[i].current) == Keep
  }

  lemma StepKeeps(config: Config, s: SlasherState, event: Event, a: Attestation)
    requires config.Valid()
    ensures a in s.Step(config, event).seen <==>
              a in s.seen || (event.Process? && a in s.queue && FateOf(config, a.data, event.current) == Keep)
    ensures a in s.Step(config, event).committed <==>
              a in s.committed || (event.Process? && event.commits && a in s.queue && FateOf(config, a.data, event.current) == Keep)
  {
    hide Select, ProcessSubqueues, Subqueues, ArrayLog;
    if event.Process? {
      InSelect(config, s.queue, event.current, Keep, a);
    }
  }

  lemma KeptEarlier(config: Config, events: seq<Event>, i: nat, a: Attestation)
    requires config.Valid() && i + 1 < |events|
    ensures KeptBy(config, events, i, a) <==> KeptBy(config, events[..|events| - 1], i, a)
  {
    assert events[..|events| - 1][..i] == events[..i];
  }

  /** What the theorems are about: everything a processing run kept, and everything a committed one kept. */
  lemma {:induction false} KeptAndCommitted(config: Config, events: seq<Event>, a: Attestation)
    requires config.Valid()
    ensures a in Run(config, events).seen <==> exists i: nat :: KeptBy(config, events, i, a)
    ensures a in Run(config, events).committed <==> exists i: nat :: KeptBy(config, events, i, a) && events[i].commits
  {
    hide SlasherState.Step, FateOf;
    if events != [] {
      var n := |events| - 1;
      var init, last := events[..n], events[n];
      KeptAndCommitted(config, init, a);
      StepKeeps(config, Run(config, init), last, a);
      assert KeptBy(config, events, n, a) <==>
             last.Process? && a in Run(config, init).queue && FateOf(config, a.data, last.current) == Keep;
      forall i: nat | i < n ensures KeptBy(config, events, i, a) <==> KeptBy(config, init, i, a) {
        KeptEarlier(config, events, i, a);
      }
    }
  }

  /** The epoch an event brings, if it brings one. */
  function ClockOf(event: Event): Option<Epoch> {
    match event
    case Process(current, _, _) => Some(current)
    case Prune(current, _) => Some(current)
    case _ => None
  }

  ghost predicate ClockAdvances(events: seq<Event>) {
    forall i, j :: 0 <= i < j < |events| && ClockOf(events[i]).Some? && ClockOf(events[j]).Some? ==>
      ClockOf(events[i]).value <= ClockOf(events[j]).value
  }

  /** The clock shows the epoch of the last event that brought one. */
  ghost predicate ClockShows(events: seq<Event>, now: Epoch, i: int) {
    && -1 <= i < |events|
    && (if i == -1 then now == 0 else ClockOf(events[i]) == Some(now))
    && (forall j :: i < j < |events| ==> ClockOf(events[j]).None?)
  }

  lemma {:induction false} NowIsLastClock(config: Config, events: seq<Event>) returns (i: int)
    requires config.Valid()
    ensures ClockShows(events, Run(config, events).now, i)
  {
    hide Select, ProcessSubqueues, Subqueues, ArrayLog;
    i := -1;
    if events != [] {
      var n := |events| - 1;
      if ClockOf(events[n]).Some? {
        i := n;
      } else {
        i := NowIsLastClock(config, events[..n]);
      }
    }
  }

  /** Which runs the slasher is proved for: exactly those whose epochs never go down. */
  lemma {:induction false} OrderedExactly(config: Config, events: seq<Event>)
    requires config.Valid()
    ensures Ordered(config, events) <==> ClockAdvances(events)
  {
    hide SlasherState.Step, Run;
    if events != [] {
      var n := |events| - 1;
      var init, last := events[..n], events[n];
      OrderedExactly(config, init);
      var k := NowIsLastClock(config, init);
      var now := Run(config, init).now;
      assert ClockAdvances(events) <==> ClockAdvances(init) && (ClockOf(last).Some? ==> now <= ClockOf(last).value) by {
        ClockStep(events, now, k);
      }
    }
  }

  lemma ClockStep(events: seq<Event>, now: Epoch, k: int)
    requires events != [] && ClockShows(events[..|events| - 1], now, k)
    ensures var n := |events| - 1;
            ClockAdvances(events) <==>
            ClockAdvances(events[..n]) && (ClockOf(events[n]).Some? ==> now <= ClockOf(events[n]).value)
  {
    var n := |events| - 1;
    var init := events[..n];
    assert forall i :: 0 <= i < n ==> init[i] == events[i];
    if ClockAdvances(events) {
      forall i, j | 0 <= i < j < n && ClockOf(init[i]).Some? && ClockOf(init[j]).Some?
        ensures ClockOf(init[i]).value <= ClockOf(init[j]).value
      {
        assert ClockOf(events[i]).value <= ClockOf(events[j]).value;
      }
    }
  }
}
