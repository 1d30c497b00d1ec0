/** In which order the votes of one subqueue are processed, as lists of (validator, attestation). */
module WorkOrder {
  import opened Types
  import opened Configuration
  import opened ReferenceHistory
  import opened Subsequences

  /** One attestation paired with each of these validators. */
  function Pairs(vs: seq<Validator>, a: Attestation): (work: Work)
    ensures |work| == |vs| && forall i :: 0 <= i < |vs| ==> work[i] == (vs[i], a)
  {
    seq(|vs|, i requires 0 <= i < |vs| => (vs[i], a))
  }

  /** Every attestation of the queue for each of its attesters that belongs to the validator chunk. */
  function QueueWork(config: Config, queue: seq<Attestation>, row: nat): Work
    requires config.Valid()
  {
    if queue == [] then []
    else
      var a := queue[|queue| - 1];
      QueueWork(config, queue[..|queue| - 1], row) + Pairs(config.AttestingValidatorsInChunk(a.indices, row), a)
  }

  lemma QueueWorkAppend(config: Config, queue: seq<Attestation>, a: Attestation, row: nat)
    requires config.Valid()
    ensures QueueWork(config, queue + [a], row) ==
            QueueWork(config, queue, row) + Pairs(config.AttestingValidatorsInChunk(a.indices, row), a)
  {
    assert (queue + [a])[..|queue|] == queue;
  }

  /** A queue is worked off from front to back. */
  lemma {:induction false} QueueWorkConcat(config: Config, q1: seq<Attestation>, q2: seq<Attestation>, row: nat)
    requires config.Valid()
    ensures QueueWork(config, q1 + q2, row) == QueueWork(config, q1, row) + QueueWork(config, q2, row)
  {
    if q2 == [] {
      assert q1 + q2 == q1;
    } else {
      assert (q1 + q2)[..|q1 + q2| - 1] == q1 + q2[..|q2| - 1];
      QueueWorkConcat(config, q1, q2[..|q2| - 1], row);
    }
  }

  /** The work of a queue is exactly its attesters in the chunk. */
  lemma {:induction false} InQueueWork(config: Config, queue: seq<Attestation>, row: nat, v: Validator, a: Attestation)
    requires config.Valid()
    ensures (v, a) in QueueWork(config, queue, row) <==> a in queue && v in a.indices && config.InChunk(v, row)
  {
    if queue != [] {
      var init, last := queue[..|queue| - 1], queue[|queue| - 1];
      assert queue == init + [last];
      InQueueWork(config, init, row, v, a);
      var vs := config.AttestingValidatorsInChunk(last.indices, row);
      if v in vs && a == last {
        var i :| 0 <= i < |vs| && vs[i] == v;
        assert Pairs(vs, last)[i] == (v, a);
      }
    }
  }

  /** The attestations whose source lies in the given chunk, in queue order. */
  function SourceGroup(config: Config, queue: seq<Attestation>, chunk: nat): seq<Attestation>
    requires config.Valid()
  {
    if queue == [] then []
    else
      var a := queue[|queue| - 1];
      var rest := SourceGroup(config, queue[..|queue| - 1], chunk);
      if config.ChunkIndex(a.data.source) == chunk then rest + [a] else rest
  }

  lemma {:induction false} InSourceGroup(config: Config, queue: seq<Attestation>, chunk: nat, a: Attestation)
    requires config.Valid()
    ensures a in SourceGroup(config, queue, chunk) <==> a in queue && config.ChunkIndex(a.data.source) == chunk
  {
    if queue != [] {
      assert queue == queue[..|queue| - 1] + [queue[|queue| - 1]];
      InSourceGroup(config, queue[..|queue| - 1], chunk, a);
    }
  }

  /** A source group keeps the queue's order and holds every attestation of its chunk as often as the queue. */
  lemma {:induction false} SourceGroupInOrder(config: Config, queue: seq<Attestation>, chunk: nat) returns (picks: seq<nat>)
    requires config.Valid()
    ensures PickedFrom(queue, SourceGroup(config, queue, chunk), picks)
    ensures forall k :: 0 <= k < |queue| ==> (k in picks <==> config.ChunkIndex(queue[k].data.source) == chunk)
  {
    picks := [];
    if queue != [] {
      var init, last := queue[..|queue| - 1], queue[|queue| - 1];
      picks := SourceGroupInOrder(config, init, chunk);
      assert queue == init + [last];
      PickNext(init, SourceGroup(config, init, chunk), picks, last);
      if config.ChunkIndex(last.data.source) == chunk {
        picks := picks + [|init|];
      }
    }
  }

  lemma {:induction false} SourceGroupConcat(config: Config, q1: seq<Attestation>, q2: seq<Attestation>, chunk: nat)
    requires config.Valid()
    ensures SourceGroup(config, q1 + q2, chunk) == SourceGroup(config, q1, chunk) + SourceGroup(config, q2, chunk)
  {
    if q2 == [] {
      assert q1 + q2 == q1;
    } else {
      assert (q1 + q2)[..|q1 + q2| - 1] == q1 + q2[..|q2| - 1];
      SourceGroupConcat(config, q1, q2[..|q2| - 1], chunk);
    }
  }

  lemma SourceGroupCount(config: Config, queue: seq<Attestation>, chunk: nat, a: Attestation)
    requires config.Valid()
    ensures multiset(SourceGroup(config, queue, chunk))[a] ==
            if config.ChunkIndex(a.data.source) == chunk then multiset(queue)[a] else 0
  {
    if config.ChunkIndex(a.data.source) == chunk {
      var picks := SourceGroupInOrder(config, queue, chunk);
      PickedCount(queue, SourceGroup(config, queue, chunk), picks, a);
    } else {
      InSourceGroup(config, queue, chunk, a);
    }
  }

  /** A group of one chunk, grouped again. */
  lemma {:induction false} SourceGroupAgain(config: Config, queue: seq<Attestation>, chunk: nat, chunk': nat)
    requires config.Valid()
    ensures SourceGroup(config, SourceGroup(config, queue, chunk), chunk') ==
            if chunk == chunk' then SourceGroup(config, queue, chunk) else []
  {
    if queue != [] {
      var init, last := queue[..|queue| - 1], queue[|queue| - 1];
      SourceGroupAgain(config, init, chunk, chunk');
      var rest := SourceGroup(config, init, chunk);
      SourceGroupConcat(config, rest, [last], chunk');
      assert [last][..0] == [];
    }
  }

  /** The order in which the arrays see a queue: by the chunk of the source, for chunks below `n`. */
  function BySource(config: Config, queue: seq<Attestation>, n: nat): seq<Attestation>
    requires config.Valid()
  {
    if n == 0 then [] else BySource(config, queue, n - 1) + SourceGroup(config, queue, n - 1)
  }

  lemma {:induction false} InBySource(config: Config, queue: seq<Attestation>, n: nat, a: Attestation)
    requires config.Valid()
    ensures a in BySource(config, queue, n) <==> a in queue && config.ChunkIndex(a.data.source) < n
  {
    if n != 0 {
      InBySource(config, queue, n - 1, a);
      InSourceGroup(config, queue, n - 1, a);
    }
  }

  function ArrayOrder(config: Config, queue: seq<Attestation>): seq<Attestation>
    requires config.Valid()
  {
    BySource(config, queue, config.Width())
  }

  lemma {:induction false} BySourceKeepsGroups(config: Config, queue: seq<Attestation>, n: nat, chunk: nat)
    requires config.Valid()
    ensures SourceGroup(config, BySource(config, queue, n), chunk) == if chunk < n then SourceGroup(config, queue, chunk) else []
  {
    if n != 0 {
      BySourceKeepsGroups(config, queue, n - 1, chunk);
      SourceGroupConcat(config, BySource(config, queue, n - 1), SourceGroup(config, queue, n - 1), chunk);
      SourceGroupAgain(config, queue, n - 1, chunk);
    }
  }

  lemma {:induction false} BySourceSorted(config: Config, queue: seq<Attestation>, n: nat, i: nat, j: nat)
    requires config.Valid() && i < j < |BySource(config, queue, n)|
    ensures var order := BySource(config, queue, n);
            config.ChunkIndex(order[i].data.source) <= config.ChunkIndex(order[j].data.source)
  {
    var init := BySource(config, queue, n - 1);
    var order := BySource(config, queue, n);
    if j < |init| {
      BySourceSorted(config, queue, n - 1, i, j);
    } else {
      InSourceGroup(config, queue, n - 1, order[j]);
      if i < |init| {
        InBySource(config, queue, n - 1, order[i]);
      } else {
        InSourceGroup(config, queue, n - 1, order[i]);
      }
    }
  }

  /**
   * The arrays see the queue stably sorted by the chunk of the source: a permutation in which
   * chunks only go up and attestations of one chunk stay in queue order.
   */
  lemma ArrayOrderIsStableSort(config: Config, queue: seq<Attestation>)
    requires config.Valid()
    ensures multiset(ArrayOrder(config, queue)) == multiset(queue)
    ensures var order := ArrayOrder(config, queue);
            forall i, j :: 0 <= i < j < |order| ==>
              config.ChunkIndex(order[i].data.source) <= config.ChunkIndex(order[j].data.source)
    ensures forall chunk: nat :: SourceGroup(config, ArrayOrder(config, queue), chunk) == SourceGroup(config, queue, chunk)
  {
    var order := ArrayOrder(config, queue);
    forall chunk: nat ensures SourceGroup(config, order, chunk) == SourceGroup(config, queue, chunk) {
      BySourceKeepsGroups(config, queue, config.Width(), chunk);
      if chunk >= config.Width() {
        NoGroupBeyondWidth(config, queue, chunk);
      }
    }
    forall a ensures multiset(order)[a] == multiset(queue)[a] {
      var chunk := config.ChunkIndex(a.data.source);
      SourceGroupCount(config, order, chunk, a);
      SourceGroupCount(config, queue, chunk, a);
    }
    forall i, j | 0 <= i < j < |order|
      ensures config.ChunkIndex(order[i].data.source) <= config.ChunkIndex(order[j].data.source)
    {
      BySourceSorted(config, queue, config.Width(), i, j);
    }
  }

  lemma {:induction false} NoGroupBeyondWidth(config: Config, queue: seq<Attestation>, chunk: nat)
    requires config.Valid() && config.Width() <= chunk
    ensures SourceGroup(config, queue, chunk) == []
  {
    if queue != [] {
      NoGroupBeyondWidth(config, queue[..|queue| - 1], chunk);
    }
  }

  /** Regrouping by source loses and invents nothing. */
  lemma ArrayWorkSameVotes(config: Config, queue: seq<Attestation>, row: nat)
    requires config.Valid()
    ensures forall x :: x in QueueWork(config, ArrayOrder(config, queue), row) <==> x in QueueWork(config, queue, row)
  {
    forall x: (Validator, Attestation)
      ensures x in QueueWork(config, ArrayOrder(config, queue), row) <==> x in QueueWork(config, queue, row)
    {
      InQueueWork(config, queue, row, x.0, x.1);
      InQueueWork(config, ArrayOrder(config, queue), row, x.0, x.1);
      InBySource(config, queue, config.Width(), x.1);
    }
  }
}
