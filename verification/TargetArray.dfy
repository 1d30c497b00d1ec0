/**
 * One validator chunk's row of a target array while it is being updated: the chunks loaded so
 * far, on top of the table the transaction sees. Seen from outside it is a flat array indexed
 * by validator and epoch.
 */
module TargetArrays {
  import opened Types
  import opened TargetBounds
  import opened Configuration
  import opened Chunks

  /** Chunk data by disk key (a stored array) or by chunk index (the loaded chunks of one row). */
  type ChunkMap = map<nat, seq<Distance>>

  ghost predicate ChunksValid(config: Config, chunks: ChunkMap) {
    config.Valid() && forall key :: key in chunks ==> |chunks[key]| == config.ChunkLength()
  }

  /** The distance a stored array holds for a validator of `row`; chunks never written are neutral. */
  ghost function TableAt(config: Config, kind: Kind, table: ChunkMap, row: nat, v: Validator, e: Epoch): Distance
    requires ChunksValid(config, table)
  {
    var key := config.DiskKey(row, config.ChunkIndex(e));
    if key in table then CellAt(config, table[key], v, e) else kind.Neutral()
  }

  /**
   * Stopping at the first cell that does not improve gives what updating every covered cell of
   * the window would give: beyond `left` no cell can improve, because the array is monotone.
   */
  lemma {:induction false} EarlyStopIsFullScan(config: Config, kind: Kind, votes: seq<Vote>, vote: Vote, first: Epoch, left: int, e: Epoch, current: Epoch)
    requires config.InWindow(e, current) && config.InWindow(vote.source, current)
    requires FirstStartEpoch(config, kind, vote.source, current) == Some(first)
    requires kind.Min? ==> left <= first
    requires kind.Max? ==> first <= left
    requires Walked(kind, first, left, e) ==> kind.Improves(vote.target, kind.Bound(votes, e))
    requires config.InWindow(left, current) ==> !kind.Improves(vote.target, kind.Bound(votes, left))
    ensures kind.Bound(votes + [vote], e) == if Walked(kind, first, left, e) then vote.target else kind.Bound(votes, e)
  {
    kind.BoundAppend(votes, vote, e);
    if config.InWindow(left, current) {
      match kind {
        case Min => if e <= left { kind.BoundMonotone(votes, e, left); }
        case Max => if left <= e { kind.BoundMonotone(votes, left, e); }
      }
    }
  }

  class TargetArray {
    const config: Config
    const kind: Kind
    const row: nat
    const table: ChunkMap
    var chunks: ChunkMap

    ghost predicate Valid()
      reads this
    {
      && ChunksValid(config, table) && ChunksValid(config, chunks)
      && (forall i :: i in chunks ==> i < config.Width())
    }

    /** The flat view: the distance for `v` and `e`, wherever it currently lives. */
    ghost function At(loaded: ChunkMap, v: Validator, e: Epoch): Distance
      requires ChunksValid(config, table) && ChunksValid(config, loaded)
    {
      var i := config.ChunkIndex(e);
      if i in loaded then CellAt(config, loaded[i], v, e) else TableAt(config, kind, table, row, v, e)
    }

    /** The row of `v` holds exactly the bounds of `votes` throughout the window. */
    ghost predicate Agrees(loaded: ChunkMap, v: Validator, votes: seq<Vote>, current: Epoch)
      requires ChunksValid(config, table) && ChunksValid(config, loaded)
    {
      forall e: Epoch :: config.InWindow(e, current) ==> e + At(loaded, v, e) == kind.Bound(votes, e)
    }

    constructor (config: Config, kind: Kind, row: nat, table: ChunkMap)
      requires ChunksValid(config, table)
      ensures Valid() && chunks == map[]
      ensures this.config == config && this.kind == kind && this.row == row && this.table == table
    {
      this.config := config;
      this.kind := kind;
      this.row := row;
      this.table := table;
      this.chunks := map[];
    }

    /** Load a chunk, or start an empty one, unless it has been loaded before. No distance changes. */
    method GetChunkForUpdate(i: nat)
      requires Valid() && i < config.Width()
      modifies this
      ensures Valid() && i in chunks
      ensures forall v, e :: At(chunks, v, e) == At(old(chunks), v, e)
    {
      if i !in chunks {
        var key := config.DiskKey(row, i);
        if key in table {
          chunks := chunks[i := table[key]];
        } else {
          chunks := chunks[i := seq(config.ChunkLength(), _ => kind.Neutral())];
        }
      }
    }

    /** What walking `v` from `start` to `left` does to the flat array. */
    ghost predicate WalkedTo(before: ChunkMap, after: ChunkMap, v: Validator, start: Epoch, left: int, target: Epoch, current: Epoch)
      requires ChunksValid(config, table) && ChunksValid(config, before) && ChunksValid(config, after)
    {
      && (forall e: Epoch :: Walked(kind, start, left, e) ==>
            && config.InWindow(e, current)
            && kind.Improves(target, e + At(before, v, e))
            && e + At(after, v, e) == target)
      && (forall e: Epoch :: config.InWindow(e, current) && !Walked(kind, start, left, e) ==>
            At(after, v, e) == At(before, v, e))
      && OthersKept(before, after, v)
    }

    /** No other validator's distance has changed. */
    ghost predicate OthersKept(before: ChunkMap, after: ChunkMap, v: Validator)
      requires ChunksValid(config, table) && ChunksValid(config, before) && ChunksValid(config, after)
    {
      forall v', e :: config.ValidatorOffset(v') != config.ValidatorOffset(v) ==> At(after, v', e) == At(before, v', e)
    }

    lemma WalksCompose(c0: ChunkMap, c1: ChunkMap, c2: ChunkMap, v: Validator, first: Epoch, mid: Epoch, left: int, target: Epoch, current: Epoch)
      requires ChunksValid(config, table) && ChunksValid(config, c0) && ChunksValid(config, c1) && ChunksValid(config, c2)
      requires WalkedTo(c0, c1, v, first, mid, target, current)
      requires WalkedTo(c1, c2, v, mid, left, target, current)
      requires kind.Min? ==> left <= mid <= first
      requires kind.Max? ==> first <= mid <= left
      ensures WalkedTo(c0, c2, v, first, left, target, current)
      ensures config.InWindow(left, current) ==> At(c1, v, left) == At(c0, v, left)
    {
      forall e: Epoch | Walked(kind, first, left, e)
        ensures config.InWindow(e, current) && kind.Improves(target, e + At(c0, v, e)) && e + At(c2, v, e) == target
      {
        if !Walked(kind, first, mid, e) {
          assert Walked(kind, mid, left, e);
        }
      }
    }

    /** A walk inside one loaded chunk is a walk of the flat array. */
    lemma ChunkWalkLifts(c: ChunkMap, c': ChunkMap, v: Validator, start: Epoch, left: int, target: Epoch, current: Epoch)
      requires ChunksValid(config, table) && ChunksValid(config, c) && ChunksValid(config, c')
      requires var i := config.ChunkIndex(start);
               i in c && i in c' && c' == c[i := c'[i]] && ChunkWalked(config, kind, c[i], c'[i], v, start, left, target, current)
      ensures WalkedTo(c, c', v, start, left, target, current)
    {
    }

    lemma LoadKeepsWalk(c0: ChunkMap, c1: ChunkMap, c2: ChunkMap, v: Validator, start: Epoch, left: int, target: Epoch, current: Epoch)
      requires ChunksValid(config, table) && ChunksValid(config, c0) && ChunksValid(config, c1) && ChunksValid(config, c2)
      requires forall v, e :: At(c1, v, e) == At(c0, v, e)
      requires WalkedTo(c1, c2, v, start, left, target, current)
      ensures WalkedTo(c0, c2, v, start, left, target, current)
    {
    }

    /** The part of the walk that happens in the chunk of `start`. */
    method UpdateChunk(v: Validator, start: Epoch, target: Epoch, current: Epoch)
      returns (outcome: Outcome, keepGoing: bool, ghost left: int)
      requires Valid()
      requires kind.Min? ==> start < target <= current
      requires kind.Max? ==> config.InWindow(start - 1, current) && start <= current && target <= current
      modifies this
      ensures Valid() && outcome.Pass?
      ensures kind.Min? ==> left <= start
      ensures kind.Max? ==> start <= left
      ensures WalkedTo(old(chunks), chunks, v, start, left, target, current)
      ensures keepGoing ==> config.InWindow(left, current) && left != start && left == NextStartEpoch(config, kind, start)
      ensures !keepGoing && config.InWindow(left, current) ==> !kind.Improves(target, left + At(old(chunks), v, left))
    {
      var i := config.ChunkIndex(start);
      GetChunkForUpdate(i);
      ghost var loaded := chunks;
      var chunk := new Chunk(config, kind, chunks[i]);
      match kind {
        case Min => keepGoing, left :- chunk.UpdateMin(i, v, start, target, current);
        case Max => keepGoing, left :- chunk.UpdateMax(i, v, start, target, current);
      }
      chunks := chunks[i := chunk.data];
      ChunkWalkLifts(loaded, chunks, v, start, left, target, current);
      LoadKeepsWalk(old(chunks), loaded, chunks, v, start, left, target, current);
      outcome := Pass;
    }

    /** The whole walk from `first`, chunk after chunk, until it stops. */
    method WalkChunks(v: Validator, first: Epoch, target: Epoch, current: Epoch) returns (outcome: Outcome, ghost left: int)
      requires Valid()
      requires kind.Min? ==> first < target <= current
      requires kind.Max? ==> config.InWindow(first - 1, current) && first <= current && target <= current
      modifies this
      ensures Valid() && outcome.Pass?
      ensures kind.Min? ==> left <= first
      ensures kind.Max? ==> first <= left
      ensures WalkedTo(old(chunks), chunks, v, first, left, target, current)
      ensures config.InWindow(left, current) ==> !kind.Improves(target, left + At(old(chunks), v, left))
    {
      var start: Epoch := first;
      left := start;
      var keepGoing := true;
      while keepGoing
        invariant Valid()
        invariant kind.Min? ==> left <= first
        invariant kind.Max? ==> first <= left
        invariant keepGoing ==> left == start && (kind.Max? ==> start <= current)
        invariant !keepGoing && config.InWindow(left, current) ==> !kind.Improves(target, left + At(old(chunks), v, left))
        invariant WalkedTo(old(chunks), chunks, v, first, left, target, current)
        decreases if kind.Min? then start else current - start, keepGoing
      {
        ghost var mid := chunks;
        keepGoing, left :- UpdateChunk(v, start, target, current);
        WalksCompose(old(chunks), mid, chunks, v, first, start, left, target, current);
        if keepGoing {
          start := NextStartEpoch(config, kind, start);
        }
      }
      outcome := Pass;
    }

    /** Record an accepted vote: afterwards the row holds the bounds of the extended vote list. */
    method Walk(v: Validator, source: Epoch, target: Epoch, current: Epoch, ghost votes: seq<Vote>)
      returns (outcome: Outcome)
      requires Valid() && Agrees(chunks, v, votes, current)
      requires config.InWindow(source, current) && source <= target <= current
      modifies this
      ensures Valid() && outcome.Pass?
      ensures Agrees(chunks, v, votes + [Vote(source, target)], current)
      ensures OthersKept(old(chunks), chunks, v)
    {
      var first := FirstStartEpoch(config, kind, source, current);
      ghost var vote := Vote(source, target);
      if first.None? {
        forall e: Epoch | config.InWindow(e, current) ensures e + At(chunks, v, e) == kind.Bound(votes + [vote], e) {
          kind.BoundAppend(votes, vote, e);
        }
        outcome := Pass;
      } else {
        ghost var left;
        left :- WalkChunks(v, first.value, target, current);
        forall e: Epoch | config.InWindow(e, current) ensures e + At(chunks, v, e) == kind.Bound(votes + [vote], e) {
          EarlyStopIsFullScan(config, kind, votes, vote, first.value, left, e, current);
        }
        outcome := Pass;
      }
    }

    /** What resetting the epochs `from..to` of `v` does to the flat array. */
    ghost predicate ResetTo(before: ChunkMap, after: ChunkMap, v: Validator, from: Epoch, to: Epoch, current: Epoch)
      requires ChunksValid(config, table) && ChunksValid(config, before) && ChunksValid(config, after)
    {
      && (forall e: Epoch :: from <= e < to ==> At(after, v, e) == kind.Neutral())
      && (forall e: Epoch :: config.InWindow(e, current) && e < from ==> At(after, v, e) == At(before, v, e))
      && OthersKept(before, after, v)
    }

    /** Writing one cell of a loaded chunk changes that cell of the flat array and no other. */
    lemma OneWrite(c: ChunkMap, c': ChunkMap, v: Validator, e: Epoch, distance: Distance)
      requires ChunksValid(config, table) && ChunksValid(config, c) && ChunksValid(config, c')
      requires var i := config.ChunkIndex(e);
               i in c && i in c' && c' == c[i := c'[i]] && c'[i] == c[i][config.Cell(v, e) := distance]
      ensures forall v', e' :: At(c', v', e') ==
                if config.ChunkIndex(e') == config.ChunkIndex(e) && config.Cell(v', e') == config.Cell(v, e) then distance else At(c, v', e')
    {
    }

    lemma ResetOneCell(c0: ChunkMap, c1: ChunkMap, c2: ChunkMap, v: Validator, from: Epoch, e: Epoch, current: Epoch)
      requires ChunksValid(config, table) && ChunksValid(config, c0) && ChunksValid(config, c1) && ChunksValid(config, c2)
      requires from <= e <= current
      requires forall v', e' :: At(c2, v', e') ==
                 if config.ChunkIndex(e') == config.ChunkIndex(e) && config.Cell(v', e') == config.Cell(v, e) then kind.Neutral() else At(c1, v', e')
      requires ResetTo(c0, c1, v, from, e, current)
      ensures ResetTo(c0, c2, v, from, e + 1, current)
    {
      config.CellIsOwn(v, e);
      if config.InWindow(e, current) {
        config.CellIsUnique(v, e, current);
      }
    }

    /** Make the row of `v` ready for `current`: every epoch from the previous current epoch on is neutral. */
    method EpochUpdate(v: Validator, previous: Option<Epoch>, current: Epoch) returns (outcome: Outcome)
      requires Valid()
      requires previous.Some? ==> previous.value <= current
      modifies this
      ensures Valid() && outcome.Pass?
      ensures previous.None? ==> chunks == old(chunks)
      ensures previous.Some? ==> ResetTo(old(chunks), chunks, v, previous.value, current + 1, current)
    {
      if previous.None? {
        return Pass;
      }
      var epoch: Epoch := previous.value;
      while epoch <= current
        invariant Valid()
        invariant previous.value <= epoch <= current + 1
        invariant ResetTo(old(chunks), chunks, v, previous.value, epoch, current)
      {
        var i := config.ChunkIndex(epoch);
        ghost var loaded := chunks;
        GetChunkForUpdate(i);
        LoadKeepsReset(old(chunks), loaded, chunks, v, previous.value, epoch, current);
        var chunk := new Chunk(config, kind, chunks[i]);
        var entered: Epoch := epoch;
        assert chunks[i := chunk.data] == chunks;
        while config.ChunkIndex(epoch) == i && epoch <= current
          invariant chunk.Valid() && chunk.config == config && Valid()
          invariant i in chunks && previous.value <= epoch <= current + 1
          invariant epoch > entered || (epoch == entered && config.ChunkIndex(epoch) == i)
          invariant ResetTo(old(chunks), chunks[i := chunk.data], v, previous.value, epoch, current)
        {
          ghost var before := chunks[i := chunk.data];
          :- chunk.SetRawDistance(v, epoch, kind.Neutral());
          OneWrite(before, chunks[i := chunk.data], v, epoch, kind.Neutral());
          ResetOneCell(old(chunks), before, chunks[i := chunk.data], v, previous.value, epoch, current);
          epoch := epoch + 1;
        }
        chunks := chunks[i := chunk.data];
      }
      outcome := Pass;
    }

    lemma LoadKeepsReset(c0: ChunkMap, c1: ChunkMap, c2: ChunkMap, v: Validator, from: Epoch, to: Epoch, current: Epoch)
      requires ChunksValid(config, table) && ChunksValid(config, c0) && ChunksValid(config, c1) && ChunksValid(config, c2)
      requires forall v, e :: At(c2, v, e) == At(c1, v, e)
      requires ResetTo(c0, c1, v, from, to, current)
      ensures ResetTo(c0, c2, v, from, to, current)
    {
    }

    /** Lazy reset loses nothing: the row that was right at `previous` is right at `current`. */
    lemma ResetKeepsAgreement(before: ChunkMap, after: ChunkMap, v: Validator, votes: seq<Vote>, previous: Epoch, current: Epoch)
      requires ChunksValid(config, table) && ChunksValid(config, before) && ChunksValid(config, after)
      requires previous <= current
      requires forall vote :: vote in votes ==> vote.source <= vote.target <= previous
      requires Agrees(before, v, votes, previous)
      requires ResetTo(before, after, v, previous, current + 1, current)
      ensures Agrees(after, v, votes, current)
    {
      forall e: Epoch | config.InWindow(e, current) ensures e + At(after, v, e) == kind.Bound(votes, e) {
        if previous <= e {
          kind.BoundNeutralFrom(votes, previous, e);
        }
      }
    }

    /** Load the chunk of `e` and read the target stored there for `v`. */
    method GetTarget(v: Validator, e: Epoch) returns (outcome: Outcome, target: Epoch)
      requires Valid()
      modifies this
      ensures Valid() && outcome.Pass?
      ensures target == e + At(chunks, v, e)
      ensures forall v', e' :: At(chunks, v', e') == At(old(chunks), v', e')
    {
      var i := config.ChunkIndex(e);
      GetChunkForUpdate(i);
      var chunk := new Chunk(config, kind, chunks[i]);
      outcome, target := chunk.GetTarget(v, e);
    }
  }
}
