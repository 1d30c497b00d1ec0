/** One chunk of a min-target or max-target array and the walk of one vote through it. */
module Chunks {
  import opened Types
  import opened TargetBounds
  import opened Configuration

  /** The epochs a walk from `start` has changed when it stands at `left`. */
  predicate Walked(kind: Kind, start: int, left: int, e: int) {
    match kind
    case Min => left < e <= start
    case Max => start <= e < left
  }

  /** The first epoch a vote changes, or none when no epoch of the window is affected. */
  function FirstStartEpoch(config: Config, kind: Kind, source: Epoch, current: Epoch): Option<Epoch> {
    match kind
    case Min => if source > current - config.historyLength && source > 0 then Some(source - 1) else None
    case Max => if source < current then Some(source + 1) else None
  }

  /** The last epoch of the previous chunk, or the first epoch of the next one. */
  function NextStartEpoch(config: Config, kind: Kind, start: Epoch): Epoch
    requires config.Valid()
  {
    var block := start / config.chunkSize;
    match kind
    case Min => if block * config.chunkSize == 0 then 0 else block * config.chunkSize - 1
    case Max => (block + 1) * config.chunkSize
  }

  /** The distance that chunk data holds for `v` and `e`. */
  ghost function CellAt(config: Config, data: seq<Distance>, v: Validator, e: Epoch): Distance
    requires config.Valid() && |data| == config.ChunkLength()
  {
    data[config.Cell(v, e)]
  }

  /** Chunk data after a walk from `start` to `left`: walked cells hold `target`, all others are as before. */
  ghost predicate ChunkWalked(config: Config, kind: Kind, before: seq<Distance>, after: seq<Distance>,
                              v: Validator, start: Epoch, left: int, target: Epoch, current: Epoch)
    requires config.Valid() && |before| == |after| == config.ChunkLength()
  {
    && (forall e: Epoch :: Walked(kind, start, left, e) ==>
          && config.InWindow(e, current)
          && config.ChunkIndex(e) == config.ChunkIndex(start)
          && kind.Improves(target, e + CellAt(config, before, v, e))
          && e + CellAt(config, after, v, e) == target)
    && (forall e: Epoch ::
          config.InWindow(e, current) && config.ChunkIndex(e) == config.ChunkIndex(start) && !Walked(kind, start, left, e) ==>
            CellAt(config, after, v, e) == CellAt(config, before, v, e))
    && (forall v', e' :: config.ValidatorOffset(v') != config.ValidatorOffset(v) ==>
          CellAt(config, after, v', e') == CellAt(config, before, v', e'))
  }

  /** Why a walk stands at `left`: it goes on in the next chunk, left the window, or met a cell it cannot improve. */
  ghost predicate StandsAt(config: Config, kind: Kind, before: seq<Distance>,
                           v: Validator, start: Epoch, left: int, target: Epoch, current: Epoch, keepGoing: bool)
    requires config.Valid() && |before| == config.ChunkLength()
  {
    if keepGoing then
      config.InWindow(left, current) && left != start && left == NextStartEpoch(config, kind, start)
    else
      config.InWindow(left, current) ==>
        config.ChunkIndex(left) == config.ChunkIndex(start) && !kind.Improves(target, left + CellAt(config, before, v, left))
  }

  /** Improving the cell at `left` takes the walk one epoch further. */
  lemma WalkOneCell(config: Config, kind: Kind, before: seq<Distance>, mid: seq<Distance>, after: seq<Distance>,
                    v: Validator, start: Epoch, left: Epoch, left': int, target: Epoch, current: Epoch)
    requires config.Valid() && |before| == |mid| == |after| == config.ChunkLength()
    requires ChunkWalked(config, kind, before, mid, v, start, left, target, current)
    requires config.InWindow(left, current) && config.ChunkIndex(left) == config.ChunkIndex(start)
    requires kind.Min? ==> left <= start && left' == left - 1
    requires kind.Max? ==> start <= left && left' == left + 1
    requires kind.Improves(target, left + CellAt(config, mid, v, left)) && left <= target <= left + MAX_DISTANCE
    requires after == mid[config.Cell(v, left) := target - left]
    ensures ChunkWalked(config, kind, before, after, v, start, left', target, current)
  {
    config.CellIsOwn(v, left);
    config.CellIsUnique(v, left, current);
  }

  class Chunk {
    const config: Config
    const kind: Kind
    var data: seq<Distance>

    ghost predicate Valid()
      reads this
    {
      config.Valid() && |data| == config.ChunkLength()
    }

    constructor (config: Config, kind: Kind, data: seq<Distance>)
      requires config.Valid() && |data| == config.ChunkLength()
      ensures Valid() && this.config == config && this.kind == kind && this.data == data
    {
      this.config := config;
      this.kind := kind;
      this.data := data;
    }

    method GetTarget(v: Validator, e: Epoch) returns (outcome: Outcome, target: Epoch)
      requires Valid()
      ensures outcome.Pass? && target == e + CellAt(config, data, v, e)
    {
      var cell: nat := config.Cell(v, e);
      if cell < |data| {
        outcome, target := Pass, e + data[cell];
      } else {
        outcome, target := Fail(ChunkIndexOutOfBounds(cell)), e;
      }
    }

    /** Error exactly if the distance is negative or at least `MAX_DISTANCE`. */
    static method EpochDistance(epoch: Epoch, base: Epoch) returns (outcome: Outcome, distance: Distance)
      ensures outcome == if epoch < base then Fail(DistanceCalculationOverflow)
                         else if epoch - base < MAX_DISTANCE then Pass else Fail(DistanceTooLarge)
      ensures outcome.Pass? ==> base + distance == epoch
    {
      if epoch < base {
        return Fail(DistanceCalculationOverflow), 0;
      }
      var wide := epoch - base;
      if wide > MAX_DISTANCE {
        return Fail(DistanceTooLarge), 0;
      }
      if wide < MAX_DISTANCE {
        return Pass, wide;
      } else {
        return Fail(DistanceTooLarge), 0;
      }
    }

    /** A write changes one cell and no other; only a chunk that is too short makes it fail. */
    method SetRawDistance(v: Validator, e: Epoch, distance: Distance) returns (outcome: Outcome)
      requires config.Valid()
      modifies this
      ensures outcome == if config.Cell(v, e) < |old(data)| then Pass else Fail(ChunkIndexOutOfBounds(config.Cell(v, e)))
      ensures data == if config.Cell(v, e) < |old(data)| then old(data)[config.Cell(v, e) := distance] else old(data)
    {
      var cell: nat := config.Cell(v, e);
      if cell < |data| {
        data := data[cell := distance];
        outcome := Pass;
      } else {
        outcome := Fail(ChunkIndexOutOfBounds(cell));
      }
    }

    method SetTarget(v: Validator, e: Epoch, target: Epoch) returns (outcome: Outcome)
      requires Valid()
      modifies this
      ensures Valid()
      ensures outcome.Pass? <==> e <= target < e + MAX_DISTANCE
      ensures data == if outcome.Pass? then old(data)[config.Cell(v, e) := target - e] else old(data)
    {
      var distance :- EpochDistance(target, e);
      outcome := SetRawDistance(v, e, distance);
    }

    method UpdateMin(chunkIndex: nat, v: Validator, start: Epoch, target: Epoch, current: Epoch)
      returns (outcome: Outcome, keepGoing: bool, ghost left: int)
      requires Valid() && kind.Min?
      requires chunkIndex == config.ChunkIndex(start)
      requires start < target <= current
      modifies this
      ensures Valid() && outcome.Pass?
      ensures left <= start
      ensures ChunkWalked(config, kind, old(data), data, v, start, left, target, current)
      ensures StandsAt(config, kind, old(data), v, start, left, target, current, keepGoing)
    {
      var minEpoch := if current < config.historyLength - 1 then 0 else current - (config.historyLength - 1);
      var epoch: Epoch := start;
      left := start;
      while config.ChunkIndex(epoch) == chunkIndex && epoch >= minEpoch
        invariant Valid()
        invariant left <= start && -1 <= left
        invariant epoch == left || (left == -1 && epoch == 0 && minEpoch == 0)
        invariant left == start || config.SameStretch(left + 1, start)
        invariant ChunkWalked(config, kind, old(data), data, v, start, left, target, current)
        decreases left + 1
      {
        var value :- GetTarget(v, epoch);
        if target < value {
          ghost var mid := data;
          :- SetTarget(v, epoch, target);
          WalkOneCell(config, kind, old(data), mid, data, v, start, epoch, left - 1, target, current);
          if epoch < start { config.StretchStep(epoch, start); }
        } else {
          return Pass, false, left;
        }
        epoch := if epoch == 0 then 0 else epoch - 1;
        left := left - 1;
      }
      if epoch >= minEpoch { config.StretchEnd(epoch, start); }
      return Pass, epoch >= minEpoch, left;
    }

    method UpdateMax(chunkIndex: nat, v: Validator, start: Epoch, target: Epoch, current: Epoch)
      returns (outcome: Outcome, keepGoing: bool, ghost left: int)
      requires Valid() && kind.Max?
      requires chunkIndex == config.ChunkIndex(start)
      requires config.InWindow(start - 1, current) && start <= current && target <= current
      modifies this
      ensures Valid() && outcome.Pass?
      ensures start <= left
      ensures ChunkWalked(config, kind, old(data), data, v, start, left, target, current)
      ensures StandsAt(config, kind, old(data), v, start, left, target, current, keepGoing)
    {
      var epoch: Epoch := start;
      while config.ChunkIndex(epoch) == chunkIndex && epoch <= current
        invariant Valid()
        invariant start <= epoch <= current + 1
        invariant epoch == start || config.SameStretch(epoch - 1, start)
        invariant ChunkWalked(config, kind, old(data), data, v, start, epoch, target, current)
        decreases current + 1 - epoch
      {
        var value :- GetTarget(v, epoch);
        if target > value {
          ghost var mid := data;
          :- SetTarget(v, epoch, target);
          WalkOneCell(config, kind, old(data), mid, data, v, start, epoch, epoch + 1, target, current);
          if start < epoch { config.StretchStep(epoch - 1, start); }
        } else {
          return Pass, false, epoch;
        }
        epoch := epoch + 1;
      }
      if epoch <= current { config.StretchEnd(epoch - 1, start); }
      return Pass, epoch <= current, epoch;
    }
  }
}
