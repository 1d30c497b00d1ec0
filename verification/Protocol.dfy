/** The slasher's behaviour over a whole run, as a state machine on the reference history. */
module Protocol {
  import opened Types
  import opened Configuration
  import opened ReferenceHistory
  import opened WorkOrder
  import opened AttestationBatches

  /** What validation does with a queued attestation. */
  datatype Fate = Keep | Defer | Drop

  function FateOf(config: Config, data: AttestationData, current: Epoch): Fate {
    if data.source > data.target || data.source + config.historyLength <= current then Drop
    else if data.target > current then Defer
    else Keep
  }

  /** The attestations with the given fate, in queue order. */
  function Select(config: Config, queue: seq<Attestation>, current: Epoch, fate: Fate): seq<Attestation> {
    if queue == [] then []
    else
      var a := queue[|queue| - 1];
      var rest := Select(config, queue[..|queue| - 1], current, fate);
      if FateOf(config, a.data, current) == fate then rest + [a] else rest
  }

  /** Process the first `n` subqueues, one validator chunk after the other. */
  ghost function ProcessSubqueues(config: Config, h: History, queues: seq<seq<Attestation>>, n: nat): History
    requires config.Valid() && n <= |queues|
  {
    if n == 0 then h
    else
      var queue := queues[n - 1];
      ProcessSubqueues(config, h, queues, n - 1)
        .CheckBatch(QueueWork(config, queue, n - 1), QueueWork(config, ArrayOrder(config, queue), n - 1))
  }

  /** The votes the arrays see while the first `n` subqueues are processed, in order. */
  ghost function ArrayLog(config: Config, queues: seq<seq<Attestation>>, n: nat): Work
    requires config.Valid() && n <= |queues|
  {
    if n == 0 then []
    else ArrayLog(config, queues, n - 1) + QueueWork(config, ArrayOrder(config, queues[n - 1]), n - 1)
  }

  /**
   * What can happen to a slasher. `late` are attestations accepted between the moment a
   * processing run dequeues and the moment it requeues; `commits` is false when the database
   * transaction cannot be committed.
   */
  datatype Event =
    | Accept(attestation: Attestation)
    | Process(current: Epoch, late: seq<Attestation>, commits: bool)
    | Prune(current: Epoch, commits: bool)
    | Harvest

  datatype SlasherState = SlasherState(
    queue: seq<Attestation>,
    hist: History,
    /** Everything that ever passed validation. */
    seen: set<Attestation>,
    /** Everything processed by a run that was committed. */
    committed: set<Attestation>,
    /** The committed votes in the order in which the arrays processed them. */
    log: Work,
    now: Epoch)
  {
    /** The clock does not run backwards. */
    predicate Enabled(event: Event) {
      match event
      case Process(current, _, _) => now <= current
      case Prune(current, _) => now <= current
      case _ => true
    }

    ghost function Step(config: Config, event: Event): SlasherState
      requires config.Valid()
    {
      match event
      case Accept(a) => this.(queue := queue + [a])
      case Process(current, late, commits) =>
        var kept := Select(config, queue, current, Keep);
        var queues := Subqueues(config, kept);
        var after := ProcessSubqueues(config, hist, queues, |queues|);
        var next := this.(
          queue := late + Select(config, queue, current, Defer),
          seen := seen + (set a | a in kept),
          now := current);
        if commits then
          next.(hist := after, committed := committed + (set a | a in kept), log := log + ArrayLog(config, queues, |queues|))
        else
          // Slashings found on the way have been handed over already.
          next.(hist := hist.(emitted := after.emitted))
      case Prune(current, _) => this.(now := current)
      case Harvest => this
    }
  }

  const INITIAL: SlasherState := SlasherState([], History(map[], map[], {}), {}, {}, [], 0)

  /** The state after a run. */
  ghost function Run(config: Config, events: seq<Event>): SlasherState
    requires config.Valid()
  {
    if events == [] then INITIAL else Run(config, events[..|events| - 1]).Step(config, events[|events| - 1])
  }

  /** Every event of the run respects the clock. */
  ghost predicate Ordered(config: Config, events: seq<Event>)
    requires config.Valid()
  {
    events == [] ||
    (Ordered(config, events[..|events| - 1]) && Run(config, events[..|events| - 1]).Enabled(events[|events| - 1]))
  }
}
