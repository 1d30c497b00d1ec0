/** What becomes of each accepted attestation, over whole runs and under any interleaving. */
module QueueFate {
  import opened Types
  import opened Configuration
  import opened ReferenceHistory
  import opened AttestationBatches
  import opened Protocol
  import opened Runs
  import opened Subsequences

  /** Where an accepted attestation is: still queued, kept by one processing run, or dropped by one. */
  datatype Place = Queued | KeptAt(run: nat) | DroppedAt(run: nat)

  /** The fate of an attestation that sees processing runs at these epochs, counting runs from `run`. */
  function PlaceOf(config: Config, data: AttestationData, epochs: seq<Epoch>, run: nat): Place {
    if epochs == [] then Queued
    else
      match FateOf(config, data, epochs[0])
      case Keep => KeptAt(run)
      case Drop => DroppedAt(run)
      case Defer => PlaceOf(config, data, epochs[1..], run + 1)
  }

  /** One acceptance: the attestation and the number of processing runs that had dequeued before it. */
  datatype Ticket = Ticket(attestation: Attestation, arrived: nat)

  function EpochsOf(events: seq<Event>): seq<Epoch> {
    if events == [] then []
    else
      var last := events[|events| - 1];
      EpochsOf(events[..|events| - 1]) + (if last.Process? then [last.current] else [])
  }

  function LateTickets(late: seq<Attestation>, arrived: nat): seq<Ticket> {
    seq(|late|, i requires 0 <= i < |late| => Ticket(late[i], arrived))
  }

  /** All acceptances of a run, including those that land while a processing run holds the queue. */
  function Tickets(events: seq<Event>): seq<Ticket> {
    if events == [] then []
    else
      var init, last := events[..|events| - 1], events[|events| - 1];
      Tickets(init) +
      match last
      case Accept(a) => [Ticket(a, |EpochsOf(init)|)]
      case Process(_, late, _) => LateTickets(late, |EpochsOf(init)| + 1)
      case _ => []
  }

  function TicketPlace(config: Config, ticket: Ticket, epochs: seq<Epoch>): Place {
    if ticket.arrived <= |epochs| then PlaceOf(config, ticket.attestation.data, epochs[ticket.arrived..], ticket.arrived) else Queued
  }

  /** A waiting attestation counts as deferred. */
  function FateAt(place: Place): Fate {
    match place
    case Queued => Defer
    case KeptAt(_) => Keep
    case DroppedAt(_) => Drop
  }

  /** How many acceptances of `a` have this fate so far. */
  function Count(config: Config, tickets: seq<Ticket>, epochs: seq<Epoch>, a: Attestation, fate: Fate): nat {
    if tickets == [] then 0
    else
      var last := tickets[|tickets| - 1];
      Count(config, tickets[..|tickets| - 1], epochs, a, fate)
      + (if last.attestation == a && FateAt(TicketPlace(config, last, epochs)) == fate then 1 else 0)
  }

  /** Everything the processing runs of a run of the slasher took from the queue with this fate, in order. */
  ghost function Taken(config: Config, events: seq<Event>, fate: Fate): seq<Attestation>
    requires config.Valid()
  {
    if events == [] then []
    else
      var init, last := events[..|events| - 1], events[|events| - 1];
      Taken(config, init, fate) + (if last.Process? then Select(config, Run(config, init).queue, last.current, fate) else [])
  }

  // ---- One more processing run ----

  lemma {:induction false} PlaceAppend(config: Config, data: AttestationData, epochs: seq<Epoch>, current: Epoch, run: nat)
    ensures PlaceOf(config, data, epochs + [current], run) ==
            if !PlaceOf(config, data, epochs, run).Queued? then PlaceOf(config, data, epochs, run)
            else match FateOf(config, data, current)
                 case Keep => KeptAt(run + |epochs|)
                 case Drop => DroppedAt(run + |epochs|)
                 case Defer => Queued
  {
    if epochs == [] {
      assert [current][1..] == [];
      assert PlaceOf(config, data, [], run + 1) == Queued;
    } else {
      assert (epochs + [current])[1..] == epochs[1..] + [current];
      PlaceAppend(config, data, epochs[1..], current, run + 1);
    }
  }

  lemma TicketAppend(config: Config, ticket: Ticket, epochs: seq<Epoch>, current: Epoch)
    requires ticket.arrived <= |epochs|
    ensures var before, after := FateAt(TicketPlace(config, ticket, epochs)), FateAt(TicketPlace(config, ticket, epochs + [current]));
            after == if before == Defer then FateOf(config, ticket.attestation.data, current) else before
  {
    assert (epochs + [current])[ticket.arrived..] == epochs[ticket.arrived..] + [current];
    PlaceAppend(config, ticket.attestation.data, epochs[ticket.arrived..], current, ticket.arrived);
  }

  ghost predicate ArrivedBy(tickets: seq<Ticket>, runs: nat) {
    forall i :: 0 <= i < |tickets| ==> tickets[i].arrived <= runs
  }

  lemma {:induction false} CountAppend(config: Config, tickets: seq<Ticket>, epochs: seq<Epoch>, current: Epoch, a: Attestation, fate: Fate)
    requires ArrivedBy(tickets, |epochs|)
    ensures Count(config, tickets, epochs + [current], a, fate) ==
            (if fate == Defer then 0 else Count(config, tickets, epochs, a, fate))
            + (if FateOf(config, a.data, current) == fate then Count(config, tickets, epochs, a, Defer) else 0)
  {
    if tickets != [] {
      CountAppend(config, tickets[..|tickets| - 1], epochs, current, a, fate);
      TicketAppend(config, tickets[|tickets| - 1], epochs, current);
    }
  }

  lemma {:induction false} SelectCount(config: Config, queue: seq<Attestation>, current: Epoch, fate: Fate, a: Attestation)
    ensures multiset(Select(config, queue, current, fate))[a] == if FateOf(config, a.data, current) == fate then multiset(queue)[a] else 0
  {
    if queue != [] {
      assert queue == queue[..|queue| - 1] + [queue[|queue| - 1]];
      SelectCount(config, queue[..|queue| - 1], current, fate, a);
    }
  }

  lemma {:induction false} CountLate(config: Config, tickets: seq<Ticket>, late: seq<Attestation>, epochs: seq<Epoch>, a: Attestation, fate: Fate)
    ensures Count(config, tickets + LateTickets(late, |epochs|), epochs, a, fate) ==
            Count(config, tickets, epochs, a, fate) + (if fate == Defer then multiset(late)[a] else 0)
  {
    if late == [] {
      assert tickets + LateTickets(late, |epochs|) == tickets;
    } else {
      var init, last := late[..|late| - 1], late[|late| - 1];
      var all := tickets + LateTickets(late, |epochs|);
      assert late == init + [last];
      assert all[..|all| - 1] == tickets + LateTickets(init, |epochs|);
      assert epochs[|epochs|..] == [];
      CountLate(config, tickets, init, epochs, a, fate);
    }
  }

  lemma {:induction false} TicketsArrived(events: seq<Event>)
    ensures ArrivedBy(Tickets(events), |EpochsOf(events)|)
  {
    if events != [] {
      TicketsArrived(events[..|events| - 1]);
    }
  }

  /**
   * Conservation: at any time every acceptance of an attestation is in exactly one place; the
   * queue holds the waiting ones, and the processing runs kept and dropped exactly the others,
   * each once.
   */
  lemma {:induction false} QueueConservation(config: Config, events: seq<Event>, a: Attestation)
    requires config.Valid()
    ensures var tickets, epochs := Tickets(events), EpochsOf(events);
            && multiset(Run(config, events).queue)[a] == Count(config, tickets, epochs, a, Defer)
            && multiset(Taken(config, events, Keep))[a] == Count(config, tickets, epochs, a, Keep)
            && multiset(Taken(config, events, Drop))[a] == Count(config, tickets, epochs, a, Drop)
  {
    hide SlasherState.Step, Select, Count;
    if events == [] {
      NothingYet(config, a);
    } else {
      var init, last := events[..|events| - 1], events[|events| - 1];
      QueueConservation(config, init, a);
      TicketsArrived(init);
      match last {
        case Accept(b) =>
          AcceptCounts(config, events, a);
        case Process(current, late, _) =>
          QueueAfterProcess(config, events);
          ProcessCounts(config, events, a, Defer);
          ProcessCounts(config, events, a, Keep);
          ProcessCounts(config, events, a, Drop);
        case _ =>
          QuietStep(config, events, a);
      }
    }
  }

  lemma NothingYet(config: Config, a: Attestation)
    ensures forall fate :: Count(config, [], [], a, fate) == 0
  {
  }

  lemma QuietStep(config: Config, events: seq<Event>, a: Attestation)
    requires config.Valid() && events != [] && (events[|events| - 1].Prune? || events[|events| - 1].Harvest?)
    ensures var init := events[..|events| - 1];
            && Run(config, events).queue == Run(config, init).queue
            && Tickets(events) == Tickets(init) && EpochsOf(events) == EpochsOf(init)
            && forall fate :: Taken(config, events, fate) == Taken(config, init, fate)
  {
  }

  lemma QueueAfterProcess(config: Config, events: seq<Event>)
    requires config.Valid() && events != [] && events[|events| - 1].Process?
    ensures var queue, last := Run(config, events[..|events| - 1]).queue, events[|events| - 1];
            && multiset(Run(config, events).queue) == multiset(last.late) + multiset(Select(config, queue, last.current, Defer))
            && (forall fate :: multiset(Taken(config, events, fate)) ==
                  multiset(Taken(config, events[..|events| - 1], fate)) + multiset(Select(config, queue, last.current, fate)))
  {
  }

  lemma AcceptCounts(config: Config, events: seq<Event>, a: Attestation)
    requires config.Valid() && events != [] && events[|events| - 1].Accept?
    ensures var init := events[..|events| - 1];
            && multiset(Run(config, events).queue)[a] - multiset(Run(config, init).queue)[a] ==
               Count(config, Tickets(events), EpochsOf(events), a, Defer) - Count(config, Tickets(init), EpochsOf(init), a, Defer)
            && (forall fate :: Taken(config, events, fate) == Taken(config, init, fate))
            && (forall fate :: fate != Defer ==>
                  Count(config, Tickets(events), EpochsOf(events), a, fate) == Count(config, Tickets(init), EpochsOf(init), a, fate))
  {
    var init, b := events[..|events| - 1], events[|events| - 1].attestation;
    assert LateTickets([b], |EpochsOf(init)|) == [Ticket(b, |EpochsOf(init)|)];
    assert EpochsOf(events) == EpochsOf(init);
    forall fate ensures Count(config, Tickets(events), EpochsOf(events), a, fate) ==
                        Count(config, Tickets(init), EpochsOf(init), a, fate) + (if fate == Defer then multiset([b])[a] else 0)
    {
      CountLate(config, Tickets(init), [b], EpochsOf(init), a, fate);
    }
    forall fate ensures Taken(config, events, fate) == Taken(config, init, fate) {
    }
    assert Run(config, events).queue == Run(config, init).queue + [b];
  }

  lemma ProcessCounts(config: Config, events: seq<Event>, a: Attestation, fate: Fate)
    requires config.Valid() && events != [] && events[|events| - 1].Process?
    requires var init := events[..|events| - 1];
             && ArrivedBy(Tickets(init), |EpochsOf(init)|)
             && multiset(Run(config, init).queue)[a] == Count(config, Tickets(init), EpochsOf(init), a, Defer)
    ensures var init, last := events[..|events| - 1], events[|events| - 1];
            var selected := multiset(Select(config, Run(config, init).queue, last.current, fate))[a];
            Count(config, Tickets(events), EpochsOf(events), a, fate) ==
            selected + (if fate == Defer then multiset(last.late)[a] else Count(config, Tickets(init), EpochsOf(init), a, fate))
  {
    var init, last := events[..|events| - 1], events[|events| - 1];
    CountLate(config, Tickets(init), last.late, EpochsOf(events), a, fate);
    CountAppend(config, Tickets(init), EpochsOf(init), last.current, a, fate);
    SelectCount(config, Run(config, init).queue, last.current, fate, a);
  }

  /**
   * The order of the queue: an accepted attestation goes to the end, and a processing run leaves
   * what arrived meanwhile followed by what it deferred, both in their old order.
   */
  lemma QueueOrder(config: Config, events: seq<Event>) returns (picks: seq<nat>)
    requires config.Valid() && events != []
    ensures var queue, queue', last := Run(config, events[..|events| - 1]).queue, Run(config, events).queue, events[|events| - 1];
            match last
            case Accept(a) => |queue'| == |queue| + 1 && queue'[|queue|] == a && forall k :: 0 <= k < |queue| ==> queue'[k] == queue[k]
            case Process(current, late, _) =>
              && |late| <= |queue'| && (forall k :: 0 <= k < |late| ==> queue'[k] == late[k])
              && PickedFrom(queue, queue'[|late|..], picks)
              && (forall k :: 0 <= k < |queue| ==> (k in picks <==> FateOf(config, queue[k].data, current) == Defer))
            case _ => queue' == queue
  {
    hide ProcessSubqueues, Subqueues, ArrayLog;
    var queue, last := Run(config, events[..|events| - 1]).queue, events[|events| - 1];
    picks := [];
    if last.Process? {
      picks := SelectInOrder(config, queue, last.current, Defer);
      assert Run(config, events).queue[|last.late|..] == Select(config, queue, last.current, Defer);
    }
  }

  // ---- Exactly when an attestation is kept ----

  predicate NonDecreasing(epochs: seq<Epoch>) {
    forall i, j :: 0 <= i <= j < |epochs| ==> epochs[i] <= epochs[j]
  }

  /**
   * An attestation is kept by a processing run exactly when that is the first run whose epoch
   * has reached the target and the source has not left the history by then; it waits exactly as
   * long as neither has happened.
   */
  lemma {:induction false} KeptExactly(config: Config, data: AttestationData, epochs: seq<Epoch>, run: nat, i: nat)
    requires NonDecreasing(epochs)
    ensures PlaceOf(config, data, epochs, run) == KeptAt(run + i) <==>
              && i < |epochs|
              && data.source <= data.target <= epochs[i] < data.source + config.historyLength
              && forall j :: 0 <= j < i ==> epochs[j] < data.target
    ensures PlaceOf(config, data, epochs, run) == Queued <==>
              forall j :: 0 <= j < |epochs| ==>
                data.source <= data.target && epochs[j] < data.target && epochs[j] < data.source + config.historyLength
    ensures PlaceOf(config, data, epochs, run).KeptAt? ==> run <= PlaceOf(config, data, epochs, run).run
  {
    if epochs != [] {
      var rest := epochs[1..];
      assert forall j :: 0 <= j < |rest| ==> rest[j] == epochs[j + 1];
      if i == 0 {
        KeptExactly(config, data, rest, run + 1, 0);
      } else {
        KeptExactly(config, data, rest, run + 1, i - 1);
      }
    }
  }

  lemma {:induction false} OrderedEpochs(config: Config, events: seq<Event>)
    requires config.Valid() && Ordered(config, events)
    ensures NonDecreasing(EpochsOf(events))
    ensures forall i :: 0 <= i < |EpochsOf(events)| ==> EpochsOf(events)[i] <= Run(config, events).now
  {
    hide Select, ProcessSubqueues;
    if events != [] {
      OrderedEpochs(config, events[..|events| - 1]);
    }
  }

  /** The same for an acceptance of a whole run: it is kept at the first processing run after it that reaches the target, if in time. */
  lemma TicketKeptExactly(config: Config, events: seq<Event>, ticket: Ticket, run: nat)
    requires config.Valid() && Ordered(config, events) && ticket in Tickets(events) && ticket.arrived <= run
    ensures var epochs, data := EpochsOf(events), ticket.attestation.data;
            TicketPlace(config, ticket, epochs) == KeptAt(run) <==>
              && run < |epochs|
              && data.source <= data.target <= epochs[run] < data.source + config.historyLength
              && forall j :: ticket.arrived <= j < run ==> epochs[j] < data.target
  {
    var epochs, data := EpochsOf(events), ticket.attestation.data;
    OrderedEpochs(config, events);
    TicketsArrived(events);
    var since := epochs[ticket.arrived..];
    KeptExactly(config, data, since, ticket.arrived, run - ticket.arrived);
    assert forall j :: 0 <= j < |since| ==> since[j] == epochs[ticket.arrived + j];
    if run < |epochs| && forall j :: 0 <= j < run - ticket.arrived ==> since[j] < data.target {
      forall j | ticket.arrived <= j < run ensures epochs[j] < data.target {
        assert since[j - ticket.arrived] == epochs[j];
      }
    }
  }

  /** What the detection theorems speak about: exactly the kept acceptances. */
  lemma {:induction false} SeenIsKept(config: Config, events: seq<Event>, a: Attestation)
    requires config.Valid()
    ensures a in Run(config, events).seen <==> a in Taken(config, events, Keep)
  {
    if events != [] {
      SeenIsKept(config, events[..|events| - 1], a);
    }
  }
}
