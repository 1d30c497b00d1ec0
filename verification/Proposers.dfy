/** Proposer slashings: one signed header per (slot, proposer), anything else for that key is evidence. */
module Proposers {
  import opened Types
  import opened Configuration
  import opened DatabaseKeys

  /** A signed block header; `rest` stands for the roots and the signature. */
  datatype SignedHeader = SignedHeader(slot: nat, proposer: Validator, rest: nat) {
    predicate Fits() {
      slot < Pow256(8) && proposer < Pow256(8)
    }

    function Key(): ProposerKey {
      ProposerKey.New(proposer, slot)
    }
  }

  datatype ProposerSlashing = ProposerSlashing(header1: SignedHeader, header2: SignedHeader) {
    predicate IsDoubleProposal() {
      header1 != header2 && header1.slot == header2.slot && header1.proposer == header2.proposer
    }
  }

  lemma KeyIdentifies(a: SignedHeader, b: SignedHeader)
    requires a.Fits() && b.Fits()
    ensures a.Key() == b.Key() <==> a.slot == b.slot && a.proposer == b.proposer
  {
    ProposerKey.RoundTrips(a.proposer, a.slot);
    ProposerKey.RoundTrips(b.proposer, b.slot);
  }

  lemma KeyParses(header: SignedHeader)
    requires header.Fits()
    ensures |header.Key().data| == 16
    ensures ProposerKey.Parse(header.Key().data) == Some((header.slot, header.proposer))
  {
    ProposerKey.RoundTrips(header.proposer, header.slot);
  }

  /** The table is kept in slot order. */
  lemma KeyOrder(a: SignedHeader, b: SignedHeader)
    requires a.Fits() && b.Fits()
    requires a.Key() == b.Key() || Before(a.Key().data, b.Key().data)
    ensures a.slot <= b.slot
  {
    if a.Key() == b.Key() {
      KeyIdentifies(a, b);
    } else {
      KeysInLeadingOrder(a.slot, BigEndian(a.proposer, 8), b.slot, BigEndian(b.proposer, 8));
    }
  }

  lemma {:induction false} BeforeTotal(a: Bytes, b: Bytes)
    requires a != b && |a| == |b|
    ensures Before(a, b) || Before(b, a)
  {
    if a[0] == b[0] {
      assert a == [a[0]] + a[1..] && b == [b[0]] + b[1..];
      BeforeTotal(a[1..], b[1..]);
    }
  }

  lemma {:induction false} BeforeTransitive(a: Bytes, b: Bytes, c: Bytes)
    requires Before(a, b) && Before(b, c)
    ensures Before(a, c)
  {
    if a != [] && a[0] == b[0] == c[0] {
      BeforeTransitive(a[1..], b[1..], c[1..]);
    }
  }

  /** Where the cursor starts: no key comes before this one. */
  ghost predicate IsFirst(key: ProposerKey, keys: set<ProposerKey>) {
    key in keys && forall k :: k in keys ==> k == key || Before(key.data, k.data)
  }

  lemma {:induction false} FirstKey(keys: set<ProposerKey>) returns (key: ProposerKey)
    requires keys != {} && forall k :: k in keys ==> |k.data| == 16
    ensures IsFirst(key, keys)
  {
    hide Before;
    var x :| x in keys;
    var rest := keys - {x};
    assert forall k :: k in keys ==> k == x || k in rest;
    key := x;
    if rest != {} {
      var m := FirstKey(rest);
      BeforeTotal(m.data, x.data);
      if Before(m.data, x.data) {
        key := m;
      } else {
        forall k | k in rest && k != m ensures Before(x.data, k.data) {
          BeforeTransitive(x.data, m.data, k.data);
        }
      }
    }
  }

  ghost function KeysOf(headers: set<SignedHeader>): set<ProposerKey> {
    set header | header in headers :: header.Key()
  }

  /** The headers that are already stored. */
  ghost function Known(table: map<ProposerKey, SignedHeader>, headers: set<SignedHeader>): set<SignedHeader> {
    set header | header in headers && header.Key() in table && table[header.Key()] == header
  }

  /** `table` is `start` with the headers `done` put in where their key was free. */
  ghost predicate Filled(start: map<ProposerKey, SignedHeader>, table: map<ProposerKey, SignedHeader>, done: set<SignedHeader>) {
    && table.Keys == start.Keys + KeysOf(done)
    && (forall key :: key in start ==> table[key] == start[key])
    && (forall key :: key in table && key !in start ==> table[key] in done)
  }

  /** Every slashing pairs a processed header with the different one stored for its slot and proposer. */
  ghost predicate Evidence(table: map<ProposerKey, SignedHeader>, done: set<SignedHeader>, slashings: seq<ProposerSlashing>) {
    forall i :: 0 <= i < |slashings| ==>
      && slashings[i].IsDoubleProposal()
      && slashings[i].header2 in done
      && slashings[i].header2.Key() in table
      && slashings[i].header1 == table[slashings[i].header2.Key()]
  }

  /** No second proposal is missed: a processed header is the stored one or is paired with it. */
  ghost predicate Complete(table: map<ProposerKey, SignedHeader>, done: set<SignedHeader>, slashings: seq<ProposerSlashing>) {
    forall header :: header in done ==>
      && header.Key() in table
      && (table[header.Key()] == header || ProposerSlashing(table[header.Key()], header) in slashings)
  }

  lemma CompleteStep(before: map<ProposerKey, SignedHeader>, table: map<ProposerKey, SignedHeader>,
                     done: set<SignedHeader>, slashings: seq<ProposerSlashing>, header: SignedHeader,
                     found: seq<ProposerSlashing>)
    requires Complete(before, done, slashings) && Checked(before, table, header, found)
    ensures Complete(table, done + {header}, slashings + found)
  {
    hide SignedHeader.Key, ProposerSlashing.IsDoubleProposal;
    assert forall s :: s in slashings || s in found ==> s in slashings + found;
  }

  ghost predicate Accounted(start: map<ProposerKey, SignedHeader>, keys: set<ProposerKey>, done: set<SignedHeader>,
                            slashings: seq<ProposerSlashing>)
  {
    |done| == |slashings| + |keys - start.Keys| + |Known(start, done)|
  }

  lemma OneMore(start: map<ProposerKey, SignedHeader>, done: set<SignedHeader>, header: SignedHeader)
    requires header !in done
    ensures KeysOf(done + {header}) == KeysOf(done) + {header.Key()}
    ensures |Known(start, done + {header})| ==
            |Known(start, done)| + if header.Key() in start && start[header.Key()] == header then 1 else 0
  {
    hide SignedHeader.Key;
    var known := if header.Key() in start && start[header.Key()] == header then {header} else {};
    assert Known(start, done + {header}) == Known(start, done) + known;
  }

  lemma NothingProcessed(table: map<ProposerKey, SignedHeader>, blocks: set<SignedHeader>)
    ensures Progress(table, table, {}, blocks, [])
  {
    assert table.Keys - table.Keys == {} && Known(table, {}) == {} && KeysOf({}) == {};
  }

  lemma AllProcessed(start: map<ProposerKey, SignedHeader>, table: map<ProposerKey, SignedHeader>, done: set<SignedHeader>,
                slashings: seq<ProposerSlashing>)
    requires Progress(start, table, done, done, slashings)
    ensures Evidence(table, done, slashings) && Complete(table, done, slashings)
    ensures table.Keys == start.Keys + KeysOf(done)
    ensures forall key :: key in start ==> table[key] == start[key]
    ensures |slashings| == |done| - |KeysOf(done) - start.Keys| - |Known(start, done)|
  {
    hide SignedHeader.Key, KeysOf, Known, Evidence, Complete;
    assert table.Keys - start.Keys == KeysOf(done) - start.Keys;
  }

  lemma FillNew(start: map<ProposerKey, SignedHeader>, table: map<ProposerKey, SignedHeader>, done: set<SignedHeader>,
                header: SignedHeader)
    requires Filled(start, table, done) && header !in done && header.Key() !in table
    ensures Filled(start, table[header.Key() := header], done + {header})
  {
    hide SignedHeader.Key, KeysOf, Known;
    OneMore(start, done, header);
    assert table[header.Key() := header].Keys == start.Keys + KeysOf(done + {header});
  }

  lemma OneMoreKey<T>(start: set<T>, before: set<T>, after: set<T>, key: T)
    requires start <= before && key !in before && after == before + {key}
    ensures |after - start| == |before - start| + 1
  {
    assert after - start == (before - start) + {key};
  }

  lemma CountNew(start: map<ProposerKey, SignedHeader>, keys: set<ProposerKey>, done: set<SignedHeader>,
                 slashings: seq<ProposerSlashing>, header: SignedHeader)
    requires Accounted(start, keys, done, slashings)
    requires header !in done && header.Key() !in keys && start.Keys <= keys
    ensures Accounted(start, keys + {header.Key()}, done + {header}, slashings)
  {
    hide SignedHeader.Key, KeysOf, Known;
    OneMoreKey(start.Keys, keys, keys + {header.Key()}, header.Key());
    OneMore(start, done, header);
  }

  lemma StartKept(start: map<ProposerKey, SignedHeader>, table: map<ProposerKey, SignedHeader>, done: set<SignedHeader>)
    requires Filled(start, table, done)
    ensures start.Keys <= table.Keys
  {
  }

  lemma EvidenceKept(table: map<ProposerKey, SignedHeader>, blocks: set<SignedHeader>, slashings: seq<ProposerSlashing>,
                     header: SignedHeader)
    requires Evidence(table, blocks, slashings) && header.Key() !in table
    ensures Evidence(table[header.Key() := header], blocks, slashings)
  {
  }

  lemma EvidenceGrows(table: map<ProposerKey, SignedHeader>, blocks: set<SignedHeader>, slashings: seq<ProposerSlashing>,
                      header: SignedHeader)
    requires Evidence(table, blocks, slashings) && header.Key() in table && header in blocks
    requires ProposerSlashing(table[header.Key()], header).IsDoubleProposal()
    ensures Evidence(table, blocks, slashings + [ProposerSlashing(table[header.Key()], header)])
  {
  }

  lemma FillSame(start: map<ProposerKey, SignedHeader>, table: map<ProposerKey, SignedHeader>, done: set<SignedHeader>,
                 slashings: seq<ProposerSlashing>, header: SignedHeader, found: seq<ProposerSlashing>)
    requires Filled(start, table, done) && Accounted(start, table.Keys, done, slashings)
    requires header !in done && header.Key() in table
    requires |found| == if table[header.Key()] == header then 0 else 1
    ensures Filled(start, table, done + {header})
    ensures Accounted(start, table.Keys, done + {header}, slashings + found)
  {
    hide SignedHeader.Key, KeysOf, Known;
    OneMore(start, done, header);
    assert table.Keys == start.Keys + (KeysOf(done) + {header.Key()});
  }

  ghost predicate Progress(start: map<ProposerKey, SignedHeader>, table: map<ProposerKey, SignedHeader>,
                           done: set<SignedHeader>, blocks: set<SignedHeader>, slashings: seq<ProposerSlashing>)
  {
    && Filled(start, table, done)
    && Accounted(start, table.Keys, done, slashings)
    && Evidence(table, blocks, slashings)
    && Complete(table, done, slashings)
  }

  /** One header: it takes the free key, or is the stored one, or is paired with the stored one. */
  ghost predicate Checked(before: map<ProposerKey, SignedHeader>, table: map<ProposerKey, SignedHeader>,
                          header: SignedHeader, found: seq<ProposerSlashing>)
  {
    if header.Key() !in before then
      table == before[header.Key() := header] && found == []
    else if before[header.Key()] == header then
      table == before && found == []
    else
      && table == before
      && found == [ProposerSlashing(before[header.Key()], header)]
      && found[0].IsDoubleProposal()
  }

  lemma ProgressStep(start: map<ProposerKey, SignedHeader>, before: map<ProposerKey, SignedHeader>,
                     table: map<ProposerKey, SignedHeader>, done: set<SignedHeader>, blocks: set<SignedHeader>,
                     slashings: seq<ProposerSlashing>, header: SignedHeader, found: seq<ProposerSlashing>)
    requires Progress(start, before, done, blocks, slashings) && Checked(before, table, header, found)
    requires header in blocks && header !in done
    ensures Progress(start, table, done + {header}, blocks, slashings + found)
  {
    hide SignedHeader.Key, ProposerSlashing.IsDoubleProposal, Filled, Accounted, Evidence, Complete;
    CompleteStep(before, table, done, slashings, header, found);
    assert slashings + [] == slashings;
    if header.Key() !in before {
      StartKept(start, before, done);
      FillNew(start, before, done, header);
      CountNew(start, before.Keys, done, slashings, header);
      assert table.Keys == before.Keys + {header.Key()};
      EvidenceKept(before, blocks, slashings, header);
    } else {
      FillSame(start, before, done, slashings, header, found);
      if before[header.Key()] != header {
        EvidenceGrows(before, blocks, slashings, header);
      }
    }
  }

  class ProposerTable {
    const config: Config
    const slotsPerEpoch: nat
    var table: map<ProposerKey, SignedHeader>

    ghost predicate Valid()
      reads this
    {
      config.Valid() && forall key :: key in table ==> table[key].Fits() && table[key].Key() == key
    }

    constructor (config: Config, slotsPerEpoch: nat)
      requires config.Valid()
      ensures Valid() && table == map[] && this.config == config && this.slotsPerEpoch == slotsPerEpoch
    {
      this.config := config;
      this.slotsPerEpoch := slotsPerEpoch;
      table := map[];
    }

    /** The first header for a key is stored; a different later one is evidence against the proposer. */
    method CheckOrInsertBlockProposal(header: SignedHeader) returns (slashing: Option<ProposerSlashing>)
      requires Valid() && header.Fits()
      modifies this`table
      ensures Valid()
      ensures table == if header.Key() in old(table) then old(table) else old(table)[header.Key() := header]
      ensures slashing.Some? <==> header.Key() in old(table) && old(table)[header.Key()] != header
      ensures slashing.Some? ==>
                slashing.value == ProposerSlashing(old(table)[header.Key()], header) && slashing.value.IsDoubleProposal()
    {
      var key := header.Key();
      if key in table {
        var existing := table[key];
        if existing == header {
          slashing := None;
        } else {
          KeyIdentifies(existing, header);
          slashing := Some(ProposerSlashing(existing, header));
        }
      } else {
        table := table[key := header];
        slashing := None;
      }
    }

    /**
     * Process the queued headers in any order. Every header either fills a new key, equals the
     * stored one, or yields exactly one slashing, so the number found does not depend on the order.
     */
    method ProcessBlocks(blocks: set<SignedHeader>) returns (slashings: seq<ProposerSlashing>)
      requires Valid() && forall header :: header in blocks ==> header.Fits()
      modifies this`table
      ensures Valid()
      ensures table.Keys == old(table).Keys + KeysOf(blocks)
      ensures forall key :: key in old(table) ==> table[key] == old(table)[key]
      ensures |slashings| == |blocks| - |KeysOf(blocks) - old(table).Keys| - |Known(old(table), blocks)|
      ensures Evidence(table, blocks, slashings) && Complete(table, blocks, slashings)
    {
      hide SignedHeader.Key, SignedHeader.Fits, Progress, Evidence, Complete;
      slashings := [];
      var remaining := blocks;
      ghost var done: set<SignedHeader> := {};
      NothingProcessed(table, blocks);
      while remaining != {}
        invariant Valid()
        invariant remaining <= blocks && done == blocks - remaining
        invariant Progress(old(table), table, done, blocks, slashings)
        decreases remaining
      {
        var header :| header in remaining;
        ghost var before := table;
        var slashing := CheckOrInsertBlockProposal(header);
        ProgressStep(old(table), before, table, done, blocks, slashings, header,
                     if slashing.Some? then [slashing.value] else []);
        slashings := slashings + if slashing.Some? then [slashing.value] else [];
        remaining := remaining - {header};
        assert blocks - remaining == done + {header};
        done := blocks - remaining;
      }
      assert done == blocks;
      AllProcessed(old(table), table, blocks, slashings);
    }

    /** Deleting from the first key on while the slot is too old leaves exactly the slots still in the history. */
    method PruneProposers(current: Epoch)
      requires Valid()
      modifies this`table
      ensures Valid()
      ensures forall key :: key in table <==>
                key in old(table)
                && (if current + 1 < config.historyLength then 0 else current + 1 - config.historyLength) * slotsPerEpoch <= old(table)[key].slot
      ensures forall key :: key in table ==> table[key] == old(table)[key]
    {
      hide SignedHeader.Key, SignedHeader.Fits, Before, ProposerKey.Parse;
      var oldest := if current + 1 < config.historyLength then 0 else current + 1 - config.historyLength;
      var minSlot := oldest * slotsPerEpoch;
      while table.Keys != {}
        invariant Valid()
        invariant forall key :: key in table ==> key in old(table) && table[key] == old(table)[key]
        invariant forall key :: key in old(table) && key !in table ==> old(table)[key].slot < minSlot
        decreases table.Keys
      {
        forall key | key in table ensures |key.data| == 16 {
          KeyParses(table[key]);
        }
        ghost var least := FirstKey(table.Keys);
        var first :| first in table.Keys && forall k :: k in table.Keys ==> k == first || Before(first.data, k.data);
        KeyParses(table[first]);
        if ProposerKey.Parse(first.data).value.0 < minSlot {
          table := table - {first};
        } else {
          forall key | key in table ensures minSlot <= table[key].slot {
            KeyOrder(table[first], table[key]);
          }
          break;
        }
      }
    }
  }
}
