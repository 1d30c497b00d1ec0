/**
 * What the cells of the min-target and max-target arrays mean: for an epoch e, the smallest
 * target among accepted votes with a later source, or the largest target among accepted votes
 * with an earlier source, clamped to what a 16-bit distance from e can express.
 */
module TargetBounds {
  import opened Types

  const MAX_DISTANCE: nat := 65535

  /** A 16-bit distance from an epoch to a target. */
  type Distance = d: nat | d <= MAX_DISTANCE

  datatype Vote = Vote(source: Epoch, target: Epoch)

  datatype Kind = Min | Max {

    /** The distance stored in a cell that no vote has touched. */
    function Neutral(): Distance {
      match this
      case Min => MAX_DISTANCE
      case Max => 0
    }

    /** Whether `target` would improve a cell that currently holds `value`. */
    predicate Improves(target: Epoch, value: Epoch) {
      match this
      case Min => target < value
      case Max => value < target
    }

    /** Whether a vote with this source counts for the cell of epoch `e`. */
    predicate Covers(source: Epoch, e: Epoch) {
      match this
      case Min => e < source
      case Max => source < e
    }

    /** Whether a cell value convicts a new vote with this target. */
    predicate Convicts(value: Epoch, target: Epoch) {
      match this
      case Min => value < target
      case Max => target < value
    }

    /** No vote is convicted by an earlier one: an array that only accepts what it does not convict. */
    ghost predicate Ordered(votes: seq<Vote>) {
      forall i, j :: 0 <= i < j < |votes| ==>
        !(Covers(votes[i].source, votes[j].source) && Convicts(votes[i].target, votes[j].target))
    }

    function Improve(value: Epoch, vote: Vote, e: Epoch): Epoch {
      if Covers(vote.source, e) && Improves(vote.target, value) then vote.target else value
    }

    /** The value of the cell for epoch `e` after accepting `votes` in order. */
    function Bound(votes: seq<Vote>, e: Epoch): Epoch {
      if votes == [] then e + Neutral()
      else Improve(Bound(votes[..|votes| - 1], e), votes[|votes| - 1], e)
    }

    lemma BoundAppend(votes: seq<Vote>, vote: Vote, e: Epoch)
      ensures Bound(votes + [vote], e) == Improve(Bound(votes, e), vote, e)
    {
      assert (votes + [vote])[..|votes|] == votes;
    }

    /**
     * The bound is exactly the clamped extremum: no covering vote beats it, it never leaves the
     * neutral value in the wrong direction, and it is either neutral or some covering vote's target.
     */
    lemma {:induction false} BoundIsExtremum(votes: seq<Vote>, e: Epoch)
      ensures !Improves(e + Neutral(), Bound(votes, e))
      ensures forall vote :: vote in votes && Covers(vote.source, e) ==> !Improves(vote.target, Bound(votes, e))
      ensures Bound(votes, e) == e + Neutral()
              || exists vote :: vote in votes && Covers(vote.source, e) && vote.target == Bound(votes, e)
    {
      if votes != [] {
        var init, last := votes[..|votes| - 1], votes[|votes| - 1];
        BoundIsExtremum(init, e);
        assert votes == init + [last];
        if Bound(votes, e) != Bound(init, e) {
          assert last in votes;
        }
      }
    }

    /** Both arrays are non-decreasing in the epoch. */
    lemma {:induction false} BoundMonotone(votes: seq<Vote>, e: Epoch, e': Epoch)
      requires e <= e'
      ensures Bound(votes, e) <= Bound(votes, e')
    {
      if votes != [] {
        BoundMonotone(votes[..|votes| - 1], e, e');
        match this {
          case Min =>
          case Max => BoundAtLeastEpoch(votes[..|votes| - 1], e');
        }
      }
    }

    lemma {:induction false} BoundAtLeastEpoch(votes: seq<Vote>, e: Epoch)
      requires Max?
      ensures e <= Bound(votes, e)
    {
      if votes != [] {
        BoundAtLeastEpoch(votes[..|votes| - 1], e);
      }
    }

    /** No vote seen by epoch `p` matters to a cell at or beyond `p`. */
    lemma {:induction false} BoundNeutralFrom(votes: seq<Vote>, p: Epoch, e: Epoch)
      requires p <= e
      requires forall vote :: vote in votes ==> vote.source <= vote.target <= p
      ensures Bound(votes, e) == e + Neutral()
    {
      if votes != [] {
        BoundNeutralFrom(votes[..|votes| - 1], p, e);
        assert votes[|votes| - 1] in votes;
      }
    }

    /** A convicting cell is not neutral, so some accepted vote has exactly that target. */
    lemma ConvictionHasWitness(votes: seq<Vote>, source: Epoch, target: Epoch) returns (vote: Vote)
      requires source <= target <= source + MAX_DISTANCE
      requires Convicts(Bound(votes, source), target)
      ensures vote in votes && Covers(vote.source, source) && vote.target == Bound(votes, source)
    {
      BoundIsExtremum(votes, source);
      vote :| vote in votes && Covers(vote.source, source) && vote.target == Bound(votes, source);
    }
  }
}
