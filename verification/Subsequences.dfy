/** Subsequences, described by the positions they are taken from. */
module Subsequences {

  /** `part` is `whole` at the positions `picks`, which only go up: same order, nothing twice. */
  ghost predicate PickedFrom<T>(whole: seq<T>, part: seq<T>, picks: seq<nat>) {
    && |part| == |picks|
    && (forall i :: 0 <= i < |picks| ==> picks[i] < |whole| && part[i] == whole[picks[i]])
    && (forall i, j :: 0 <= i < j < |picks| ==> picks[i] < picks[j])
  }

  /** One more element of the whole, picked or passed over. */
  lemma PickNext<T>(whole: seq<T>, part: seq<T>, picks: seq<nat>, x: T)
    requires PickedFrom(whole, part, picks)
    ensures PickedFrom(whole + [x], part, picks)
    ensures PickedFrom(whole + [x], part + [x], picks + [|whole|])
  {
  }

  /** The last element of the whole was picked last or not at all. */
  lemma PickedLast<T>(whole: seq<T>, part: seq<T>, picks: seq<nat>)
    requires PickedFrom(whole, part, picks) && whole != []
    ensures var n, m := |whole| - 1, |picks| - 1;
            if n in picks then
              && part != [] && picks[m] == n
              && part == part[..m] + [whole[n]] && PickedFrom(whole[..n], part[..m], picks[..m])
              && (forall k :: k in picks && k != n ==> k in picks[..m])
            else
              PickedFrom(whole[..n], part, picks)
  {
    var n, m := |whole| - 1, |picks| - 1;
    if n in picks {
      var i :| 0 <= i < |picks| && picks[i] == n;
      assert picks[i] <= picks[m];
      assert picks == picks[..m] + [n];
    }
  }

  /** An element all of whose positions are picked occurs equally often in both. */
  lemma {:induction false} PickedCount<T>(whole: seq<T>, part: seq<T>, picks: seq<nat>, x: T)
    requires PickedFrom(whole, part, picks)
    requires forall k :: 0 <= k < |whole| && whole[k] == x ==> k in picks
    ensures multiset(part)[x] == multiset(whole)[x]
  {
    if whole != [] {
      hide PickedFrom;
      var n, m := |whole| - 1, |picks| - 1;
      PickedLast(whole, part, picks);
      assert whole == whole[..n] + [whole[n]];
      if n in picks {
        PickedCount(whole[..n], part[..m], picks[..m], x);
      } else {
        PickedCount(whole[..n], part, picks, x);
      }
    }
  }
}
