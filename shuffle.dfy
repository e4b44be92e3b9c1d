/**
 * Shuffling. A foreign shuffle (lodash's `shuffle`, a Fisher-Yates variant
 * driven by `Math.random`) is modelled by the swaps it performs, which stand
 * for its random choices; the in-place Fisher-Yates loop of the
 * identification game is given its random indices explicitly.
 */
module Shuffle {

  /** Exchange two positions; a pair outside the sequence leaves it unchanged. */
  function Swap<T>(s: seq<T>, i: nat, j: nat): (r: seq<T>)
    ensures |r| == |s|
    ensures i < |s| && j < |s| ==> r[i] == s[j] && r[j] == s[i]
  {
    if i < |s| && j < |s| then s[i := s[j]][j := s[i]] else s
  }

  /** An exchange only reorders. */
  lemma SwapPermutes<T>(s: seq<T>, i: nat, j: nat)
    ensures multiset(Swap(s, i, j)) == multiset(s)
  {
  }

  /** Apply the swaps in order. */
  function ApplySwaps<T>(s: seq<T>, swaps: seq<(nat, nat)>): (r: seq<T>)
    ensures |r| == |s|
    ensures multiset(r) == multiset(s)
    decreases |swaps|
  {
    if |swaps| == 0 then s
    else
      SwapPermutes(s, swaps[0].0, swaps[0].1);
      ApplySwaps(Swap(s, swaps[0].0, swaps[0].1), swaps[1..])
  }

  /** The downward Fisher-Yates pass from index `i` to index 1, position k swapped with `picks[k]`. */
  function ShuffleDown<T>(s: seq<T>, picks: seq<nat>, i: nat): (r: seq<T>)
    requires i < |picks|
    ensures |r| == |s|
    decreases i
  {
    if i == 0 then s else ShuffleDown(Swap(s, i, picks[i]), picks, i - 1)
  }

  /** The whole pass over `s`, from its last index down to 1. */
  function FisherYates<T>(s: seq<T>, picks: seq<nat>): (r: seq<T>)
    requires |picks| == |s|
    ensures |r| == |s|
  {
    if |s| == 0 then s else ShuffleDown(s, picks, |s| - 1)
  }

  lemma {:induction false} ShuffleDownPermutes<T>(s: seq<T>, picks: seq<nat>, i: nat)
    requires i < |picks|
    ensures multiset(ShuffleDown(s, picks, i)) == multiset(s)
    decreases i
  {
    if i > 0 {
      SwapPermutes(s, i, picks[i]);
      ShuffleDownPermutes(Swap(s, i, picks[i]), picks, i - 1);
    }
  }

  /** The Fisher-Yates pass is a permutation, whatever the picks. */
  lemma FisherYatesPermutes<T>(s: seq<T>, picks: seq<nat>)
    requires |picks| == |s|
    ensures multiset(FisherYates(s, picks)) == multiset(s)
  {
    if |s| > 0 {
      ShuffleDownPermutes(s, picks, |s| - 1);
    }
  }
}
