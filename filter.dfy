/**
 * `Array.prototype.filter` on a list: the elements satisfying a predicate,
 * in their original order.
 */
module Filtering {

  /**
   * `idx` maps each position of `r` to a position of `s` holding the same
   * element, and the positions it picks strictly increase.
   */
  ghost predicate EmbedsBy<T>(r: seq<T>, s: seq<T>, idx: seq<nat>)
  {
    && |idx| == |r|
    && (forall k :: 0 <= k < |idx| ==> idx[k] < |s| && r[k] == s[idx[k]])
    && (forall k, m :: 0 <= k < m < |idx| ==> idx[k] < idx[m])
  }

  /** `r` is `s` with some elements left out and the rest in their order. */
  ghost predicate Subsequence<T>(r: seq<T>, s: seq<T>)
  {
    exists idx :: EmbedsBy(r, s, idx)
  }

  function Keep<T(!new)>(s: seq<T>, p: T -> bool): (r: seq<T>)
    ensures |r| <= |s|
    ensures forall x :: x in r <==> x in s && p(x)
  {
    if |s| == 0 then []
    else
      assert s == [s[0]] + s[1..];
      if p(s[0]) then [s[0]] + Keep(s[1..], p)
      else Keep(s[1..], p)
  }

  /** `filter` keeps each passing element as often as it occurs, and no other. */
  lemma {:induction false} KeepCount<T(!new)>(s: seq<T>, p: T -> bool, x: T)
    ensures multiset(Keep(s, p))[x] == if p(x) then multiset(s)[x] else 0
  {
    if |s| > 0 {
      KeepCount(s[1..], p, x);
      assert s == [s[0]] + s[1..];
    }
  }

  /** Putting an element in front of the longer sequence keeps the embedding. */
  lemma SubsequenceUnderCons<T>(r: seq<T>, s: seq<T>, x: T)
    requires Subsequence(r, s)
    ensures Subsequence(r, [x] + s)
    ensures Subsequence([x] + r, [x] + s)
  {
    var idx :| EmbedsBy(r, s, idx);
    var shifted := seq(|idx|, k requires 0 <= k < |idx| => idx[k] + 1);
    assert EmbedsBy(r, [x] + s, shifted);
    var consed := [0] + shifted;
    assert forall k :: 0 < k < |consed| ==> consed[k] == shifted[k - 1];
    assert EmbedsBy([x] + r, [x] + s, consed);
  }

  /** `filter` keeps the passing elements in their original order. */
  lemma {:induction false} KeepIsSubsequence<T(!new)>(s: seq<T>, p: T -> bool)
    ensures Subsequence(Keep(s, p), s)
  {
    if |s| == 0 {
      assert EmbedsBy(Keep(s, p), s, []);
    } else {
      KeepIsSubsequence(s[1..], p);
      SubsequenceUnderCons(Keep(s[1..], p), s[1..], s[0]);
      assert [s[0]] + s[1..] == s;
    }
  }

  lemma SubsequenceOfItself<T>(s: seq<T>)
    ensures Subsequence(s, s)
  {
    var idx := seq(|s|, k requires 0 <= k < |s| => k);
    assert EmbedsBy(s, s, idx);
  }

  /** Leaving out from what was already left out from leaves out from the original. */
  lemma SubsequenceTransitive<T>(a: seq<T>, b: seq<T>, c: seq<T>)
    requires Subsequence(a, b) && Subsequence(b, c)
    ensures Subsequence(a, c)
  {
    var ab :| EmbedsBy(a, b, ab);
    var bc :| EmbedsBy(b, c, bc);
    var ac := seq(|ab|, k requires 0 <= k < |ab| => bc[ab[k]]);
    assert EmbedsBy(a, c, ac);
  }

  /** Filtering twice with the same test is filtering once. */
  lemma {:induction false} KeepTwice<T(!new)>(s: seq<T>, p: T -> bool)
    ensures Keep(Keep(s, p), p) == Keep(s, p)
  {
    if |s| > 0 {
      KeepTwice(s[1..], p);
      if p(s[0]) {
        assert ([s[0]] + Keep(s[1..], p))[1..] == Keep(s[1..], p);
      }
    }
  }
}
