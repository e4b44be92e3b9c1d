/** The hint budget every game shares: one hint is spent per request, never below zero. */
module Hints {

  /** `hintsRemaining >= 1 ? hintsRemaining - 1 : 0` */
  function NextHints(h: nat): (r: nat)
    ensures r <= h
    ensures h > 0 ==> r + 1 == h
    ensures h == 0 ==> r == 0
  {
    if h >= 1 then h - 1 else 0
  }

  /** Any number of requests spends at most that many hints and never goes negative. */
  function AfterRequests(h: nat, n: nat): nat
  {
    if n == 0 then h else AfterRequests(NextHints(h), n - 1)
  }

  lemma {:induction false} RequestsSpendAtMostOneEach(h: nat, n: nat)
    ensures AfterRequests(h, n) == if h >= n then h - n else 0
  {
    if n > 0 {
      RequestsSpendAtMostOneEach(NextHints(h), n - 1);
    }
  }
}
