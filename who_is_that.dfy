/**
 * The identification game ("Who's that Pokemon?"): the same table of cards
 * and turn logic as the matching game, without pairs and without a catch
 * cap. Its deck is shuffled in place by its own Fisher-Yates loop, every
 * clicked card of a successful turn is caught, and the replenishing step
 * that a turn-ending click schedules refills every clicked card.
 * A card is a `Slot` whose `firstOnTable` is always true (the field is not
 * used by this game).
 */
module WhoIsThat {
  import opened Wrappers
  import opened Text
  import opened Catalog
  import MatchRules
  import MatchingGame
  import opened MatchingTable
  import opened Shuffle
  import opened Hints

  /** This game's difficulty settings; there is no catch cap. */
  datatype Level = Level(maxTurns: nat, hintsAvailable: nat, maxOnScreen: nat, timedMode: bool)

  /** `levelConfig[key.toLowerCase()]`, absent for an unknown key. */
  function LevelNamed(key: string): (r: Option<Level>)
    ensures r.Some? <==> LowerString(key) in {"easy", "medium", "hard", "timed"}
    ensures r.Some? ==> r.value.maxOnScreen >= 4 && r.value.maxTurns >= 20
    ensures r.Some? ==> (r.value.timedMode <==> LowerString(key) == "timed")
  {
    var k := LowerString(key);
    if k == "easy" then Some(Level(20, 999, 4, false))
    else if k == "medium" then Some(Level(20, 5, 12, false))
    else if k == "hard" then Some(Level(20, 3, 24, false))
    else if k == "timed" then Some(Level(9999, 3, 24, true))
    else None
  }

  /** One step of the downward pass: position i exchanged with its pick. */
  lemma SwapStep<T>(s: seq<T>, picks: seq<nat>, i: nat)
    requires 0 < i < |picks| == |s| && picks[i] <= i
    ensures ShuffleDown(s, picks, i) == ShuffleDown(s[i := s[picks[i]]][picks[i] := s[i]], picks, i - 1)
  {
    assert Swap(s, i, picks[i]) == s[i := s[picks[i]]][picks[i] := s[i]];
  }

  /**
   * The in-place shuffle of `startGame`: for i from the last index down to 1,
   * swap positions i and `picks[i]`, where `picks[i]` is the random index in
   * 0..i that `startGame` draws with `Math.random`.
   */
  method ShuffleInPlace<T>(a: array<T>, picks: seq<nat>)
    requires |picks| == a.Length
    requires forall k :: 0 < k < |picks| ==> picks[k] <= k
    modifies a
    ensures a[..] == FisherYates(old(a[..]), picks)
  {
    if a.Length == 0 {
      return;
    }
    var i := a.Length - 1;
    ghost var target := FisherYates(a[..], picks);
    assert target == ShuffleDown(a[..], picks, i);
    while i > 0
      invariant 0 <= i < a.Length
      invariant ShuffleDown(a[..], picks, i) == target
    {
      var j := picks[i];
      ghost var before := a[..];
      ghost var after := before[i := before[j]][j := before[i]];
      SwapStep(before, picks, i);
      assert ShuffleDown(after, picks, i - 1) == target;
      a[i], a[j] := a[j], a[i];
      assert a[..] == after;
      i := i - 1;
    }
  }

  /** A copy of the pool, shuffled in place: `[...species]` followed by the loop. */
  method ShuffledCopy(pool: seq<Species>, picks: seq<nat>) returns (s: seq<Species>)
    requires |picks| == |pool| && forall k :: 0 < k < |picks| ==> picks[k] <= k
    ensures s == FisherYates(pool, picks)
  {
    var a := new Species[|pool|](k requires 0 <= k < |pool| => pool[k]);
    assert a[..] == pool;
    ShuffleInPlace(a, picks);
    s := a[..];
  }

  /** The deal loop: `n` cards popped off the end of the shuffled deck. */
  method DealCards(shuffled: seq<Species>, n: nat) returns (table: seq<Slot>, deck: seq<Species>)
    ensures table == DealtLayout(MatchRules.Color, shuffled, n)
    ensures deck == shuffled[..|shuffled| - Min(n, |shuffled|)]
  {
    table, deck := [], shuffled;
    var i := 0;
    while i < n
      invariant 0 <= i <= n && |table| == i
      invariant forall k :: 0 <= k < i ==> table[k] == DealtLayout(MatchRules.Color, shuffled, n)[k]
      invariant deck == shuffled[..|shuffled| - Min(i, |shuffled|)]
    {
      var sp: Option<Species> := None;
      if |deck| > 0 {
        sp := Some(deck[|deck| - 1]);
        deck := deck[..|deck| - 1];
      }
      assert sp == PopAt(shuffled, i);
      table := table + [Slot(sp, true, false, true)];
      i := i + 1;
    }
  }

  /** The shuffle of the pool followed by the deal of `n` cards. */
  method ShuffleAndDeal(pool: seq<Species>, picks: seq<nat>, n: nat) returns (table: seq<Slot>, deck: seq<Species>)
    requires |picks| == |pool| && forall k :: 0 < k < |picks| ==> picks[k] <= k
    ensures var shuffled := FisherYates(pool, picks);
      table == DealtLayout(MatchRules.Color, shuffled, n)
      && deck == shuffled[..|shuffled| - Min(n, |shuffled|)]
  {
    var shuffled := ShuffledCopy(pool, picks);
    table, deck := DealCards(shuffled, n);
  }

  /** The card a clicked position receives: the deck's next card, or a spent slot. */
  function Replenished(t: seq<Slot>, deck: seq<Species>, k: nat): (r: Slot)
    requires k < |t|
    ensures !t[k].hasBeenClicked ==> r == t[k]
    ensures t[k].hasBeenClicked && CountClicked(t[..k]) < |deck| ==>
      r == Slot(Some(deck[|deck| - 1 - CountClicked(t[..k])]), true, false, true)
    ensures t[k].hasBeenClicked && CountClicked(t[..k]) >= |deck| ==> r == Slot(None, false, true, true)
  {
    if t[k].hasBeenClicked then RefillSlot(deck, CountClicked(t[..k])) else t[k]
  }

  /**
   * The replenishing loop: every clicked card, in table order, takes the
   * next card popped off the deck; once the deck is empty it becomes a spent
   * slot (no card, still clicked). Unclicked cards stay as they are.
   */
  method ReplenishTable(t: seq<Slot>, deck: seq<Species>) returns (r: seq<Slot>, rest: seq<Species>)
    ensures |r| == |t| && forall k :: 0 <= k < |t| ==> r[k] == Replenished(t, deck, k)
    ensures rest == deck[..|deck| - Min(CountClicked(t), |deck|)]
  {
    r, rest := t, deck;
    var i := 0;
    while i < |t|
      invariant 0 <= i <= |t| && |r| == |t|
      invariant forall k :: 0 <= k < i ==> r[k] == Replenished(t, deck, k)
      invariant forall k :: i <= k < |t| ==> r[k] == t[k]
      invariant rest == deck[..|deck| - Min(CountClicked(t[..i]), |deck|)]
    {
      assert t[..i + 1][..i] == t[..i];
      if r[i].hasBeenClicked {
        if |rest| > 0 {
          r := r[i := Slot(Some(rest[|rest| - 1]), true, false, true)];
          rest := rest[..|rest| - 1];
        } else {
          r := r[i := Slot(None, false, true, true)];
        }
      }
      i := i + 1;
    }
    assert t[..i] == t;
  }

  /** The first `n` positions after a replenish. */
  function ReplenishedPrefix(t: seq<Slot>, deck: seq<Species>, n: nat): (r: seq<Slot>)
    requires n <= |t|
    ensures |r| == n && forall k :: 0 <= k < n ==> r[k] == Replenished(t, deck, k)
  {
    seq(n, k requires 0 <= k < n => Replenished(t, deck, k))
  }

  /**
   * A replenish covers as many clicked positions as the deck has cards: the
   * positions still marked clicked afterwards (spent slots) are exactly the
   * clicked ones the deck ran out for.
   */
  lemma {:induction false} ReplenishLeavesUncovered(t: seq<Slot>, deck: seq<Species>, n: nat)
    requires n <= |t|
    ensures CountClicked(ReplenishedPrefix(t, deck, n)) == CountClicked(t[..n]) - Min(CountClicked(t[..n]), |deck|)
  {
    if n > 0 {
      ReplenishLeavesUncovered(t, deck, n - 1);
      assert ReplenishedPrefix(t, deck, n)[..n - 1] == ReplenishedPrefix(t, deck, n - 1);
      assert t[..n][..n - 1] == t[..n - 1];
    }
  }

  /** What the replenishing step did. */
  datatype TurnEnd = NextTurn | GameOver(caught: seq<Species>)

  class Round {
    const mode: MatchRules.Mode
    const level: Level
    /** The selected pokedex's species. */
    const pool: seq<Species>

    var deck: seq<Species>
    var table: seq<Slot>
    var caught: seq<Species>
    var escaped: seq<Species>
    var totalToCatch: nat
    var matchValue: MatchRules.MatchValue
    var turn: nat
    var ignoreClicks: bool
    var hintsRemaining: nat
    var showHint: bool
    var bigWord: Option<string>
    /** A turn-ending click has scheduled the replenishing step. */
    var refillPending: bool

    /** The component's initial state, before the deal: clicks are ignored. */
    constructor (mode: MatchRules.Mode, level: Level, pool: seq<Species>)
      ensures this.mode == mode && this.level == level && this.pool == pool
      ensures deck == [] && table == [] && caught == [] && escaped == [] && totalToCatch == 0
      ensures turn == 1 && hintsRemaining == 1 && !showHint && bigWord == None
      ensures ignoreClicks && !refillPending && matchValue == MatchRules.NoValue
    {
      this.mode, this.level, this.pool := mode, level, pool;
      deck, table := [], [];
      caught, escaped := [], [];
      totalToCatch := 0;
      matchValue := MatchRules.NoValue;
      turn := 1;
      ignoreClicks := true;
      hintsRemaining := 1;
      showHint := false;
      bigWord := None;
      refillPending := false;
    }

    /** `startGame`, with the random indices of its shuffle given as `picks`. */
    method Deal(picks: seq<nat>)
      requires |picks| == |pool| && forall k :: 0 < k < |picks| ==> picks[k] <= k
      modifies this
      ensures var shuffled := FisherYates(pool, picks);
        table == DealtLayout(MatchRules.Color, shuffled, level.maxOnScreen)
        && deck == shuffled[..|shuffled| - Min(level.maxOnScreen, |shuffled|)]
      ensures totalToCatch == |pool|
      ensures caught == [] && escaped == [] && turn == 1 && matchValue == MatchRules.NoValue
      ensures hintsRemaining == level.hintsAvailable && !showHint && bigWord == None && !ignoreClicks
      ensures refillPending == old(refillPending)
    {
      var t, d := ShuffleAndDeal(pool, picks, level.maxOnScreen);
      Restart(t, d);
    }

    /** The state `startGame` sets up around the dealt table and the rest of the deck. */
    method Restart(t: seq<Slot>, d: seq<Species>)
      modifies this
      ensures table == t && deck == d && totalToCatch == |pool|
      ensures caught == [] && escaped == [] && turn == 1 && matchValue == MatchRules.NoValue
      ensures hintsRemaining == level.hintsAvailable && !showHint && bigWord == None && !ignoreClicks
      ensures refillPending == old(refillPending)
    {
      table, deck := t, d;
      totalToCatch := |pool|;
      caught, escaped := [], [];
      turn := 1;
      matchValue := MatchRules.NoValue;
      hintsRemaining := level.hintsAvailable;
      showHint := false;
      bigWord := None;
      ignoreClicks := false;
    }

    /** `handleShowHintClick`: show the hint and spend one, never going below zero. */
    method ShowHint()
      modifies this
      ensures showHint && hintsRemaining == NextHints(old(hintsRemaining))
      ensures deck == old(deck) && table == old(table) && caught == old(caught) && escaped == old(escaped)
      ensures turn == old(turn) && matchValue == old(matchValue) && ignoreClicks == old(ignoreClicks)
      ensures refillPending == old(refillPending) && bigWord == old(bigWord)
    {
      showHint := true;
      hintsRemaining := NextHints(hintsRemaining);
    }

    /**
     * `handleTableClick(p)`: as in the matching game, except that there is no
     * catch cap, so a turn succeeds only once every matching card is clicked,
     * and a success catches every clicked card. A turn-ending click
     * schedules the replenishing step.
     */
    method Click(p: nat) returns (outcome: ClickOutcome)
      requires p < |table|
      modifies this
      ensures deck == old(deck) && turn == old(turn) && totalToCatch == old(totalToCatch)
      ensures hintsRemaining == old(hintsRemaining) && showHint == old(showHint)
      ensures outcome == Ignored <==> old(ignoreClicks) || old(table[p].hasBeenClicked)
      ensures outcome == Crashed <==>
        !old(ignoreClicks) && !old(table[p].hasBeenClicked) && !AllHaveSpecies(old(table))
      ensures outcome == Ignored || outcome == Crashed ==>
        table == old(table) && caught == old(caught) && escaped == old(escaped)
        && matchValue == old(matchValue) && ignoreClicks == old(ignoreClicks)
        && refillPending == old(refillPending) && bigWord == old(bigWord)
      ensures outcome != Ignored && outcome != Crashed ==>
        var t := old(table)[p := old(table[p]).(hasBeenClicked := true)];
        AllHaveSpecies(t)
        && table == t
        && var v := Judge(mode, None, t, p, old(matchValue));
        outcome == v.outcome && matchValue == v.matchValue
        && refillPending == EndsTurn(outcome) && ignoreClicks == EndsTurn(outcome)
        && escaped == old(escaped) + (if outcome == Mismatch then ClickedSpecies(t) else [])
        && caught == old(caught) + (if outcome == Success then ClickedSpecies(t) else [])
        && bigWord == (if outcome == NoOtherMatch || outcome == Mismatch then Some("Uh Oh!")
                       else if outcome == Success then Some(MatchRules.TierWord(v.possible))
                       else None)
    {
      if ignoreClicks || table[p].hasBeenClicked {
        return Ignored;
      }
      if exists k :: 0 <= k < |table| && table[k].species.None? {
        return Crashed;
      }
      outcome := Pick(p);
    }

    /** A click that counts: the card is marked and the pick is judged. */
    method Pick(p: nat) returns (outcome: ClickOutcome)
      requires p < |table| && AllHaveSpecies(table)
      modifies this
      ensures deck == old(deck) && turn == old(turn) && totalToCatch == old(totalToCatch)
      ensures hintsRemaining == old(hintsRemaining) && showHint == old(showHint)
      ensures var t := old(table)[p := old(table[p]).(hasBeenClicked := true)];
        AllHaveSpecies(t)
        && table == t
        && var v := Judge(mode, None, t, p, old(matchValue));
        outcome == v.outcome && matchValue == v.matchValue
        && refillPending == EndsTurn(outcome) && ignoreClicks == EndsTurn(outcome)
        && escaped == old(escaped) + (if outcome == Mismatch then ClickedSpecies(t) else [])
        && caught == old(caught) + (if outcome == Success then ClickedSpecies(t) else [])
        && bigWord == (if outcome == NoOtherMatch || outcome == Mismatch then Some("Uh Oh!")
                       else if outcome == Success then Some(MatchRules.TierWord(v.possible))
                       else None)
    {
      var t := table[p := table[p].(hasBeenClicked := true)];
      assert AllHaveSpecies(t);
      table := t;
      outcome := Settle(p);
    }

    /** The turn logic on the marked table. */
    method Settle(p: nat) returns (outcome: ClickOutcome)
      requires p < |table| && AllHaveSpecies(table)
      modifies this
      ensures deck == old(deck) && turn == old(turn) && totalToCatch == old(totalToCatch) && table == old(table)
      ensures hintsRemaining == old(hintsRemaining) && showHint == old(showHint)
      ensures var v := Judge(mode, None, table, p, old(matchValue));
        outcome == v.outcome && matchValue == v.matchValue
        && refillPending == EndsTurn(outcome) && ignoreClicks == EndsTurn(outcome)
        && escaped == old(escaped) + (if outcome == Mismatch then ClickedSpecies(table) else [])
        && caught == old(caught) + (if outcome == Success then ClickedSpecies(table) else [])
        && bigWord == (if outcome == NoOtherMatch || outcome == Mismatch then Some("Uh Oh!")
                       else if outcome == Success then Some(MatchRules.TierWord(v.possible))
                       else None)
    {
      var t := table;
      var totalClicked := CountClicked(t);
      var allClickedMatching := AllClickedMatching(mode, t, matchValue);
      var totalPossibleMatches := CountMatching(mode, t, matchValue);
      var endOfTurn: bool;

      if totalClicked == 1 {
        matchValue := MatchRules.GetMatchValue(mode, t[p].species.value);
        totalPossibleMatches := CountMatching(mode, t, matchValue);
        if totalPossibleMatches == 1 {
          bigWord := Some("Uh Oh!");
          endOfTurn := true;
          outcome := NoOtherMatch;
        } else {
          bigWord := None;
          endOfTurn := false;
          outcome := MorePicks;
        }
      } else if !allClickedMatching {
        bigWord := Some("Uh Oh!");
        escaped := MatchingGame.AppendClicked(escaped, t);
        endOfTurn := true;
        outcome := Mismatch;
      } else if totalClicked == totalPossibleMatches {
        bigWord := Some(MatchRules.TierWord(totalPossibleMatches));
        caught := MatchingGame.AppendClicked(caught, t);
        endOfTurn := true;
        outcome := Success;
      } else {
        bigWord := None;
        endOfTurn := false;
        outcome := MorePicks;
      }
      refillPending := endOfTurn;
      ignoreClicks := endOfTurn;
    }

    /**
     * The replenishing step a turn-ending click scheduled: refill the clicked
     * cards from the deck, then either end the round, handing `gameOver` the
     * caught species, or start the next turn. The hint is hidden again.
     */
    method Replenish() returns (result: TurnEnd)
      requires refillPending
      modifies this
      ensures |table| == |old(table)| && forall k :: 0 <= k < |table| ==> table[k] == Replenished(old(table), old(deck), k)
      ensures deck == old(deck)[..|old(deck)| - Min(CountClicked(old(table)), |old(deck)|)]
      ensures !showHint && !refillPending
      ensures caught == old(caught) && escaped == old(escaped) && matchValue == old(matchValue)
      ensures hintsRemaining == old(hintsRemaining) && bigWord == old(bigWord) && totalToCatch == old(totalToCatch)
      ensures old(turn) >= level.maxTurns ==> turn == old(turn) && ignoreClicks && result == GameOver(old(caught))
      ensures old(turn) < level.maxTurns ==> turn == old(turn) + 1 && !ignoreClicks && result == NextTurn
    {
      var t, d := ReplenishTable(table, deck);
      table, deck := t, d;
      if turn >= level.maxTurns {
        result := GameOver(caught);
        ignoreClicks := true;
      } else {
        turn := turn + 1;
        ignoreClicks := false;
        result := NextTurn;
      }
      showHint := false;
      refillPending := false;
    }
  }
}
