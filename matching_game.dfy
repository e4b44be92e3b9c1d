/**
 * The matching game's round: the deal, the click handler, the delayed
 * end-of-turn step and the hint button, as a class whose fields are the
 * component's state. Each handler builds the new table in a local array
 * (or a copy) and then replaces the state's table, as `setState` does. The
 * 1500 ms timer becomes an explicit `EndOfTurn` call; the `endOfTurn` flag it
 * checks is kept. The random choices of the two lodash shuffles are parameters.
 */
module MatchingGame {
  import opened Wrappers
  import opened Catalog
  import opened MatchRules
  import opened MatchingTable
  import opened Shuffle
  import opened Hints

  /** What the delayed end-of-turn step did. */
  datatype TurnEnd =
    | NotPending                                                  // no turn was waiting to end
    | EndCrashed                                                  // the step threw on a `null` species
    | NextTurn                                                    // the next turn begins
    | RoundOver(seen: seq<Option<Species>>, caught: seq<Species>) // `gameOver(seen, caught)` was called

  /** A table slot's species, `null` kept: `table.map(x => x.species)`. */
  function SpeciesOf(t: seq<Slot>): (r: seq<Option<Species>>)
    ensures |r| == |t| && forall k :: 0 <= k < |t| ==> r[k] == t[k].species
  {
    seq(|t|, k requires 0 <= k < |t| => t[k].species)
  }

  function AsOptions(s: seq<Species>): (r: seq<Option<Species>>)
    ensures |r| == |s| && forall k :: 0 <= k < |s| ==> r[k] == Some(s[k])
  {
    seq(|s|, k requires 0 <= k < |s| => Some(s[k]))
  }

  /**
   * The deal loop of `startGame`: cards are popped off the end of the
   * shuffled deck into the slots in order; in pair mode each popped card
   * also fills the next slot as its copy (not first on the table).
   */
  method DealTable(mode: Mode, shuffled: seq<Species>, n: nat) returns (table: seq<Slot>, deck: seq<Species>)
    ensures table == DealtLayout(mode, shuffled, n)
    ensures deck == shuffled[..|shuffled| - Min(PopsFor(mode, n), |shuffled|)]
  {
    var d := shuffled;
    var t := new Slot[n](_ => Slot(None, false, false, false));
    var i := 0;
    while i < n
      invariant 0 <= i <= n
      invariant Pairs(mode) ==> i % 2 == 0 || i == n
      invariant forall k :: 0 <= k < i ==> t[k] == DealtLayout(mode, shuffled, n)[k]
      invariant d == shuffled[..|shuffled| - Min(PopsFor(mode, i), |shuffled|)]
    {
      ghost var popped := PopsFor(mode, i);
      assert Pairs(mode) ==> popped == i / 2;
      var sp: Option<Species> := None;
      if |d| > 0 {
        sp := Some(d[|d| - 1]);
        d := d[..|d| - 1];
      }
      assert sp == PopAt(shuffled, popped);
      t[i] := Slot(sp, true, false, true);
      if Pairs(mode) && i < n - 1 {
        t[i + 1] := Slot(sp, true, false, false);
        i := i + 1;
      }
      i := i + 1;
    }
    table := t[..];
    deck := d;
  }

  /** The mismatch sweep: every clicked species, in table order, joins `escaped`. */
  method AppendClicked(escaped: seq<Species>, table: seq<Slot>) returns (r: seq<Species>)
    requires AllHaveSpecies(table)
    ensures r == escaped + ClickedSpecies(table)
  {
    r := escaped;
    var i := 0;
    while i < |table|
      invariant 0 <= i <= |table| && AllHaveSpecies(table[..i])
      invariant r == escaped + ClickedSpecies(table[..i])
    {
      assert table[..i + 1][..i] == table[..i];
      if table[i].hasBeenClicked {
        r := r + [table[i].species.value];
      }
      i := i + 1;
    }
    assert table[..i] == table;
  }

  /** The success sweep: every clicked first-on-table species, in table order, joins `caught`. */
  method AppendCaught(caught: seq<Species>, table: seq<Slot>) returns (r: seq<Species>)
    requires AllHaveSpecies(table)
    ensures r == caught + CaughtSpecies(table)
  {
    r := caught;
    var i := 0;
    while i < |table|
      invariant 0 <= i <= |table| && AllHaveSpecies(table[..i])
      invariant r == caught + CaughtSpecies(table[..i])
    {
      assert table[..i + 1][..i] == table[..i];
      if table[i].hasBeenClicked && table[i].firstOnTable {
        r := r + [table[i].species.value];
      }
      i := i + 1;
    }
    assert table[..i] == table;
  }

  /**
   * The refill loop of the end-of-turn step, on a copy of the table: each
   * clicked slot still holding a card takes the deck's last card or becomes
   * a spent slot, and in pair mode its partner gets a copy. A `null`
   * species met on the way throws.
   */
  method RefillTable(mode: Mode, table: seq<Slot>, deck: seq<Species>) returns (r: Refill)
    ensures r == RefillFrom(mode, table, deck, 0)
  {
    var endTable := new Slot[|table|](k requires 0 <= k < |table| => table[k]);
    var endDeck := deck;
    assert endTable[..] == table;
    var i := 0;
    while i < endTable.Length
      invariant 0 <= i <= endTable.Length == |table|
      invariant RefillFrom(mode, endTable[..], endDeck, i) == RefillFrom(mode, table, deck, 0)
    {
      if endTable[i].hasBeenClicked && endTable[i].hasCard {
        if endTable[i].species.None? {
          return RefillCrash;
        }
        var pairValue := GetMatchValue(mode, endTable[i].species.value);
        var pairedIndex := FindPartner(mode, endTable[..], i, pairValue, 0);
        if pairedIndex.PartnerCrash? {
          return RefillCrash;
        }
        var slot := RefillSlot(endDeck, 0);
        endDeck := RestOfDeck(endDeck);
        endTable[i] := slot;
        if Pairs(mode) && pairedIndex.Found? {
          endTable[pairedIndex.index] := slot.(firstOnTable := false);
        }
      }
      i := i + 1;
    }
    return Refilled(endTable[..], endDeck);
  }

  class Round {
    const mode: Mode
    const level: Level
    /** The selected pokedex's species, the pool every deal shuffles. */
    const pool: seq<Species>

    var deck: seq<Species>
    var table: seq<Slot>
    var caught: seq<Species>
    var escaped: seq<Species>
    var matchValue: MatchValue
    var turn: nat
    var ignoreClicks: bool
    var endOfTurn: bool
    var hintsRemaining: nat
    var showHint: bool
    var bigWord: Option<string>

    /** The component's initial state, before the deal: clicks are ignored. */
    constructor (mode: Mode, level: Level, pool: seq<Species>)
      ensures this.mode == mode && this.level == level && this.pool == pool
      ensures deck == [] && table == [] && caught == [] && escaped == []
      ensures turn == 1 && hintsRemaining == 1 && !showHint && bigWord == None
      ensures ignoreClicks && !endOfTurn && matchValue == NoValue
    {
      this.mode, this.level, this.pool := mode, level, pool;
      deck, table := [], [];
      caught, escaped := [], [];
      matchValue := NoValue;
      turn := 1;
      ignoreClicks := true;
      endOfTurn := false;
      hintsRemaining := 1;
      showHint := false;
      bigWord := None;
    }

    /**
     * `startGame`: `shuffled` is the order lodash's shuffle gave the pool and
     * `tableSwaps` the swaps of the pair-mode table shuffle.
     */
    method Deal(shuffled: seq<Species>, tableSwaps: seq<(nat, nat)>)
      requires multiset(shuffled) == multiset(pool)
      modifies this
      ensures table == if Pairs(mode) then ApplySwaps(DealtLayout(mode, shuffled, level.maxOnScreen), tableSwaps)
                       else DealtLayout(mode, shuffled, level.maxOnScreen)
      ensures deck == shuffled[..|shuffled| - Min(PopsFor(mode, level.maxOnScreen), |shuffled|)]
      ensures caught == [] && escaped == [] && turn == 1 && matchValue == NoValue
      ensures hintsRemaining == level.hintsAvailable && !showHint && bigWord == None && !ignoreClicks
      ensures endOfTurn == old(endOfTurn)
    {
      var t, d := DealTable(mode, shuffled, level.maxOnScreen);
      if Pairs(mode) {
        t := ApplySwaps(t, tableSwaps);
      }
      table, deck := t, d;
      caught, escaped := [], [];
      turn := 1;
      matchValue := NoValue;
      hintsRemaining := level.hintsAvailable;
      showHint := false;
      bigWord := None;
      ignoreClicks := false;
    }

    /** `handleShowHintClick`: show the hint and spend one, never going below zero. */
    method ShowHint()
      modifies this
      ensures showHint && hintsRemaining == NextHints(old(hintsRemaining))
      ensures deck == old(deck) && table == old(table) && caught == old(caught) && escaped == old(escaped)
      ensures turn == old(turn) && matchValue == old(matchValue) && ignoreClicks == old(ignoreClicks)
      ensures endOfTurn == old(endOfTurn) && bigWord == old(bigWord)
    {
      showHint := true;
      hintsRemaining := NextHints(hintsRemaining);
    }

    /**
     * `handleTableClick(p)`. Ignored while clicks are blocked or when the slot
     * was already clicked. Otherwise, if any slot holds `null`, the sweeps
     * throw and nothing changes. Otherwise the slot is marked and the turn
     * logic runs (`Judge`): a failed turn lets every clicked species escape, a
     * successful one catches the clicked first-on-table species, and a turn
     * that ends blocks further clicks until `EndOfTurn`.
     */
    method Click(p: nat) returns (outcome: ClickOutcome)
      requires p < |table|
      modifies this
      ensures deck == old(deck) && turn == old(turn)
      ensures hintsRemaining == old(hintsRemaining) && showHint == old(showHint)
      ensures outcome == Ignored <==> old(ignoreClicks) || old(table[p].hasBeenClicked)
      ensures outcome == Crashed <==>
        !old(ignoreClicks) && !old(table[p].hasBeenClicked) && !AllHaveSpecies(old(table))
      ensures outcome == Ignored || outcome == Crashed ==>
        table == old(table) && caught == old(caught) && escaped == old(escaped)
        && matchValue == old(matchValue) && ignoreClicks == old(ignoreClicks)
        && endOfTurn == old(endOfTurn) && bigWord == old(bigWord)
      ensures outcome != Ignored && outcome != Crashed ==>
        var t := old(table)[p := old(table[p]).(hasBeenClicked := true)];
        AllHaveSpecies(t)
        && table == t
        && var v := Judge(mode, Some(level.maxCanCatch), t, p, old(matchValue));
        outcome == v.outcome && matchValue == v.matchValue
        && endOfTurn == EndsTurn(outcome) && ignoreClicks == EndsTurn(outcome)
        && escaped == old(escaped) + (if outcome == Mismatch then ClickedSpecies(t) else [])
        && caught == old(caught) + (if outcome == Success then CaughtSpecies(t) else [])
        && bigWord == (if outcome == NoOtherMatch || outcome == Mismatch then Some("Uh Oh!")
                       else if outcome == Success then Some(TierWord(v.possible))
                       else None)
    {
      if ignoreClicks || table[p].hasBeenClicked {
        return Ignored;
      }
      if exists k :: 0 <= k < |table| && table[k].species.None? {
        return Crashed;
      }
      outcome := Pick(p);
    }

    /** A click that counts: the slot is marked and the pick is judged. */
    method Pick(p: nat) returns (outcome: ClickOutcome)
      requires p < |table| && AllHaveSpecies(table)
      modifies this
      ensures deck == old(deck) && turn == old(turn)
      ensures hintsRemaining == old(hintsRemaining) && showHint == old(showHint)
      ensures var t := old(table)[p := old(table[p]).(hasBeenClicked := true)];
        AllHaveSpecies(t)
        && table == t
        && var v := Judge(mode, Some(level.maxCanCatch), t, p, old(matchValue));
        outcome == v.outcome && matchValue == v.matchValue
        && endOfTurn == EndsTurn(outcome) && ignoreClicks == EndsTurn(outcome)
        && escaped == old(escaped) + (if outcome == Mismatch then ClickedSpecies(t) else [])
        && caught == old(caught) + (if outcome == Success then CaughtSpecies(t) else [])
        && bigWord == (if outcome == NoOtherMatch || outcome == Mismatch then Some("Uh Oh!")
                       else if outcome == Success then Some(TierWord(v.possible))
                       else None)
    {
      var t := table[p := table[p].(hasBeenClicked := true)];
      assert AllHaveSpecies(t);
      table := t;
      outcome := Settle(p);
    }

    /** The turn logic on the marked table. */
    method Settle(p: nat) returns (outcome: ClickOutcome)
      requires p < |table| && AllHaveSpecies(table)
      modifies this
      ensures deck == old(deck) && turn == old(turn) && table == old(table)
      ensures hintsRemaining == old(hintsRemaining) && showHint == old(showHint)
      ensures var v := Judge(mode, Some(level.maxCanCatch), table, p, old(matchValue));
        outcome == v.outcome && matchValue == v.matchValue
        && endOfTurn == EndsTurn(outcome) && ignoreClicks == EndsTurn(outcome)
        && escaped == old(escaped) + (if outcome == Mismatch then ClickedSpecies(table) else [])
        && caught == old(caught) + (if outcome == Success then CaughtSpecies(table) else [])
        && bigWord == (if outcome == NoOtherMatch || outcome == Mismatch then Some("Uh Oh!")
                       else if outcome == Success then Some(TierWord(v.possible))
                       else None)
    {
      var t := table;
      var totalClicked := CountClicked(t);
      var allClickedMatching := AllClickedMatching(mode, t, matchValue);
      var totalPossibleMatches := CountMatching(mode, t, matchValue);

      if totalClicked == 1 {
        matchValue := GetMatchValue(mode, t[p].species.value);
        totalPossibleMatches := CountMatching(mode, t, matchValue);
        if totalPossibleMatches == 1 {
          bigWord := Some("Uh Oh!");
          endOfTurn := true;
          outcome := NoOtherMatch;
        } else {
          bigWord := None;
          endOfTurn := false;
          outcome := MorePicks;
        }
      } else if !allClickedMatching {
        bigWord := Some("Uh Oh!");
        escaped := AppendClicked(escaped, t);
        endOfTurn := true;
        outcome := Mismatch;
      } else if totalClicked == level.maxCanCatch || totalClicked == totalPossibleMatches {
        bigWord := Some(TierWord(totalPossibleMatches));
        caught := AppendCaught(caught, t);
        endOfTurn := true;
        outcome := Success;
      } else {
        bigWord := None;
        endOfTurn := false;
        outcome := MorePicks;
      }
      ignoreClicks := endOfTurn;
    }

    /**
     * The delayed end-of-turn step. It does nothing unless a turn is waiting
     * to end. Otherwise it refills the clicked slots (`RefillTable`); if that
     * throws on a `null` species nothing changes. In pair mode the new table
     * is reshuffled by `tableSwaps`. At the last turn the round is over and
     * `gameOver` receives every species caught, escaped or on the table
     * before the refill, and the caught ones; otherwise the turn counter
     * advances and clicks are accepted again.
     */
    method EndOfTurn(tableSwaps: seq<(nat, nat)>) returns (result: TurnEnd)
      modifies this
      ensures !old(endOfTurn) ==> result == NotPending && unchanged(this)
      ensures old(endOfTurn) && RefillFrom(mode, old(table), old(deck), 0).RefillCrash? ==>
        result == EndCrashed && unchanged(this)
      ensures old(endOfTurn) && RefillFrom(mode, old(table), old(deck), 0).Refilled? ==>
        var r := RefillFrom(mode, old(table), old(deck), 0);
        table == (if Pairs(mode) then ApplySwaps(r.table, tableSwaps) else r.table)
        && deck == r.deck
        && !endOfTurn && !showHint
        && caught == old(caught) && escaped == old(escaped) && matchValue == old(matchValue)
        && hintsRemaining == old(hintsRemaining) && bigWord == old(bigWord)
        && (old(turn) >= level.maxTurns ==>
              turn == old(turn) && ignoreClicks
              && result == RoundOver(AsOptions(old(caught)) + AsOptions(old(escaped)) + SpeciesOf(old(table)), old(caught)))
        && (old(turn) < level.maxTurns ==> turn == old(turn) + 1 && !ignoreClicks && result == NextTurn)
    {
      if !endOfTurn {
        return NotPending;
      }
      var refill := RefillTable(mode, table, deck);
      if refill.RefillCrash? {
        return EndCrashed;
      }
      var endTable := refill.table;
      if Pairs(mode) {
        endTable := ApplySwaps(endTable, tableSwaps);
      }
      if turn >= level.maxTurns {
        result := RoundOver(AsOptions(caught) + AsOptions(escaped) + SpeciesOf(table), caught);
        ignoreClicks := true;
      } else {
        turn := turn + 1;
        ignoreClicks := false;
        result := NextTurn;
      }
      table := endTable;
      deck := refill.deck;
      showHint := false;
      endOfTurn := false;
    }
  }
}
