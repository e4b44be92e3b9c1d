/**
 * The type-effectiveness game: a defending species is drawn from a deck of
 * species with at most one (single mode) or two (dual mode) types, and the
 * player picks one of the most effective attack types against it.
 */
module TypeGame {
  import opened Wrappers
  import opened Text
  import opened Catalog
  import opened Shuffle
  import opened Hints
  import opened Filtering
  import opened MatchingTable

  /** This game's difficulty settings; only the hard levels name a catch cap, which no rule reads. */
  datatype Level = Level(maxTurns: nat, hintsAvailable: nat, maxOnScreen: nat, maxCanCatch: Option<nat>, timedMode: bool)

  function LevelNamed(key: string): (r: Option<Level>)
    ensures r.Some? <==> LowerString(key) in {"easy", "medium", "hard", "timed"}
    ensures r.Some? ==> r.value.maxOnScreen >= 6 && r.value.maxTurns >= 20
    ensures r.Some? ==> (r.value.maxCanCatch.Some? <==> LowerString(key) in {"hard", "timed"})
  {
    var k := LowerString(key);
    if k == "easy" then Some(Level(20, 999, 6, None, false))
    else if k == "medium" then Some(Level(20, 5, 9, None, false))
    else if k == "hard" then Some(Level(20, 3, 18, Some(999), false))
    else if k == "timed" then Some(Level(9999, 3, 18, Some(999), true))
    else None
  }

  /** The most types a defender may have: `single` allows one, `dual` two. */
  function ModeCount(key: string): (r: Option<nat>)
    ensures r.Some? <==> LowerString(key) in {"single", "dual"}
    ensures r.Some? ==> 1 <= r.value <= 2
  {
    var k := LowerString(key);
    if k == "single" then Some(1) else if k == "dual" then Some(2) else None
  }

  // --------------------------------------------------------------- the chart

  /**
   * The effectiveness chart: `attackTypes` is the chart's key order
   * (`Object.keys`), `effect[attack][defence]` the damage multiplier.
   */
  datatype Chart = Chart(attackTypes: seq<string>, effect: map<string, map<string, real>>)

  /** Keys are listed once each and every listed key has a row. */
  predicate WellFormed(c: Chart)
  {
    (forall i, j :: 0 <= i < j < |c.attackTypes| ==> c.attackTypes[i] != c.attackTypes[j])
    && forall a :: a in c.attackTypes ==> a in c.effect
  }

  /** The chart has a multiplier for each attack type against each of the defender's first two types. */
  predicate Covers(c: Chart, d: Species)
  {
    |d.firstTypes| >= 1
    && forall a :: a in c.attackTypes ==>
         a in c.effect && d.firstTypes[0] in c.effect[a]
         && (|d.firstTypes| == 2 ==> d.firstTypes[1] in c.effect[a])
  }

  /** The attack's multiplier: the product over the defender's types (only the first when it has one). */
  function Multiplier(c: Chart, a: string, d: Species): (m: real)
    requires Covers(c, d) && a in c.attackTypes
    ensures |d.firstTypes| != 2 ==> m == c.effect[a][d.firstTypes[0]]
    ensures |d.firstTypes| == 2 ==> m == c.effect[a][d.firstTypes[0]] * c.effect[a][d.firstTypes[1]]
  {
    var m0 := c.effect[a][d.firstTypes[0]];
    if |d.firstTypes| == 2 then m0 * c.effect[a][d.firstTypes[1]] else m0
  }

  datatype Attack = Attack(name: string, multiplier: real, hasBeenClicked: bool)

  /** Every attack type of the chart in key order, with its multiplier, none clicked. */
  function AllAttacks(c: Chart, d: Species): (r: seq<Attack>)
    requires Covers(c, d)
    ensures |r| == |c.attackTypes|
    ensures forall k :: 0 <= k < |r| ==> r[k].name == c.attackTypes[k] && !r[k].hasBeenClicked
    ensures forall k :: 0 <= k < |r| ==> r[k].multiplier == Multiplier(c, c.attackTypes[k], d)
  {
    seq(|c.attackTypes|, k requires 0 <= k < |c.attackTypes| =>
      Attack(c.attackTypes[k], Multiplier(c, c.attackTypes[k], d), false))
  }

  // ------------------------------------------------------------ the ordering

  /** Most effective first. */
  ghost predicate SortedByEffect(s: seq<Attack>)
  {
    forall i, j :: 0 <= i < j < |s| ==> s[i].multiplier >= s[j].multiplier
  }

  /** Insert `x` before the first attack no more effective than it. */
  function InsertByEffect(x: Attack, s: seq<Attack>): (r: seq<Attack>)
    ensures |r| == |s| + 1
    ensures multiset(r) == multiset(s) + multiset{x}
    ensures r[0] == x || (|s| > 0 && r[0] == s[0])
  {
    if |s| == 0 || x.multiplier >= s[0].multiplier then [x] + s
    else
      assert s == [s[0]] + s[1..];
      [s[0]] + InsertByEffect(x, s[1..])
  }

  /** Inserting into a list sorted most effective first keeps it sorted. */
  lemma {:induction false} InsertKeepsSorted(x: Attack, s: seq<Attack>)
    requires SortedByEffect(s)
    ensures SortedByEffect(InsertByEffect(x, s))
  {
    if |s| > 0 && x.multiplier < s[0].multiplier {
      var rest := InsertByEffect(x, s[1..]);
      InsertKeepsSorted(x, s[1..]);
      assert rest[0].multiplier <= s[0].multiplier;
      forall j | 0 <= j < |rest| ensures rest[j].multiplier <= s[0].multiplier {
        assert rest[j].multiplier <= rest[0].multiplier;
      }
      assert InsertByEffect(x, s) == [s[0]] + rest;
    }
  }

  /**
   * `attacks.sort((a, b) => b.multiplier - a.multiplier)`: most effective
   * first, by insertion from the back of the list.
   */
  function SortByEffect(s: seq<Attack>): (r: seq<Attack>)
    ensures |r| == |s|
    ensures multiset(r) == multiset(s)
    ensures SortedByEffect(r)
  {
    if |s| == 0 then []
    else
      assert s == [s[0]] + s[1..];
      InsertKeepsSorted(s[0], SortByEffect(s[1..]));
      InsertByEffect(s[0], SortByEffect(s[1..]))
  }

  /** `getAttackArray`: sort, keep the first `max`, then lodash's shuffle (as `swaps`). */
  function Offered(c: Chart, d: Species, max: nat, swaps: seq<(nat, nat)>): seq<Attack>
    requires Covers(c, d)
  {
    var sorted := SortByEffect(AllAttacks(c, d));
    ApplySwaps(sorted[..Min(max, |sorted|)], swaps)
  }

  /**
   * `getAttackArray(defender, max)`: the loop that lists the chart's attack
   * types with their multipliers, then the sort, the slice and the shuffle.
   */
  method GetAttackArray(c: Chart, d: Species, max: nat, swaps: seq<(nat, nat)>) returns (attacks: seq<Attack>)
    requires Covers(c, d)
    ensures attacks == Offered(c, d, max, swaps)
  {
    attacks := [];
    var i := 0;
    while i < |c.attackTypes|
      invariant 0 <= i <= |c.attackTypes|
      invariant attacks == AllAttacks(c, d)[..i]
    {
      var attackType := c.attackTypes[i];
      var multiplier := c.effect[attackType][d.firstTypes[0]];
      if |d.firstTypes| == 2 {
        multiplier := multiplier * c.effect[attackType][d.firstTypes[1]];
      }
      assert AllAttacks(c, d)[i] == Attack(attackType, multiplier, false);
      assert AllAttacks(c, d)[..i + 1] == AllAttacks(c, d)[..i] + [AllAttacks(c, d)[i]];
      attacks := attacks + [Attack(attackType, multiplier, false)];
      i := i + 1;
    }
    assert attacks == AllAttacks(c, d);
    attacks := SortByEffect(attacks);
    attacks := attacks[..Min(max, |attacks|)];
    attacks := ApplySwaps(attacks, swaps);
  }

  // ------------------------------------------------- what the player is offered

  lemma {:induction false} RepeatCountsTwice<T>(s: seq<T>, i: nat, j: nat)
    requires i < j < |s| && s[i] == s[j]
    ensures multiset(s)[s[i]] >= 2
  {
    assert s == s[..j] + [s[j]] + s[j + 1..];
    assert s[i] in s[..j] by { assert s[..j][i] == s[i]; }
  }

  /** The offered attacks are the first `max` of the sorted list, in some order. */
  lemma OfferedAreTheFirst(c: Chart, d: Species, max: nat, swaps: seq<(nat, nat)>)
    requires Covers(c, d)
    ensures var sorted := SortByEffect(AllAttacks(c, d));
      var m := Min(max, |sorted|);
      multiset(Offered(c, d, max, swaps)) == multiset(sorted[..m])
      && multiset(sorted[..m]) + multiset(sorted[m..]) == multiset(AllAttacks(c, d))
  {
    var sorted := SortByEffect(AllAttacks(c, d));
    var m := Min(max, |sorted|);
    assert sorted == sorted[..m] + sorted[m..];
  }

  /** As many attacks as the screen holds (or all of them) are offered, none clicked, all from the chart. */
  lemma {:induction false} OfferedShape(c: Chart, d: Species, max: nat, swaps: seq<(nat, nat)>)
    requires Covers(c, d)
    ensures var o := Offered(c, d, max, swaps);
      |o| == Min(max, |c.attackTypes|)
      && forall k :: 0 <= k < |o| ==> o[k] in AllAttacks(c, d) && !o[k].hasBeenClicked && o[k].name in c.attackTypes
  {
    var all := AllAttacks(c, d);
    var o := Offered(c, d, max, swaps);
    OfferedAreTheFirst(c, d, max, swaps);
    forall k | 0 <= k < |o|
      ensures o[k] in all && !o[k].hasBeenClicked && o[k].name in c.attackTypes
    {
      assert o[k] in multiset(o);
      assert o[k] in multiset(all);
      var n :| 0 <= n < |all| && all[n] == o[k];
    }
  }

  /** With a well-formed chart, each attack type is offered at most once. */
  lemma {:induction false} OfferedOnce(c: Chart, d: Species, max: nat, swaps: seq<(nat, nat)>)
    requires WellFormed(c) && Covers(c, d)
    ensures var o := Offered(c, d, max, swaps);
      forall i, j :: 0 <= i < j < |o| ==> o[i].name != o[j].name
  {
    var all := AllAttacks(c, d);
    var o := Offered(c, d, max, swaps);
    OfferedAreTheFirst(c, d, max, swaps);
    OfferedShape(c, d, max, swaps);
    assert NoDuplicates(all) by {
      forall i, j | 0 <= i < j < |all| ensures all[i] != all[j] {
        assert all[i].name == c.attackTypes[i] && all[j].name == c.attackTypes[j];
      }
    }
    forall i, j | 0 <= i < j < |o| ensures o[i].name != o[j].name {
      if o[i].name == o[j].name {
        var a :| 0 <= a < |all| && all[a] == o[i];
        var b :| 0 <= b < |all| && all[b] == o[j];
        assert all[a].name == c.attackTypes[a] && all[b].name == c.attackTypes[b];
        assert a == b;
        RepeatCountsTwice(o, i, j);
        DistinctCountsOnce(all, o[i]);
        assert false;
      }
    }
  }

  /** In a list sorted by effect, whatever comes before a cut is at least as effective as whatever comes after it. */
  lemma SortedCut(sorted: seq<Attack>, m: nat, x: Attack, y: Attack)
    requires SortedByEffect(sorted) && m <= |sorted|
    requires x in sorted[..m] && y in sorted[m..]
    ensures x.multiplier >= y.multiplier
  {
    var i :| 0 <= i < m && sorted[..m][i] == x;
    var j :| 0 <= j < |sorted| - m && sorted[m..][j] == y;
    assert sorted[i] == x && sorted[m + j] == y;
  }

  /** No attack left out is more effective than any attack offered. */
  lemma {:induction false} OfferedAreTheBest(c: Chart, d: Species, max: nat, swaps: seq<(nat, nat)>)
    requires Covers(c, d)
    ensures var o := Offered(c, d, max, swaps);
      forall x, y :: x in o && y in AllAttacks(c, d) && y !in o ==> x.multiplier >= y.multiplier
  {
    var all := AllAttacks(c, d);
    var sorted := SortByEffect(all);
    var m := Min(max, |sorted|);
    var o := Offered(c, d, max, swaps);
    OfferedAreTheFirst(c, d, max, swaps);
    assert multiset(o) == multiset(sorted[..m]);
    assert multiset(sorted[..m]) + multiset(sorted[m..]) == multiset(all);
    forall x, y | x in o && y in all && y !in o ensures x.multiplier >= y.multiplier {
      assert x in multiset(sorted[..m]);
      assert y in multiset(all) && y !in multiset(sorted[..m]);
      assert y in multiset(sorted[m..]);
      SortedCut(sorted, m, x, y);
    }
  }

  // -------------------------------------------------------------- the verdict

  /** The big word shown for the chosen attack's multiplier. */
  function EffectWord(multiplier: real): (r: string)
    ensures r in {"Super Effective", "Good Attack", "Not Very Effective", "No Effect"}
    ensures r == "No Effect" <==> multiplier <= 0.0
    ensures r == "Super Effective" <==> multiplier >= 2.0
  {
    if multiplier >= 2.0 then "Super Effective"
    else if multiplier >= 1.0 then "Good Attack"
    else if multiplier > 0.0 then "Not Very Effective"
    else "No Effect"
  }

  function EffectRank(word: string): nat
  {
    if word == "Super Effective" then 3
    else if word == "Good Attack" then 2
    else if word == "Not Very Effective" then 1
    else 0
  }

  /** A more effective attack never gets a lesser word. */
  lemma EffectWordMonotone(a: real, b: real)
    requires a <= b
    ensures EffectRank(EffectWord(a)) <= EffectRank(EffectWord(b))
  {
  }

  // ------------------------------------------------------------------ the game

  /** The test the deck's `filter` applies: `types.length <= mode.count`. */
  function FitsMode(count: nat): (p: Species -> bool)
    ensures forall x :: p(x) == (|x.firstTypes| <= count)
  {
    (x: Species) => |x.firstTypes| <= count
  }

  /** The species a mode admits as defenders, in the shuffled order. */
  function Eligible(shuffled: seq<Species>, count: nat): (r: seq<Species>)
    ensures forall x :: x in r <==> x in shuffled && |x.firstTypes| <= count
  {
    Keep(shuffled, FitsMode(count))
  }

  /** The deck keeps the admitted species in their shuffled order, each as often as the pool holds it. */
  lemma EligibleInOrder(shuffled: seq<Species>, count: nat)
    ensures Subsequence(Eligible(shuffled, count), shuffled)
    ensures forall x :: multiset(Eligible(shuffled, count))[x] == if |x.firstTypes| <= count then multiset(shuffled)[x] else 0
  {
    KeepIsSubsequence(shuffled, FitsMode(count));
    forall x ensures multiset(Eligible(shuffled, count))[x] == if |x.firstTypes| <= count then multiset(shuffled)[x] else 0 {
      KeepCount(shuffled, FitsMode(count), x);
    }
  }

  /** What the delayed end-of-turn step did. */
  datatype TurnEnd = NotPending | EndCrashed | NextTurn

  class Game {
    const count: nat
    const level: Level
    const chart: Chart

    var deck: seq<Species>
    var defender: Species
    var attacks: seq<Attack>
    var turn: nat
    var hintsRemaining: nat
    var showHint: bool
    var bigWord: Option<string>
    var ignoreClicks: bool
    var endOfTurn: bool

    /**
     * The component's initial state: `deck` is what is left of the filtered
     * deck once `defender` has been popped off it.
     */
    constructor (count: nat, level: Level, chart: Chart, deck: seq<Species>, defender: Species, swaps: seq<(nat, nat)>)
      requires Covers(chart, defender)
      ensures this.count == count && this.level == level && this.chart == chart
      ensures this.deck == deck && this.defender == defender
      ensures attacks == Offered(chart, defender, level.maxOnScreen, swaps)
      ensures turn == 1 && hintsRemaining == level.hintsAvailable && !showHint && bigWord == None
      ensures !ignoreClicks && !endOfTurn
    {
      this.count, this.level, this.chart := count, level, chart;
      this.deck, this.defender := deck, defender;
      var offered := GetAttackArray(chart, defender, level.maxOnScreen, swaps);
      attacks := offered;
      turn := 1;
      hintsRemaining := level.hintsAvailable;
      showHint := false;
      bigWord := None;
      ignoreClicks := false;
      endOfTurn := false;
    }

    /** `handleShowHintClick`: show the hint and spend one, never going below zero. */
    method ShowHint()
      modifies this
      ensures showHint && hintsRemaining == NextHints(old(hintsRemaining))
      ensures deck == old(deck) && defender == old(defender) && attacks == old(attacks) && turn == old(turn)
      ensures bigWord == old(bigWord) && ignoreClicks == old(ignoreClicks) && endOfTurn == old(endOfTurn)
    {
      showHint := true;
      hintsRemaining := NextHints(hintsRemaining);
    }

    /**
     * `handleAttackClick(p)`: ignored while clicks are blocked or when the
     * attack was already clicked; otherwise the multiplier's word is shown
     * and the turn ends. The click is marked on a copy of the attacks that
     * the handler does not keep, so the attacks themselves do not change.
     */
    method Click(p: nat) returns (ignored: bool)
      requires p < |attacks|
      modifies this
      ensures ignored <==> old(ignoreClicks) || old(attacks[p].hasBeenClicked)
      ensures deck == old(deck) && defender == old(defender) && attacks == old(attacks) && turn == old(turn)
      ensures hintsRemaining == old(hintsRemaining) && showHint == old(showHint)
      ensures ignored ==> bigWord == old(bigWord) && ignoreClicks == old(ignoreClicks) && endOfTurn == old(endOfTurn)
      ensures !ignored ==> bigWord == Some(EffectWord(attacks[p].multiplier)) && ignoreClicks && endOfTurn
    {
      if ignoreClicks || attacks[p].hasBeenClicked {
        return true;
      }
      var clicked := attacks[p].(hasBeenClicked := true);
      bigWord := Some(EffectWord(clicked.multiplier));
      endOfTurn := true;
      ignoreClicks := true;
      return false;
    }

    /**
     * The delayed end-of-turn step. It does nothing unless a turn is waiting
     * to end. It throws, changing nothing, when the deck is empty (the next
     * defender is undefined) and at the last turn (the state has no `caught`
     * list to report). Otherwise the next defender is popped off the deck,
     * its attacks are offered, and the next turn begins.
     */
    method EndOfTurn(swaps: seq<(nat, nat)>) returns (result: TurnEnd)
      requires |deck| > 0 ==> Covers(chart, deck[|deck| - 1])
      modifies this
      ensures !old(endOfTurn) ==> result == NotPending && unchanged(this)
      ensures old(endOfTurn) && (|old(deck)| == 0 || old(turn) >= level.maxTurns) ==>
        result == EndCrashed && unchanged(this)
      ensures old(endOfTurn) && |old(deck)| > 0 && old(turn) < level.maxTurns ==>
        result == NextTurn
        && defender == old(deck)[|old(deck)| - 1] && deck == old(deck)[..|old(deck)| - 1]
        && attacks == Offered(chart, defender, level.maxOnScreen, swaps)
        && turn == old(turn) + 1 && !ignoreClicks && !showHint && !endOfTurn && bigWord == Some("")
        && hintsRemaining == old(hintsRemaining)
    {
      if !endOfTurn {
        return NotPending;
      }
      if |deck| == 0 || turn >= level.maxTurns {
        return EndCrashed;
      }
      BeginNextTurn(swaps);
      return NextTurn;
    }

    /** The next defender is popped off the deck and the next turn begins. */
    method BeginNextTurn(swaps: seq<(nat, nat)>)
      requires |deck| > 0 && Covers(chart, deck[|deck| - 1])
      modifies this
      ensures defender == old(deck)[|old(deck)| - 1] && deck == old(deck)[..|old(deck)| - 1]
      ensures attacks == Offered(chart, defender, level.maxOnScreen, swaps)
      ensures turn == old(turn) + 1 && !ignoreClicks && !showHint && !endOfTurn && bigWord == Some("")
      ensures hintsRemaining == old(hintsRemaining)
    {
      var next := deck[|deck| - 1];
      var endAttacks := GetAttackArray(chart, next, level.maxOnScreen, swaps);
      deck, defender, attacks, turn := deck[..|deck| - 1], next, endAttacks, turn + 1;
      ignoreClicks, bigWord, showHint, endOfTurn := false, Some(""), false, false;
    }
  }

  /**
   * The constructor's setup: the lodash-shuffled pool (`shuffled`) is
   * filtered to the species the mode admits and the defender popped off its
   * end; an empty deck leaves the defender undefined and the setup throws.
   */
  method Start(count: nat, level: Level, chart: Chart, shuffled: seq<Species>, swaps: seq<(nat, nat)>)
    returns (game: Option<Game>)
    requires forall x :: x in Eligible(shuffled, count) ==> Covers(chart, x)
    ensures game.None? <==> |Eligible(shuffled, count)| == 0
    ensures game.Some? ==>
      var deck := Eligible(shuffled, count);
      fresh(game.value)
      && game.value.defender == deck[|deck| - 1] && game.value.deck == deck[..|deck| - 1]
      && game.value.count == count && game.value.level == level && game.value.chart == chart
      && game.value.attacks == Offered(chart, game.value.defender, level.maxOnScreen, swaps)
      && game.value.turn == 1 && !game.value.ignoreClicks && !game.value.endOfTurn
  {
    var deck := Eligible(shuffled, count);
    if |deck| == 0 {
      return None;
    }
    var defender := deck[|deck| - 1];
    assert defender in deck;
    var g := new Game(count, level, chart, deck[..|deck| - 1], defender, swaps);
    return Some(g);
  }
}
