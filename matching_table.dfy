/**
 * The table of the matching game as a value: its slots, the sweeps the click
 * handler makes over it, the deal layout and the end-of-turn refill.
 */
module MatchingTable {
  import opened Wrappers
  import opened Catalog
  import opened MatchRules

  /**
   * One position of the table. `species` is None for a slot whose deck ran
   * out (and for a slot dealt from an already empty deck).
   */
  datatype Slot = Slot(species: Option<Species>, hasCard: bool, hasBeenClicked: bool, firstOnTable: bool)

  function Min(a: nat, b: nat): nat { if a <= b then a else b }

  /** No slot holds `null`: the sweeps over the table only run without throwing then. */
  predicate AllHaveSpecies(t: seq<Slot>)
  {
    forall i :: 0 <= i < |t| ==> t[i].species.Some?
  }

  // ------------------------------------------------------------- the sweeps

  /** `totalClicked`: how many slots are marked clicked. */
  function CountClicked(t: seq<Slot>): (n: nat)
    ensures n <= |t|
  {
    if |t| == 0 then 0
    else CountClicked(t[..|t| - 1]) + (if t[|t| - 1].hasBeenClicked then 1 else 0)
  }

  /** `totalPossibleMatches`: how many slots match the chosen value. */
  function CountMatching(mode: Mode, t: seq<Slot>, v: MatchValue): (n: nat)
    requires AllHaveSpecies(t)
    ensures n <= |t|
  {
    if |t| == 0 then 0
    else CountMatching(mode, t[..|t| - 1], v) + (if IsMatching(mode, t[|t| - 1].species.value, v) then 1 else 0)
  }

  /** `allClickedMatching`: every clicked slot matches the chosen value. */
  predicate AllClickedMatching(mode: Mode, t: seq<Slot>, v: MatchValue)
    requires AllHaveSpecies(t)
  {
    forall i :: 0 <= i < |t| && t[i].hasBeenClicked ==> IsMatching(mode, t[i].species.value, v)
  }

  /** The species of the clicked slots, in table order: what a failed turn lets escape. */
  function ClickedSpecies(t: seq<Slot>): seq<Species>
    requires AllHaveSpecies(t)
  {
    if |t| == 0 then []
    else ClickedSpecies(t[..|t| - 1]) + (if t[|t| - 1].hasBeenClicked then [t[|t| - 1].species.value] else [])
  }

  /** The species of the clicked slots that are the first of their pair, in table order. */
  function CaughtSpecies(t: seq<Slot>): seq<Species>
    requires AllHaveSpecies(t)
  {
    if |t| == 0 then []
    else CaughtSpecies(t[..|t| - 1])
         + (if t[|t| - 1].hasBeenClicked && t[|t| - 1].firstOnTable then [t[|t| - 1].species.value] else [])
  }

  /** One escaped entry per clicked slot, and each is the species of a clicked slot. */
  lemma {:induction false} ClickedSpeciesAreTheClicked(t: seq<Slot>)
    requires AllHaveSpecies(t)
    ensures |ClickedSpecies(t)| == CountClicked(t)
    ensures forall x :: x in ClickedSpecies(t) <==>
      exists i :: 0 <= i < |t| && t[i].hasBeenClicked && t[i].species == Some(x)
  {
    if |t| > 0 {
      var u := t[..|t| - 1];
      var last := t[|t| - 1];
      var tail := if last.hasBeenClicked then [last.species.value] else [];
      assert AllHaveSpecies(u);
      assert ClickedSpecies(t) == ClickedSpecies(u) + tail;
      ClickedSpeciesAreTheClicked(u);
      forall x | x in ClickedSpecies(t)
        ensures exists i :: 0 <= i < |t| && t[i].hasBeenClicked && t[i].species == Some(x)
      {
        if x in ClickedSpecies(u) {
          var i :| 0 <= i < |u| && u[i].hasBeenClicked && u[i].species == Some(x);
          assert t[i] == u[i];
        } else {
          assert x in tail;
          assert t[|t| - 1].hasBeenClicked && t[|t| - 1].species == Some(x);
        }
      }
      forall x | exists i :: 0 <= i < |t| && t[i].hasBeenClicked && t[i].species == Some(x)
        ensures x in ClickedSpecies(t)
      {
        var i :| 0 <= i < |t| && t[i].hasBeenClicked && t[i].species == Some(x);
        if i < |u| {
          assert u[i] == t[i];
          assert x in ClickedSpecies(u);
        } else {
          assert x in tail;
        }
      }
    }
  }

  /** Only clicked slots that are the first of their pair are caught, so never more than were clicked. */
  lemma {:induction false} CaughtAreClickedFirsts(t: seq<Slot>)
    requires AllHaveSpecies(t)
    ensures |CaughtSpecies(t)| <= CountClicked(t)
    ensures (forall i :: 0 <= i < |t| ==> t[i].firstOnTable) ==> CaughtSpecies(t) == ClickedSpecies(t)
  {
    if |t| > 0 {
      CaughtAreClickedFirsts(t[..|t| - 1]);
    }
  }

  /** When every clicked card matches, the clicked cards are among the matching ones. */
  lemma {:induction false} ClickedAtMostMatching(mode: Mode, t: seq<Slot>, v: MatchValue)
    requires AllHaveSpecies(t)
    requires AllClickedMatching(mode, t, v)
    ensures CountClicked(t) <= CountMatching(mode, t, v)
  {
    if |t| > 0 {
      ClickedAtMostMatching(mode, t[..|t| - 1], v);
    }
  }

  /** Setting one more slot's clicked flag raises the click count by exactly one. */
  lemma {:induction false} ClickAddsOne(t: seq<Slot>, p: nat)
    requires p < |t| && !t[p].hasBeenClicked
    ensures CountClicked(t[p := t[p].(hasBeenClicked := true)]) == CountClicked(t) + 1
  {
    var u := t[p := t[p].(hasBeenClicked := true)];
    if p < |t| - 1 {
      assert u[..|u| - 1] == t[..|t| - 1][p := t[p].(hasBeenClicked := true)];
      ClickAddsOne(t[..|t| - 1], p);
    } else {
      assert u[..|u| - 1] == t[..|t| - 1];
    }
  }

  /** A table with no clicked slot has click count zero. */
  lemma {:induction false} NoneClicked(t: seq<Slot>)
    requires forall i :: 0 <= i < |t| ==> !t[i].hasBeenClicked
    ensures CountClicked(t) == 0
  {
    if |t| > 0 {
      NoneClicked(t[..|t| - 1]);
    }
  }

  // ------------------------------------------------------------------ a click

  /** How a click that is neither ignored nor fatal ends. */
  datatype ClickOutcome = Ignored | Crashed | MorePicks | NoOtherMatch | Mismatch | Success

  predicate EndsTurn(o: ClickOutcome)
  {
    o == NoOtherMatch || o == Mismatch || o == Success
  }

  /** The decision taken after a slot is marked: outcome, new match value and `totalPossibleMatches`. */
  datatype Verdict = Verdict(outcome: ClickOutcome, matchValue: MatchValue, possible: nat)

  /**
   * The turn logic on the table `t` whose slot `p` has just been marked, given
   * the match value `mv` carried over from earlier clicks. `maxCanCatch` is
   * None where the level table has no such entry (the identification game).
   */
  function Judge(mode: Mode, maxCanCatch: Option<nat>, t: seq<Slot>, p: nat, mv: MatchValue): (r: Verdict)
    requires AllHaveSpecies(t) && p < |t|
    ensures r.outcome != Ignored && r.outcome != Crashed
    ensures r.possible == CountMatching(mode, t, r.matchValue)
    ensures r.possible <= |t|
  {
    var clicked := CountClicked(t);
    if clicked == 1 then
      var v := GetMatchValue(mode, t[p].species.value);
      var n := CountMatching(mode, t, v);
      Verdict(if n == 1 then NoOtherMatch else MorePicks, v, n)
    else
      var n := CountMatching(mode, t, mv);
      if !AllClickedMatching(mode, t, mv) then Verdict(Mismatch, mv, n)
      else if maxCanCatch == Some(clicked) || clicked == n then Verdict(Success, mv, n)
      else Verdict(MorePicks, mv, n)
  }

  /**
   * The first pick of a turn always takes its match value from the picked
   * card, and it ends the turn exactly when that card is the only match on
   * the table.
   */
  lemma FirstPickSetsValue(mode: Mode, cap: Option<nat>, t: seq<Slot>, p: nat, mv: MatchValue)
    requires AllHaveSpecies(t) && p < |t| && CountClicked(t) == 1
    ensures var r := Judge(mode, cap, t, p, mv);
      r.matchValue == GetMatchValue(mode, t[p].species.value)
      && (r.outcome == NoOtherMatch <==> CountMatching(mode, t, r.matchValue) == 1)
      && (r.outcome == NoOtherMatch || r.outcome == MorePicks)
  {
  }

  /**
   * A later pick keeps the match value; the turn fails iff some clicked card
   * does not match it; it succeeds iff all match and the catch limit or every
   * match on the table has been reached; otherwise matches remain to be found.
   */
  lemma {:induction false} LaterPickRules(mode: Mode, cap: Option<nat>, t: seq<Slot>, p: nat, mv: MatchValue)
    requires AllHaveSpecies(t) && p < |t| && CountClicked(t) != 1
    ensures var r := Judge(mode, cap, t, p, mv);
      r.matchValue == mv
      && (r.outcome == Mismatch <==> exists i :: 0 <= i < |t| && t[i].hasBeenClicked && !IsMatching(mode, t[i].species.value, mv))
      && (r.outcome == Success <==>
            (AllClickedMatching(mode, t, mv)
             && (cap == Some(CountClicked(t)) || CountClicked(t) == CountMatching(mode, t, mv))))
      && (r.outcome == MorePicks ==> CountClicked(t) < CountMatching(mode, t, mv))
  {
    if AllClickedMatching(mode, t, mv) {
      ClickedAtMostMatching(mode, t, mv);
    }
  }

  // ------------------------------------------------------------------ dealing

  /** The k-th card `deck.pop()` returns from `shuffled`; `undefined` once it is empty. */
  function PopAt(shuffled: seq<Species>, k: nat): Option<Species>
  {
    if k < |shuffled| then Some(shuffled[|shuffled| - 1 - k]) else None
  }

  /** How many cards the deal pops for a table of `n` slots. */
  function PopsFor(mode: Mode, n: nat): nat
  {
    if Pairs(mode) then (n + 1) / 2 else n
  }

  /** A dealt pair: the first-on-table card and its copy. */
  function Twins(ps: seq<Option<Species>>): (r: seq<Slot>)
    ensures |r| == 2 * |ps|
  {
    if |ps| == 0 then []
    else [Slot(ps[0], true, false, true), Slot(ps[0], true, false, false)] + Twins(ps[1..])
  }

  lemma {:induction false} TwinsAt(ps: seq<Option<Species>>, k: nat)
    requires k < 2 * |ps|
    ensures Twins(ps)[k] == Slot(ps[k / 2], true, false, k % 2 == 0)
  {
    if k >= 2 {
      TwinsAt(ps[1..], k - 2);
    }
  }

  /** The slots as the deal loop fills them, before the pair-mode reshuffle. */
  function DealtLayout(mode: Mode, shuffled: seq<Species>, n: nat): (r: seq<Slot>)
    ensures |r| == n
  {
    seq(n, k requires 0 <= k < n =>
      if Pairs(mode) then Slot(PopAt(shuffled, k / 2), true, false, k % 2 == 0)
      else Slot(PopAt(shuffled, k), true, false, true))
  }

  /** The cards popped by the deal, in pop order. */
  function Popped(shuffled: seq<Species>, m: nat): (r: seq<Option<Species>>)
    ensures |r| == m
  {
    seq(m, k requires 0 <= k < m => PopAt(shuffled, k))
  }

  /** Every dealt slot holds a card and is unclicked. */
  lemma DealtSlotsAreFresh(mode: Mode, shuffled: seq<Species>, n: nat)
    ensures forall k :: 0 <= k < n ==>
      DealtLayout(mode, shuffled, n)[k].hasCard && !DealtLayout(mode, shuffled, n)[k].hasBeenClicked
    ensures CountClicked(DealtLayout(mode, shuffled, n)) == 0
  {
    NoneClicked(DealtLayout(mode, shuffled, n));
  }

  /** In pair mode, an even table is the popped cards each followed by its copy. */
  lemma PairLayoutIsTwins(mode: Mode, shuffled: seq<Species>, n: nat)
    requires Pairs(mode) && n % 2 == 0
    ensures DealtLayout(mode, shuffled, n) == Twins(Popped(shuffled, n / 2))
  {
    var l := DealtLayout(mode, shuffled, n);
    var tw := Twins(Popped(shuffled, n / 2));
    forall k | 0 <= k < n ensures l[k] == tw[k] {
      TwinsAt(Popped(shuffled, n / 2), k);
    }
  }

  /** The two slots one popped card fills hold it once as the first and once as the copy. */
  lemma HeadTwinsCount(p: Option<Species>, x: Option<Species>, first: bool)
    ensures multiset([Slot(p, true, false, true), Slot(p, true, false, false)])[Slot(x, true, false, first)]
            == multiset([p])[x]
  {
    if p == x {
      assert multiset([p])[x] == 1;
    } else {
      assert multiset([p])[x] == 0;
    }
  }

  /** Each popped card fills one first-on-table slot and one copy slot. */
  lemma {:induction false} TwinsCount(ps: seq<Option<Species>>, x: Option<Species>, first: bool)
    ensures multiset(Twins(ps))[Slot(x, true, false, first)] == multiset(ps)[x]
  {
    if |ps| > 0 {
      TwinsCount(ps[1..], x, first);
      var head := [Slot(ps[0], true, false, true), Slot(ps[0], true, false, false)];
      assert Twins(ps) == head + Twins(ps[1..]);
      assert ps == [ps[0]] + ps[1..];
      HeadTwinsCount(ps[0], x, first);
    }
  }

  ghost predicate NoDuplicates<T>(s: seq<T>)
  {
    forall i, j :: 0 <= i < j < |s| ==> s[i] != s[j]
  }

  lemma {:induction false} DistinctCountsOnce<T>(s: seq<T>, x: T)
    requires NoDuplicates(s)
    ensures multiset(s)[x] == if x in s then 1 else 0
  {
    if |s| > 0 {
      DistinctCountsOnce(s[1..], x);
      assert s == [s[0]] + s[1..];
      if s[0] == x {
        assert x !in s[1..] by {
          forall j | 0 <= j < |s[1..]| ensures s[1..][j] != x {
            assert s[1..][j] == s[j + 1];
          }
        }
      }
    }
  }

  /** Pops from a duplicate-free deck are pairwise different. */
  lemma PoppedDistinct(shuffled: seq<Species>, m: nat)
    requires NoDuplicates(shuffled) && m <= |shuffled|
    ensures NoDuplicates(Popped(shuffled, m))
  {
  }

  /**
   * In pair mode, with a duplicate-free species pool and enough cards, every
   * dealt species fills exactly two slots, exactly one of them first on table.
   */
  lemma PairDealTwins(mode: Mode, shuffled: seq<Species>, n: nat, k: nat)
    requires Pairs(mode) && n % 2 == 0 && n / 2 <= |shuffled| && NoDuplicates(shuffled)
    requires k < n / 2
    ensures var x := PopAt(shuffled, k);
      multiset(DealtLayout(mode, shuffled, n))[Slot(x, true, false, true)] == 1
      && multiset(DealtLayout(mode, shuffled, n))[Slot(x, true, false, false)] == 1
  {
    var ps := Popped(shuffled, n / 2);
    PairLayoutIsTwins(mode, shuffled, n);
    TwinsCount(ps, PopAt(shuffled, k), true);
    TwinsCount(ps, PopAt(shuffled, k), false);
    PoppedDistinct(shuffled, n / 2);
    DistinctCountsOnce(ps, PopAt(shuffled, k));
    assert ps[k] == PopAt(shuffled, k);
  }

  function Reverse<T>(s: seq<T>): (r: seq<T>)
    ensures |r| == |s|
  {
    if |s| == 0 then [] else Reverse(s[1..]) + [s[0]]
  }

  lemma {:induction false} ReverseMultiset<T>(s: seq<T>)
    ensures multiset(Reverse(s)) == multiset(s)
  {
    if |s| > 0 {
      ReverseMultiset(s[1..]);
      assert s == [s[0]] + s[1..];
    }
  }

  lemma {:induction false} ReverseAt<T>(s: seq<T>, k: nat)
    requires k < |s|
    ensures Reverse(s)[k] == s[|s| - 1 - k]
  {
    if k < |s| - 1 {
      ReverseAt(s[1..], k);
    }
  }

  /** The species of a table whose every slot holds one. */
  function SpeciesValues(t: seq<Slot>): (r: seq<Species>)
    requires AllHaveSpecies(t)
    ensures |r| == |t|
  {
    seq(|t|, k requires 0 <= k < |t| => t[k].species.value)
  }

  /**
   * Outside pair mode, with at least as many species as slots, the dealt
   * table and the deck left behind hold the shuffled pool exactly.
   */
  lemma DealConservesPool(mode: Mode, shuffled: seq<Species>, n: nat)
    requires !Pairs(mode) && n <= |shuffled|
    ensures AllHaveSpecies(DealtLayout(mode, shuffled, n))
    ensures multiset(SpeciesValues(DealtLayout(mode, shuffled, n))) + multiset(shuffled[..|shuffled| - n])
         == multiset(shuffled)
  {
    var m := |shuffled| - n;
    var l := DealtLayout(mode, shuffled, n);
    forall k | 0 <= k < n ensures l[k].species == Some(shuffled[|shuffled| - 1 - k]) {
      assert l[k] == Slot(PopAt(shuffled, k), true, false, true);
    }
    assert AllHaveSpecies(l);
    var tail := shuffled[m..];
    forall k | 0 <= k < n ensures SpeciesValues(l)[k] == Reverse(tail)[k] {
      ReverseAt(tail, k);
      assert tail[|tail| - 1 - k] == shuffled[|shuffled| - 1 - k];
    }
    assert SpeciesValues(l) == Reverse(tail);
    ReverseMultiset(tail);
    assert shuffled == shuffled[..m] + tail;
  }

  // -------------------------------------------------------- end-of-turn refill

  /** A slot the end-of-turn step refills: clicked and still holding a card. */
  predicate NeedsRefill(s: Slot)
  {
    s.hasBeenClicked && s.hasCard
  }

  /** What `findIndex` gives: the first other slot matching, none, or a throw on a `null` species. */
  datatype Partner = Found(index: nat) | NotFound | PartnerCrash

  /** `table.findIndex((entry, x) => x !== i && isMatching(entry.species, v))`, scanning from `x`. */
  function FindPartner(mode: Mode, t: seq<Slot>, i: nat, v: MatchValue, x: nat): (r: Partner)
    decreases |t| - x
    ensures r.Found? ==> x <= r.index < |t| && r.index != i
                         && t[r.index].species.Some? && IsMatching(mode, t[r.index].species.value, v)
    ensures r.Found? || r.NotFound? ==>
      forall y :: x <= y < |t| && y != i && (r.Found? ==> y < r.index) ==>
        t[y].species.Some? && !IsMatching(mode, t[y].species.value, v)
    ensures r.PartnerCrash? ==> exists y :: x <= y < |t| && y != i && t[y].species.None?
  {
    if x >= |t| then NotFound
    else if x == i then FindPartner(mode, t, i, v, x + 1)
    else if t[x].species.None? then PartnerCrash
    else if IsMatching(mode, t[x].species.value, v) then Found(x)
    else FindPartner(mode, t, i, v, x + 1)
  }

  /** The card the k-th refill of a turn receives from `deck`, or the spent slot once it is empty. */
  function RefillSlot(deck: seq<Species>, k: nat): Slot
  {
    if k < |deck| then Slot(Some(deck[|deck| - 1 - k]), true, false, true)
    else Slot(None, false, true, true)
  }

  function RestOfDeck(deck: seq<Species>): seq<Species>
  {
    if |deck| > 0 then deck[..|deck| - 1] else deck
  }

  /** Taking one card off the end of the deck moves every later card one place down. */
  lemma RefillSlotShift(deck: seq<Species>, k: nat)
    ensures RefillSlot(RestOfDeck(deck), k) == RefillSlot(deck, k + 1)
  {
  }

  /**
   * One refill: slot `i` gets the deck's last card (or becomes spent) and,
   * in pair mode, the partner found before the refill gets a copy of it
   * that is not first on the table; every other slot is kept.
   */
  function PlaceRefill(mode: Mode, t: seq<Slot>, deck: seq<Species>, i: nat, partner: Partner): (r: seq<Slot>)
    requires i < |t| && (partner.Found? ==> partner.index < |t| && partner.index != i)
    ensures |r| == |t|
    ensures r[i] == RefillSlot(deck, 0)
    ensures Pairs(mode) && partner.Found? ==> r[partner.index] == RefillSlot(deck, 0).(firstOnTable := false)
    ensures forall j :: 0 <= j < |t| && j != i && !(Pairs(mode) && partner.Found? && j == partner.index) ==> r[j] == t[j]
  {
    var slot := RefillSlot(deck, 0);
    var t1 := t[i := slot];
    if Pairs(mode) && partner.Found? then t1[partner.index := slot.(firstOnTable := false)] else t1
  }

  datatype Refill = Refilled(table: seq<Slot>, deck: seq<Species>) | RefillCrash

  /**
   * The end-of-turn loop from index `i` on: each clicked slot still holding a
   * card gets the deck's last card (or becomes a spent slot), and in pair
   * mode its partner, found before the refill, gets a copy of the new slot.
   */
  function RefillFrom(mode: Mode, t: seq<Slot>, deck: seq<Species>, i: nat): (r: Refill)
    requires i <= |t|
    decreases |t| - i
    ensures r.Refilled? ==> |r.table| == |t|
    ensures r.Refilled? ==> |r.deck| <= |deck| && r.deck == deck[..|r.deck|]
  {
    if i == |t| then Refilled(t, deck)
    else if !NeedsRefill(t[i]) then RefillFrom(mode, t, deck, i + 1)
    else if t[i].species.None? then RefillCrash
    else
      var partner := FindPartner(mode, t, i, GetMatchValue(mode, t[i].species.value), 0);
      if partner.PartnerCrash? then RefillCrash
      else RefillFrom(mode, PlaceRefill(mode, t, deck, i, partner), RestOfDeck(deck), i + 1)
  }

  /** How many refills the end-of-turn loop makes from `i` on, when it does not throw. */
  ghost function Refills(mode: Mode, t: seq<Slot>, deck: seq<Species>, i: nat): nat
    requires i <= |t|
    decreases |t| - i
  {
    if i == |t| then 0
    else if !NeedsRefill(t[i]) then Refills(mode, t, deck, i + 1)
    else if t[i].species.None? then 0
    else
      var partner := FindPartner(mode, t, i, GetMatchValue(mode, t[i].species.value), 0);
      if partner.PartnerCrash? then 0
      else 1 + Refills(mode, PlaceRefill(mode, t, deck, i, partner), RestOfDeck(deck), i + 1)
  }

  function CountNeedsRefill(t: seq<Slot>): nat
  {
    if |t| == 0 then 0 else (if NeedsRefill(t[0]) then 1 else 0) + CountNeedsRefill(t[1..])
  }

  lemma CountNeedsRefillStep(t: seq<Slot>, i: nat, j: nat)
    requires i < j <= |t|
    ensures CountNeedsRefill(t[i..j]) == (if NeedsRefill(t[i]) then 1 else 0) + CountNeedsRefill(t[i + 1..j])
  {
    assert t[i..j][1..] == t[i + 1..j];
  }

  /** The slot `j` holds after refilling from `i` on, outside pair mode. */
  function ExpectedSlot(t: seq<Slot>, deck: seq<Species>, i: nat, j: nat): Slot
    requires i <= j < |t|
  {
    if NeedsRefill(t[j]) then RefillSlot(deck, CountNeedsRefill(t[i..j])) else t[j]
  }

  /** The table `r` and deck `rd` are what refilling `t` from `deck` at `i` on yields outside pair mode. */
  ghost predicate RefillShape(t: seq<Slot>, deck: seq<Species>, i: nat, r: seq<Slot>, rd: seq<Species>)
    requires i <= |t|
  {
    && |r| == |t|
    && (forall j :: 0 <= j < i ==> r[j] == t[j])
    && (forall j :: i <= j < |t| ==> r[j] == ExpectedSlot(t, deck, i, j))
    && rd == deck[..|deck| - Min(CountNeedsRefill(t[i..]), |deck|)]
  }

  lemma SkipStep(t: seq<Slot>, deck: seq<Species>, i: nat, r: seq<Slot>, rd: seq<Species>)
    requires i < |t| && !NeedsRefill(t[i])
    requires RefillShape(t, deck, i + 1, r, rd)
    ensures RefillShape(t, deck, i, r, rd)
  {
    forall j | i <= j < |t| ensures r[j] == ExpectedSlot(t, deck, i, j) {
      if j > i {
        CountNeedsRefillStep(t, i, j);
      }
    }
    CountNeedsRefillStep(t, i, |t|);
    assert t[i..|t|] == t[i..] && t[i + 1..|t|] == t[i + 1..];
  }

  lemma FillStep(t: seq<Slot>, deck: seq<Species>, i: nat, r: seq<Slot>, rd: seq<Species>)
    requires i < |t| && NeedsRefill(t[i])
    requires RefillShape(t[i := RefillSlot(deck, 0)], RestOfDeck(deck), i + 1, r, rd)
    ensures RefillShape(t, deck, i, r, rd)
  {
    var t1 := t[i := RefillSlot(deck, 0)];
    var d1 := RestOfDeck(deck);
    forall j | i <= j < |t| ensures r[j] == ExpectedSlot(t, deck, i, j) {
      if j > i {
        CountNeedsRefillStep(t, i, j);
        assert t1[i + 1..j] == t[i + 1..j];
        assert ExpectedSlot(t1, d1, i + 1, j) == ExpectedSlot(t, deck, i, j);
      } else {
        assert t[i..i] == [];
      }
    }
    CountNeedsRefillStep(t, i, |t|);
    assert t[i..|t|] == t[i..] && t[i + 1..|t|] == t[i + 1..];
    assert t1[i + 1..] == t[i + 1..];
  }

  /**
   * Outside pair mode a refill that does not throw leaves every slot before
   * `i` and every slot not needing a refill as it was; the k-th slot needing
   * one (counting from `i`) gets the k-th card from the end of the deck, or
   * becomes spent when the deck has run out; and the deck loses exactly one
   * card per refilled slot while it lasts.
   */
  lemma {:induction false} RefillOutsidePairMode(mode: Mode, t: seq<Slot>, deck: seq<Species>, i: nat)
    requires !Pairs(mode) && i <= |t|
    requires RefillFrom(mode, t, deck, i).Refilled?
    ensures RefillShape(t, deck, i, RefillFrom(mode, t, deck, i).table, RefillFrom(mode, t, deck, i).deck)
    decreases |t| - i
  {
    var r := RefillFrom(mode, t, deck, i);
    if i == |t| {
      assert t[i..] == [];
    } else if !NeedsRefill(t[i]) {
      RefillOutsidePairMode(mode, t, deck, i + 1);
      SkipStep(t, deck, i, r.table, r.deck);
    } else {
      var t1 := t[i := RefillSlot(deck, 0)];
      assert r == RefillFrom(mode, t1, RestOfDeck(deck), i + 1);
      RefillOutsidePairMode(mode, t1, RestOfDeck(deck), i + 1);
      FillStep(t, deck, i, r.table, r.deck);
    }
  }

  /** A spent slot (no card) never needs a refill, so outside pair mode it stays spent. */
  lemma SpentSlotsStaySpent(mode: Mode, t: seq<Slot>, deck: seq<Species>, j: nat)
    requires !Pairs(mode) && j < |t| && !t[j].hasCard
    requires RefillFrom(mode, t, deck, 0).Refilled?
    ensures RefillFrom(mode, t, deck, 0).table[j] == t[j]
  {
    RefillOutsidePairMode(mode, t, deck, 0);
  }

  /** A slot one of the first `n` refills wrote: the k-th card from the end of the deck (or a spent slot), or its partner's copy. */
  ghost predicate Dealt(s: Slot, deck: seq<Species>, n: nat)
  {
    exists k :: 0 <= k < n && (s == RefillSlot(deck, k) || s == RefillSlot(deck, k).(firstOnTable := false))
  }

  lemma DealtShift(s: Slot, deck: seq<Species>, n: nat)
    requires Dealt(s, RestOfDeck(deck), n)
    ensures Dealt(s, deck, n + 1)
  {
    var k :| 0 <= k < n && (s == RefillSlot(RestOfDeck(deck), k) || s == RefillSlot(RestOfDeck(deck), k).(firstOnTable := false));
    RefillSlotShift(deck, k);
  }

  /** A dealt slot is unclicked, so it never needs a refill in the same turn. */
  lemma DealtNeedsNoRefill(s: Slot, deck: seq<Species>, n: nat)
    requires Dealt(s, deck, n)
    ensures !NeedsRefill(s)
  {
  }

  /** Replacing slots by ones that need no refill never raises the count of slots needing one. */
  lemma {:induction false} CountNeedsRefillReplaced(a: seq<Slot>, b: seq<Slot>)
    requires |a| == |b|
    requires forall k :: 0 <= k < |a| ==> a[k] == b[k] || !NeedsRefill(a[k])
    ensures CountNeedsRefill(a) <= CountNeedsRefill(b)
  {
    if |a| > 0 {
      CountNeedsRefillReplaced(a[1..], b[1..]);
    }
  }

  /** In any mode, a refill from `i` on makes at most one refill per slot needing one. */
  lemma {:induction false} RefillsAtMostNeeded(mode: Mode, t: seq<Slot>, deck: seq<Species>, i: nat)
    requires i <= |t|
    ensures Refills(mode, t, deck, i) <= CountNeedsRefill(t[i..])
    decreases |t| - i
  {
    if i < |t| {
      CountNeedsRefillStep(t, i, |t|);
      assert t[i..|t|] == t[i..] && t[i + 1..|t|] == t[i + 1..];
      if !NeedsRefill(t[i]) {
        RefillsAtMostNeeded(mode, t, deck, i + 1);
      } else if t[i].species.Some? {
        var partner := FindPartner(mode, t, i, GetMatchValue(mode, t[i].species.value), 0);
        if !partner.PartnerCrash? {
          var t2 := PlaceRefill(mode, t, deck, i, partner);
          RefillsAtMostNeeded(mode, t2, RestOfDeck(deck), i + 1);
          CountNeedsRefillReplaced(t2[i + 1..], t[i + 1..]);
        }
      }
    }
  }

  /** In any mode, the deck loses its last card for each refill while it lasts. */
  lemma {:induction false} RefillTakesFromDeck(mode: Mode, t: seq<Slot>, deck: seq<Species>, i: nat)
    requires i <= |t|
    requires RefillFrom(mode, t, deck, i).Refilled?
    ensures RefillFrom(mode, t, deck, i).deck == deck[..|deck| - Min(Refills(mode, t, deck, i), |deck|)]
    decreases |t| - i
  {
    if i == |t| {
      assert deck[..|deck|] == deck;
    } else if !NeedsRefill(t[i]) {
      RefillTakesFromDeck(mode, t, deck, i + 1);
    } else {
      var partner := FindPartner(mode, t, i, GetMatchValue(mode, t[i].species.value), 0);
      var t2 := PlaceRefill(mode, t, deck, i, partner);
      var d1 := RestOfDeck(deck);
      var n1 := Refills(mode, t2, d1, i + 1);
      RefillTakesFromDeck(mode, t2, d1, i + 1);
      if |deck| > 0 {
        assert d1[..|d1| - Min(n1, |d1|)] == deck[..|deck| - Min(n1 + 1, |deck|)];
      }
    }
  }

  /**
   * In any mode, every slot is either as it was or was written by one of the
   * refills, as the card it dealt or as its partner's copy.
   */
  lemma {:induction false} RefillWritesDealt(mode: Mode, t: seq<Slot>, deck: seq<Species>, i: nat)
    requires i <= |t|
    requires RefillFrom(mode, t, deck, i).Refilled?
    ensures forall j :: 0 <= j < |t| ==>
      RefillFrom(mode, t, deck, i).table[j] == t[j] || Dealt(RefillFrom(mode, t, deck, i).table[j], deck, Refills(mode, t, deck, i))
    decreases |t| - i
  {
    if i < |t| {
      if !NeedsRefill(t[i]) {
        RefillWritesDealt(mode, t, deck, i + 1);
      } else {
        var r := RefillFrom(mode, t, deck, i);
        var partner := FindPartner(mode, t, i, GetMatchValue(mode, t[i].species.value), 0);
        var t2 := PlaceRefill(mode, t, deck, i, partner);
        var n1 := Refills(mode, t2, RestOfDeck(deck), i + 1);
        RefillWritesDealt(mode, t2, RestOfDeck(deck), i + 1);
        forall j | 0 <= j < |t| && r.table[j] != t[j] ensures Dealt(r.table[j], deck, n1 + 1) {
          if r.table[j] == t2[j] {
            assert t2[j] == RefillSlot(deck, 0) || t2[j] == RefillSlot(deck, 0).(firstOnTable := false);
          } else {
            DealtShift(r.table[j], deck, n1);
          }
        }
      }
    }
  }

  /** In any mode, no slot from `i` on needs a refill once the refill from `i` on is done. */
  lemma {:induction false} RefillClearsClicked(mode: Mode, t: seq<Slot>, deck: seq<Species>, i: nat)
    requires i <= |t|
    requires RefillFrom(mode, t, deck, i).Refilled?
    ensures forall j :: i <= j < |t| ==> !NeedsRefill(RefillFrom(mode, t, deck, i).table[j])
    decreases |t| - i
  {
    if i < |t| {
      var r := RefillFrom(mode, t, deck, i);
      if !NeedsRefill(t[i]) {
        RefillWritesDealt(mode, t, deck, i);
        if r.table[i] != t[i] {
          DealtNeedsNoRefill(r.table[i], deck, Refills(mode, t, deck, i));
        }
        RefillClearsClicked(mode, t, deck, i + 1);
      } else {
        var partner := FindPartner(mode, t, i, GetMatchValue(mode, t[i].species.value), 0);
        var t2 := PlaceRefill(mode, t, deck, i, partner);
        assert r == RefillFrom(mode, t2, RestOfDeck(deck), i + 1);
        RefillClearsClicked(mode, t2, RestOfDeck(deck), i + 1);
        RefillWritesDealt(mode, t2, RestOfDeck(deck), i + 1);
        if r.table[i] != t2[i] {
          DealtNeedsNoRefill(r.table[i], RestOfDeck(deck), Refills(mode, t2, RestOfDeck(deck), i + 1));
        }
      }
    }
  }
}
