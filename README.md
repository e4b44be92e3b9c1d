# Pokémon Trainer: a Dafny model of its game and data-preparation logic

Pokémon Trainer is a browser app for children. It has a Pokédex browser and three
games: a matching game, "Who is that Pokémon?" and a type-effectiveness quiz. All
of them run on a bundled data set. An offline script builds that data set from
the PokeAPI, and a small interface module downloads single Pokémon at run time.
This project models the logic of those parts and proves properties of it.

| module (file) | models |
|---|---|
| `Wrappers` (wrappers.dfy) | `Option`, used for JavaScript's `undefined`/`null` and for paths that throw |
| `Catalog` (catalog.dfy) | the resolved species record that every game reads |
| `Text` (text.dfy) | JavaScript's `split`, `join`, `indexOf`, first-occurrence `replace`, ASCII `toUpperCase`/`toLowerCase`, `Number` on digit strings, string comparison |
| `Shuffle` (shuffle.dfy) | lodash `shuffle` as a caller-supplied list of swaps; the in-page Fisher–Yates loop as its list of picks |
| `Hints` (hints.dfy) | the hint button shared by the three games |
| `MatchRules` (matching_rules.dfy) | the matching game's modes and levels, and its "well done" word |
| `MatchingTable` (matching_table.dfy) | the table as a value: the sweeps of the click handler, the deal layout, the end-of-turn refill |
| `MatchingGame` (matching_game.dfy) | the matching game's component state as a class: deal, click, delayed end of turn, hint |
| `WhoIsThat` (who_is_that.dfy) | the "Who is that Pokémon?" game: in-place shuffle of an array, deal, click, replenish |
| `TypeGame` (type_game.dfy) | the type-effectiveness game: the attack list, the click and the delayed next turn |
| `Filtering`, `PokedexFilter` (filter.dfy, pokedex.dfy) | the Pokédex browser's filters and its state |
| `AppData` (app.dfy) | `App.loadData`: name references resolved into dictionaries |
| `DataFile` (data_file.dfy) | the data-file builder: ids from URLs, title case, pokedex names, genus, descriptions, base stats, units |
| `Evolution` (evolution.dfy) | the data-file builder's evolution-chain pass over the species list |
| `PokeApi` (poke_api.dfy) | `toCamelCase` and the record built by `downloadPokemonData` |

Modelling choices:
- Each React component whose handlers update its state becomes a Dafny `class` whose fields are that state. A handler becomes a method whose `ensures` gives the whole new state. The functional updater that `setState` receives is applied at once.
- A delayed step scheduled with `setTimeout` becomes a method that the caller invokes (`EndOfTurn`, `Replenish`). The step's own guard flag is kept.
- Randomness is a parameter. A lodash shuffle is a list of swaps; the Fisher–Yates loop in `WhoIsThatPokemon.startGame` is its list of random picks.
- When a handler's updater throws (a property of `null` or `undefined` read, for example), the state is left unchanged and the method reports a `Crashed`/`EndCrashed` outcome. In data preparation such a path is `None`.
- The data-file builder is a top-level script that mutates arrays of records in loops. Each loop becomes a method over sequences that is proved equal to a recursive specification function. The properties are lemmas about that function.

Where the code and its own comments or the intended behaviour differ, the model follows the code:
- The doc comment of `toCamelCase` says `hello-world` becomes `helloWorld`. The code only upper-cases a letter that starts a word and drops whitespace, so it gives `hello-World` (`PokeApi.CamelCaseKeepsHyphen`). The stat keys become `special-Attack` and `special-Defense`, not `specialAttack`.
- The type-effectiveness click marks a copy of the attack list and never returns it. The clicked attack therefore stays clickable (`TypeGame.Game.Click`).
- The type-effectiveness game has no `caught` list in its state, so its last turn throws when it reads `caught.length` (`TypeGame.Game.EndOfTurn`). It also throws once the defender deck is empty.
- In the matching game and "Who is that Pokémon?" the chosen match value is not reset at the end of a turn. The next first click overwrites it.
- "Who is that Pokémon?" never sets a mode or a catch limit in its state, so the mode is a parameter and the catch limit is absent (`None` in `Judge`).
- Nothing in the core builds the personal pokedex. Its filter is modelled on whatever entries it holds.

## Model

| member | source | states |
|---|---|---|
| `Hints.NextHints` | src/MatchingGame.js:212-219 | a hint request spends one hint when any remain and never goes below zero |
| `Hints.RequestsSpendAtMostOneEach` | src/MatchingGame.js:212-219 | after n requests, h hints become h − n, floored at zero |
| `Shuffle.ApplySwaps` | src/MatchingGame.js:174-176 | a lodash shuffle of the table keeps its length and is a permutation of it |
| `Shuffle.SwapPermutes` | src/WhoIsThatPokemon.js:91 | one exchange of two cards only reorders the deck |
| `Shuffle.ShuffleDown` | src/WhoIsThatPokemon.js:89-92 | the downward pass of swaps keeps the deck's length |
| `Shuffle.ShuffleDownPermutes` | src/WhoIsThatPokemon.js:89-92 | each downward pass of swaps only reorders the deck |
| `Shuffle.FisherYates` | src/WhoIsThatPokemon.js:88-92 | the whole pass keeps the deck's length |
| `Shuffle.FisherYatesPermutes` | src/WhoIsThatPokemon.js:88-92 | whatever the random picks, the in-page Fisher–Yates shuffle is a permutation of the deck |
| `Filtering.Keep` | src/TypeEffectivenessGame.js:71 | `Array.filter`: never longer than the list, and an element is kept exactly when it is in the list and passes |
| `Filtering.KeepCount` | src/TypeEffectivenessGame.js:71 | `filter` keeps each passing element as often as the list holds it, and no failing one |
| `Filtering.KeepIsSubsequence` | src/TypeEffectivenessGame.js:71 | `filter` keeps the passing elements in their original order |
| `Filtering.KeepTwice` | src/Pokedex.js:104-113 | filtering twice with the same test is filtering once |
| `Filtering.SubsequenceUnderCons` | src/TypeEffectivenessGame.js:71 | an order-preserving selection stays one when the same element is put in front of both lists, or only in front of the longer |
| `Filtering.SubsequenceOfItself` | src/Pokedex.js:103-147 | a list is an order-preserving selection of itself (what an inactive filter leaves) |
| `Filtering.SubsequenceTransitive` | src/Pokedex.js:96-150 | a selection from a selection is a selection from the original, in order |
| `MatchRules.ModeNamed` | src/MatchingGame.js:46-95 | the mode key, lower-cased, selects exactly one of color, type, shape and name |
| `MatchRules.GetMatchValue` | src/MatchingGame.js:46-95 | a pick's match value is never `null`; it is a list of types in type mode only, a copy of the first variety's types |
| `MatchRules.IsMatching` | src/MatchingGame.js:46-95 | nothing matches `null`; outside type mode a species matches a value exactly when it is its own match value |
| `MatchRules.NoValueMatchesNothing` | src/MatchingGame.js:46-95 | no species matches the `null` match value |
| `MatchRules.MatchesOwnValue` | src/MatchingGame.js:46-95 | a species matches its own match value, except a type-mode species without types |
| `MatchRules.ScalarMatchingSymmetric` | src/MatchingGame.js:46-95 | in color, shape and name mode, a matches b's value exactly when b matches a's |
| `MatchRules.TypeMatchingSharesAType` | src/MatchingGame.js:59-61 | in type mode, a species matches the picked one's value exactly when they share a type |
| `MatchRules.LevelNamed` | src/MatchingGame.js:8-44 | exactly the four level keys are known; each deals an even, non-zero number of slots and allows at least two catches and fifteen turns |
| `MatchRules.TierWord` | src/MatchingGame.js:294-300 | the praise word is one of "Excellent!", "Great!" and "Nice!" |
| `MatchRules.TierWordMonotone` | src/MatchingGame.js:294-300 | more possible matches never give a lesser word; 6 and 4 are the thresholds |
| `MatchingTable.CountClicked` | src/MatchingGame.js:251 | the clicked count never exceeds the table size |
| `MatchingTable.CountMatching` | src/MatchingGame.js:253 | the possible-match count never exceeds the table size |
| `MatchingTable.ClickedSpeciesAreTheClicked` | src/MatchingGame.js:284-289 | the species moved to `escaped` are exactly the clicked slots' species, one per clicked slot |
| `MatchingTable.CaughtAreClickedFirsts` | src/MatchingGame.js:302-307 | no more are caught than clicked; without pair copies, the caught are all the clicked |
| `MatchingTable.ClickedAtMostMatching` | src/MatchingGame.js:251-253 | when every clicked slot matches, the clicked count is at most the possible-match count |
| `MatchingTable.ClickAddsOne` | src/MatchingGame.js:248-251 | marking an unclicked slot raises the clicked count by exactly one |
| `MatchingTable.NoneClicked` | src/MatchingGame.js:159-165 | a table with no clicked slot has clicked count zero |
| `MatchingTable.FirstPickSetsValue` | src/MatchingGame.js:257-278 | the first pick takes its own match value and ends the turn exactly when it is the only match on the table |
| `MatchingTable.LaterPickRules` | src/MatchingGame.js:279-325 | a later pick keeps the value; it fails exactly when some clicked slot does not match; it succeeds exactly at the catch limit or when all matches are clicked; otherwise matches remain |
| `MatchingTable.Twins` | src/MatchingGame.js:163-168 | pair mode fills two slots per popped card |
| `MatchingTable.TwinsAt` | src/MatchingGame.js:158-169 | slot k holds card k/2; only even slots are first on the table |
| `MatchingTable.DealtLayout` | src/MatchingGame.js:158-169 | the deal fills exactly `maxOnScreen` slots |
| `MatchingTable.DealtSlotsAreFresh` | src/MatchingGame.js:158-169 | every dealt slot holds a card and is unclicked |
| `MatchingTable.PairLayoutIsTwins` | src/MatchingGame.js:163-168 | in pair mode the deal is the popped cards, each twice |
| `MatchingTable.TwinsCount` | src/MatchingGame.js:163-168 | each card occurs once as the first and once as the copy |
| `MatchingTable.PairDealTwins` | src/MatchingGame.js:158-169 | from a deck without duplicates, each dealt card has exactly one first and one copy slot |
| `MatchingTable.ReverseMultiset` | src/MatchingGame.js:160 | popping cards off the end takes a permutation of the deck's tail |
| `MatchingTable.DealConservesPool` | src/MatchingGame.js:155-169 | outside pair mode the dealt species and the remaining deck are together the shuffled pool |
| `MatchingTable.FindPartner` | src/MatchingGame.js:347-348 | `findIndex` gives the first other slot matching the value, or none; it throws on an earlier `null` slot |
| `MatchingTable.PlaceRefill` | src/MatchingGame.js:350-370 | one refill: the slot gets the deck's last card or becomes spent; in pair mode its partner gets a copy that is not first on the table; every other slot is kept |
| `MatchingTable.RefillFrom` | src/MatchingGame.js:345-374 | the refill keeps the table size and pops only from the end of the deck |
| `MatchingTable.RefillsAtMostNeeded` | src/MatchingGame.js:345-346 | in any mode the loop refills at most the slots that are clicked and hold a card |
| `MatchingTable.RefillTakesFromDeck` | src/MatchingGame.js:350-358 | in any mode the deck loses its last card per refill while it lasts, so exactly min(refills, deck size) cards |
| `MatchingTable.RefillWritesDealt` | src/MatchingGame.js:345-374 | in any mode every slot ends as it was, or as a card one of the refills dealt, or as its partner's copy of it |
| `MatchingTable.RefillClearsClicked` | src/MatchingGame.js:345-374 | in any mode no slot from the start index on is left clicked with a card |
| `MatchingTable.CountNeedsRefillReplaced` | src/MatchingGame.js:366-369 | overwriting slots with unclicked copies never adds a slot to refill |
| `MatchingTable.DealtShift` | src/MatchingGame.js:352 | after one pop the k-th card from the end of the rest is the (k+1)-th of the deck |
| `MatchingTable.Judge` | src/MatchingGame.js:250-327 | a click that is taken gives a verdict, never an ignore or a throw, whose possible-match count is the table's count for its value |
| `MatchingTable.RefillOutsidePairMode` | src/MatchingGame.js:345-374 | outside pair mode each clicked card slot, in order, gets the next popped card, or becomes a spent slot once the deck is empty; the other slots are unchanged |
| `MatchingTable.SpentSlotsStaySpent` | src/MatchingGame.js:346 | a slot without a card is never refilled |
| `MatchingGame.DealTable` | src/MatchingGame.js:155-169 | the deal loop computes the deal layout and leaves the unpopped deck |
| `MatchingGame.AppendClicked` | src/MatchingGame.js:284-289 | the escaped list grows by the clicked species, in table order |
| `MatchingGame.AppendCaught` | src/MatchingGame.js:302-307 | the caught list grows by the clicked first-on-table species, in table order |
| `MatchingGame.RefillTable` | src/MatchingGame.js:345-374 | the end-of-turn loop computes the refill specification |
| `MatchingGame.Round.constructor` | src/MatchingGame.js:106-136 | the initial state: empty deck, table and lists, turn 1, one hint, clicks ignored |
| `MatchingGame.Round.Deal` | src/MatchingGame.js:153-200 | `startGame`: the dealt (and, in pair mode, shuffled) table, the rest of the deck, the level's hints, clicks enabled |
| `MatchingGame.Round.ShowHint` | src/MatchingGame.js:212-219 | the hint shows and one hint is spent; nothing else changes |
| `MatchingGame.Round.Click` | src/MatchingGame.js:230-330 | ignored clicks change nothing; a `null` slot makes the update throw; otherwise the slot is marked and the verdict sets the value, the escaped and caught lists, the big word and the end of the turn |
| `MatchingGame.Round.Pick` | src/MatchingGame.js:238-327 | an accepted click marks its slot on a table without `null` slots and the verdict decides the new state |
| `MatchingGame.Round.Settle` | src/MatchingGame.js:250-327 | on the marked table, the verdict sets the match value, the escaped and caught lists, the big word and the end of the turn |
| `MatchingGame.Round.EndOfTurn` | src/MatchingGame.js:333-400 | only a pending turn ends; the table is refilled (and reshuffled in pair mode); the last turn reports all species seen and the caught, otherwise the turn advances |
| `WhoIsThat.LevelNamed` | src/WhoIsThatPokemon.js:6-34 | exactly the four level keys are known; only "timed" is timed |
| `WhoIsThat.ShuffleInPlace` | src/WhoIsThatPokemon.js:88-92 | the swap loop over the deck array computes the Fisher–Yates permutation of it |
| `WhoIsThat.ShuffledCopy` | src/WhoIsThatPokemon.js:84-92 | a copy of the pool, shuffled |
| `WhoIsThat.DealCards` | src/WhoIsThatPokemon.js:94-101 | `maxOnScreen` slots from the end of the deck, the rest remaining |
| `WhoIsThat.Replenished` | src/WhoIsThatPokemon.js:236-254 | an unclicked slot stays; the k-th clicked slot gets the k-th card from the end of the deck, or is spent once the deck is empty |
| `WhoIsThat.ReplenishTable` | src/WhoIsThatPokemon.js:236-254 | the replenish loop computes `Replenished` for every slot and pops one card per clicked slot |
| `WhoIsThat.ReplenishLeavesUncovered` | src/WhoIsThatPokemon.js:236-254 | after replenishing, clicked slots remain exactly for the clicks the deck could not cover |
| `WhoIsThat.Round.constructor` | src/WhoIsThatPokemon.js:43-80 | the initial state: empty deck and table, turn 1, one hint, clicks ignored |
| `WhoIsThat.Round.Deal` | src/WhoIsThatPokemon.js:82-122 | `startGame`: the shuffled pool dealt, `totalToCatch` the pool size, the level's hints, clicks enabled |
| `WhoIsThat.ShuffleAndDeal` | src/WhoIsThatPokemon.js:84-101 | the table is the deal layout of the shuffled pool and the deck what the deal leaves of it |
| `WhoIsThat.Round.Restart` | src/WhoIsThatPokemon.js:108-122 | `startGame`'s state: the given table and deck, empty lists, turn 1, no match value, the level's hints, clicks enabled |
| `WhoIsThat.Round.ShowHint` | src/WhoIsThatPokemon.js:125-132 | the hint shows and one hint is spent; nothing else changes |
| `WhoIsThat.Round.Click` | src/WhoIsThatPokemon.js:143-294 | as in the matching game without a catch limit; every clicked species is caught on success |
| `WhoIsThat.Round.Pick` | src/WhoIsThatPokemon.js:151-232 | an accepted click marks its card on a table without `null` slots and the verdict decides the new state |
| `WhoIsThat.Round.Settle` | src/WhoIsThatPokemon.js:164-232 | on the marked table, the verdict sets the match value, the escaped and caught lists, the big word and whether a replenish is pending |
| `WhoIsThat.Round.Replenish` | src/WhoIsThatPokemon.js:233-275 | the pending replenish refills the table from the deck; the last turn ends the game with the caught list, otherwise the turn advances |
| `TypeGame.LevelNamed` | src/TypeEffectivenessGame.js:13-43 | exactly the four level keys are known; only hard and timed set a catch limit |
| `TypeGame.ModeCount` | src/TypeEffectivenessGame.js:45-54 | "single" allows one type, "dual" two; other keys are unknown |
| `TypeGame.Multiplier` | src/TypeEffectivenessGame.js:115-118 | the chart entry for the first type, times the second type's entry for dual-typed defenders |
| `TypeGame.AllAttacks` | src/TypeEffectivenessGame.js:114-126 | one unclicked attack per attack type, in the chart's order |
| `TypeGame.InsertByEffect` | src/TypeEffectivenessGame.js:129 | inserting adds exactly the element, which lands in front or behind the old head |
| `TypeGame.InsertKeepsSorted` | src/TypeEffectivenessGame.js:129 | inserting into a list sorted by falling multiplier keeps it sorted |
| `TypeGame.SortByEffect` | src/TypeEffectivenessGame.js:129 | the sort is a permutation ordered by falling multiplier |
| `TypeGame.GetAttackArray` | src/TypeEffectivenessGame.js:110-134 | the loop builds the attack list, which is then sorted, cut to `max` and shuffled |
| `TypeGame.OfferedAreTheFirst` | src/TypeEffectivenessGame.js:129-131 | the offered attacks are a permutation of the first `max` of the sorted list |
| `TypeGame.OfferedShape` | src/TypeEffectivenessGame.js:110-134 | min(max, number of types) attacks are offered, all unclicked, all from the chart |
| `TypeGame.OfferedOnce` | src/TypeEffectivenessGame.js:110-134 | no attack type is offered twice |
| `TypeGame.OfferedAreTheBest` | src/TypeEffectivenessGame.js:129-130 | no attack left out is more effective than one offered |
| `TypeGame.EffectWord` | src/TypeEffectivenessGame.js:171-179 | "Super Effective" exactly from 2, "No Effect" exactly at 0 or below |
| `TypeGame.EffectWordMonotone` | src/TypeEffectivenessGame.js:171-179 | a stronger multiplier never gives a weaker word |
| `TypeGame.Eligible` | src/TypeEffectivenessGame.js:71 | the deck keeps exactly the species with at most the mode's number of types |
| `TypeGame.FitsMode` | src/TypeEffectivenessGame.js:71 | the deck's test passes exactly the species with at most `count` types |
| `TypeGame.EligibleInOrder` | src/TypeEffectivenessGame.js:71 | the deck keeps the shuffled order, and each admitted species as often as the pool holds it |
| `TypeGame.Game.constructor` | src/TypeEffectivenessGame.js:63-107 | the first defender's attacks, turn 1, the level's hints, clicks enabled |
| `TypeGame.Game.ShowHint` | src/TypeEffectivenessGame.js:136-143 | the hint shows and one hint is spent; nothing else changes |
| `TypeGame.Game.Click` | src/TypeEffectivenessGame.js:154-191 | an accepted click shows the multiplier's word and ends the turn; the attack list is unchanged |
| `TypeGame.Game.EndOfTurn` | src/TypeEffectivenessGame.js:194-233 | the next defender is popped and its attacks offered and the turn advances; an empty deck or the last turn throws |
| `TypeGame.Game.BeginNextTurn` | src/TypeEffectivenessGame.js:200-230 | the last defender of the deck is popped, its attacks offered, the turn counter raised, the hint hidden and clicks accepted again |
| `TypeGame.Start` | src/TypeEffectivenessGame.js:66-72 | no game when no species is eligible; otherwise the last eligible species defends first |
| `PokedexFilter.NameAt` | src/Pokedex.js:17-42 | a filter index names an entry exactly when it is in range |
| `PokedexFilter.SelectedPokedex` | src/Pokedex.js:96 | the selected pokedex exists exactly when its index is in range and its name is loaded |
| `PokedexFilter.Test` | src/Pokedex.js:100-143 | the function handed to `filter` accepts exactly the species meeting the criterion |
| `PokedexFilter.KeepMeeting` | src/Pokedex.js:100-143 | one filter call keeps exactly the species meeting its criterion |
| `PokedexFilter.KeepMeetingTwice` | src/Pokedex.js:104-113 | a filter applied twice (the colour filter is) equals it applied once |
| `PokedexFilter.Step` | src/Pokedex.js:99-145 | a stage keeps exactly the species it lets through; an inactive one keeps everything |
| `PokedexFilter.Stages` | src/Pokedex.js:95-150 | `getFilteredList` runs seven stages: personal, colour twice, habitat, type, shape, group |
| `PokedexFilter.StagesInactive` | src/Pokedex.js:99-134 | every stage is inactive exactly when the pokedex is not the personal one and no filter is on |
| `PokedexFilter.StagesAdmit` | src/Pokedex.js:95-150 | passing every stage is passing every active filter (`Admits`, with its `Passes*` parts) |
| `PokedexFilter.ChainMembership` | src/Pokedex.js:95-150 | a species survives a chain of stages exactly when it is in the list and every stage lets it through |
| `PokedexFilter.ChainCount` | src/Pokedex.js:95-150 | a chain of stages keeps each surviving species as often as the list holds it, and no other |
| `PokedexFilter.ChainIsSubsequence` | src/Pokedex.js:95-150 | a chain of stages keeps the survivors in the list's order |
| `PokedexFilter.ChainOfInactive` | src/Pokedex.js:95-150 | inactive stages leave the list unchanged |
| `PokedexFilter.NarrowAdmits` | src/Pokedex.js:95-150 | a species is listed exactly when it is in the pokedex and passes every active filter |
| `PokedexFilter.NarrowCounts` | src/Pokedex.js:95-150 | each admitted species is listed as often as the pokedex lists it; no other is listed |
| `PokedexFilter.NarrowIsSubsequence` | src/Pokedex.js:95-150 | the listed species keep the pokedex's order |
| `PokedexFilter.FilteredList` | src/Pokedex.js:95-150 | a list exists exactly when the selected pokedex does |
| `PokedexFilter.FilteredListIsAdmitted` | src/Pokedex.js:95-150 | the filtered list holds exactly the admitted species of the selected pokedex |
| `PokedexFilter.FilteredListIsSubsequence` | src/Pokedex.js:95-150 | the filtered list is the selected pokedex's admitted species, in its order, each as often as it lists them |
| `PokedexFilter.NoFilterListsEverything` | src/Pokedex.js:95-150 | with all filters at "all", a public pokedex lists its species unchanged |
| `PokedexFilter.OutOfRangeShowsNothing` | src/Pokedex.js:116-119 | a habitat index past the list's end filters everything out |
| `PokedexFilter.Browser.constructor` | src/Pokedex.js:49-74 | all six filters at zero, nothing selected |
| `PokedexFilter.Browser.ChangeFilter` | src/Pokedex.js:76-85 | one filter changes; choosing a pokedex clears the selection |
| `PokedexFilter.Browser.ChangeSpecies` | src/Pokedex.js:87-93 | an unknown species name throws; otherwise the species and its first variety are selected |
| `AppData.Index` | src/App.js:43-46 | the dictionary's keys are exactly the records' names |
| `AppData.IndexLastWins` | src/App.js:43-46 | a record is found under its name when no later record has that name |
| `AppData.Lookup` | src/App.js:52-53 | a name resolves to its dictionary entry, or to `undefined` |
| `AppData.ResolveNames` | src/App.js:51-58 | each name in a list is replaced by what it names, in place |
| `AppData.LinkSpecies` | src/App.js:49-62 | varieties and evolutions resolve through the varieties dictionary; a `null` predecessor stays `null`, an unknown one becomes `undefined` |
| `AppData.LinkPokedex` | src/App.js:66-71 | each species name of a pokedex resolves through the species dictionary |
| `AppData.LinkAllSpecies` | src/App.js:48-63 | every species record is resolved |
| `AppData.LinkAllPokedexes` | src/App.js:65-72 | every pokedex record is resolved |
| `AppData.PokedexReachesSpecies` | src/App.js:37-77 | a pokedex's j-th entry is the fully resolved species of that name |
| `AppData.IndexVarieties` | src/App.js:43-46 | the loop builds the varieties dictionary, the last record of a name winning |
| `AppData.IndexSpecies` | src/App.js:48-63 | the loop builds the species dictionary of resolved species records |
| `AppData.IndexPokedexes` | src/App.js:65-72 | the loop builds the pokedex dictionary of resolved pokedex records |
| `AppData.LoadDictionaries` | src/App.js:42-72 | the three loops build the three dictionaries |
| `AppData.App.constructor` | src/App.js:20-35 | the app starts loading, with no dictionaries |
| `AppData.App.LoadData` | src/App.js:37-78 | after loading, the three dictionaries are set and loading is over |
| `Text.Split` | src/createPokemonDataFile.js:53 | `split` gives at least one piece and no piece holds the separator |
| `Text.JoinSplit` | src/createPokemonDataFile.js:59-65 | joining the pieces of a split gives back the string |
| `Text.SplitJoin` | src/createPokemonDataFile.js:59-65 | splitting a join of separator-free words gives back the words |
| `Text.ReplaceFirst` | src/createPokemonDataFile.js:120-121 | a string `replace` changes nothing without an occurrence and otherwise swaps exactly one |
| `Text.ReplaceFirstShape` | src/createPokemonDataFile.js:193 | `replace` substitutes the first occurrence only |
| `Text.BlankOut` | src/createPokemonDataFile.js:191 | every line break becomes a space; nothing else changes |
| `Text.IndexOfFrom` | src/createPokemonDataFile.js:120-121 | the first occurrence at or after the start, or none; `indexOf` is this search from 0 |
| `Text.NumberOf` | src/createPokemonDataFile.js:185 | `Number` gives a number exactly for strings of decimal digits |
| `Text.StringLessIrreflexive` | src/createPokemonDataFile.js:185 | no string is less than itself |
| `Text.StringLessAsymmetric` | src/createPokemonDataFile.js:185 | no two strings are each less than the other |
| `Text.DecimalRoundTrip` | src/createPokemonDataFile.js:185 | `Number` reads back the version id of a URL |
| `DataFile.IdFromUrl` | src/createPokemonDataFile.js:52-56 | the id is the second-to-last `/`-fragment and holds no `/`; `undefined` without a `/` |
| `DataFile.IdOfUrlWithoutSlash` | src/createPokemonDataFile.js:52-56 | a URL without `/` has no id |
| `DataFile.IdOfTrailingSlashUrl` | src/createPokemonDataFile.js:52-56 | the id of `…/segment/` is `segment` |
| `DataFile.Capitalized` | src/createPokemonDataFile.js:171 | the first character upper-cased, the rest unchanged |
| `DataFile.CapitalizedOnlyChangesCase` | src/createPokemonDataFile.js:171 | the display name equals the name but for case |
| `DataFile.TitleCase` | src/createPokemonDataFile.js:58-66 | it throws exactly when a word is empty; otherwise it keeps the length and the words, each word capitalized |
| `DataFile.PokedexName` | src/createPokemonDataFile.js:119-121 | never longer; unchanged without an "updated-" or "extended-" |
| `DataFile.UpdatedPokedexName` | src/createPokemonDataFile.js:120 | "updated-kanto" becomes "kanto" |
| `DataFile.DisplayName` | src/createPokemonDataFile.js:127-129 | never longer; unchanged without "Updated ", "Extended " or "New " |
| `DataFile.LastEnglishOf` | src/createPokemonDataFile.js:174-178 | the text of the last English entry; `undefined` exactly when there is none |
| `DataFile.LastEnglish` | src/createPokemonDataFile.js:173-178 | the genus loop leaves the last English entry, `undefined` when there is none |
| `DataFile.PokedexDisplayName` | src/createPokemonDataFile.js:123-131 | the last English name with its prefixes removed; `undefined` without one |
| `DataFile.PokedexDescriptionAsWritten` | src/createPokemonDataFile.js:133-138 | as written: the description is always `undefined`, and the loop throws when an English description's index is past the names list |
| `DataFile.PokedexDescriptionIsLost` | src/createPokemonDataFile.js:136 | a pokedex with one English description ends up without it |
| `DataFile.PokedexDescription` | src/createPokemonDataFile.js:133-138 | corrected: the last English description |
| `DataFile.Newer` | src/createPokemonDataFile.js:185 | an undefined version is never newer, and neither is the version already held |
| `DataFile.Chosen` | src/createPokemonDataFile.js:180-189 | the chosen description is an English entry with its version id; with no English entry it is "" |
| `DataFile.FirstEnglishEntryTaken` | src/createPokemonDataFile.js:183-188 | a lone English entry with a positive version is chosen |
| `DataFile.StringVersionsCompareLexically` | src/createPokemonDataFile.js:185-187 | once a version is held, versions compare as strings: "10" does not replace "9", "9" replaces "10" |
| `DataFile.CleanDescription` | src/createPokemonDataFile.js:190-193 | the length is kept and no line break remains |
| `DataFile.CleanKeepsLineBreaksOut` | src/createPokemonDataFile.js:193 | the name substitution brings no line break back |
| `DataFile.SpeciesDescription` | src/createPokemonDataFile.js:180-194 | the loop and the clean-up compute the chosen, cleaned description |
| `DataFile.StatKey` | src/createPokemonDataFile.js:245-258 | the four plain stats keep their names, the two special ones become camel case, others are ignored |
| `DataFile.BaseOf` | src/createPokemonDataFile.js:243-259 | the base record holds exactly the known stats present |
| `DataFile.BaseOfLastWins` | src/createPokemonDataFile.js:244-259 | a stat's value is its last entry |
| `DataFile.BaseStats` | src/createPokemonDataFile.js:243-259 | the loop builds the base record |
| `DataFile.Centimetres` | src/createPokemonDataFile.js:261 | decimetres to centimetres, exactly |
| `DataFile.Grams` | src/createPokemonDataFile.js:262 | hectograms to grams, exactly |
| `Evolution.FindById` | src/createPokemonDataFile.js:309 | `find` gives the first species whose id is the URL's, or none |
| `Evolution.PushAllAppends` | src/createPokemonDataFile.js:317-322 | pushing onto a list appends the children's names in order |
| `Evolution.PushAllFromNull` | src/createPokemonDataFile.js:317-322 | starting from `null`, a list appears only when there is a child |
| `Evolution.LinkThirds` | src/createPokemonDataFile.js:330-340 | the third-stage pass keeps every record's name and id |
| `Evolution.LinkSeconds` | src/createPokemonDataFile.js:325-341 | the second-stage pass keeps every record's name and id |
| `Evolution.LinkChain` | src/createPokemonDataFile.js:306-341 | one chain keeps every record's name and id |
| `Evolution.LinkAll` | src/createPokemonDataFile.js:303-342 | all chains keep every record's name and id |
| `Evolution.LinkThirdStages` | src/createPokemonDataFile.js:330-340 | the third-stage loop computes its specification |
| `Evolution.LinkChainStages` | src/createPokemonDataFile.js:308-341 | the loops of one chain compute its specification |
| `Evolution.LinkEvolutions` | src/createPokemonDataFile.js:303-342 | the chain loop computes its specification |
| `Evolution.LinkThirdsEffect` | src/createPokemonDataFile.js:330-340 | the second stage lists its children; each third stage points back and evolves no further; others are untouched |
| `Evolution.LinkSecondsFrame` | src/createPokemonDataFile.js:325-341 | species outside the chain's later stages are untouched |
| `Evolution.LinkSecondsParents` | src/createPokemonDataFile.js:326-334 | each second stage points to the first and lists its own children |
| `Evolution.LinkSecondsGrandchildren` | src/createPokemonDataFile.js:336-339 | each third stage points to its second stage and evolves no further |
| `Evolution.LinkChainEffect` | src/createPokemonDataFile.js:309-341 | with distinct ids, the first stage has no predecessor and lists its children; every later stage points to its parent; species outside the chain are untouched |
| `PokeApi.Recased` | src/pokeApiInterface.js:28-29 | a word-start letter is upper-cased, the first lower-cased; all else kept |
| `PokeApi.RemoveSpaces` | src/pokeApiInterface.js:30 | no whitespace remains; every other character keeps its count |
| `PokeApi.ToCamelCase` | src/pokeApiInterface.js:27-31 | the result holds no whitespace |
| `PokeApi.CamelCaseKeepsOtherCharacters` | src/pokeApiInterface.js:27-31 | characters other than letters and whitespace, hyphens included, keep their counts |
| `PokeApi.CamelCaseOnlyChangesCase` | src/pokeApiInterface.js:27-31 | but for case, the result is the input without whitespace |
| `PokeApi.CamelCaseStartsLower` | src/pokeApiInterface.js:28-29 | a word character at the start is lower-cased |
| `PokeApi.CamelCaseKeepsHyphen` | src/pokeApiInterface.js:22-31 | "hello-world" gives "hello-World", not the "helloWorld" of the comment |
| `PokeApi.CamelCaseJoinsSpacedWords` | src/pokeApiInterface.js:27-31 | "hello world" gives "helloWorld" |
| `PokeApi.SpecialStatKeys` | src/pokeApiInterface.js:93-95 | "special-attack" becomes the key "special-Attack" |
| `PokeApi.ImageUrl` | src/pokeApiInterface.js:46-50 | the official artwork, or else a URL under the artwork base ending in ".png" |
| `PokeApi.FallbackNamesTheId` | src/pokeApiInterface.js:48-50 | the fallback URL's file name is the Pokémon's id |
| `PokeApi.TypeNames` | src/pokeApiInterface.js:52-56 | the types in the API's order |
| `PokeApi.LatestDescription` | src/pokeApiInterface.js:58-68 | the chosen English flavour text, line breaks turned to spaces |
| `PokeApi.CamelStats` | src/pokeApiInterface.js:93-95 | a key for exactly each stat name, camel-cased |
| `PokeApi.CamelStatsLastWins` | src/pokeApiInterface.js:93-95 | a key's value is that of its last stat |
| `PokeApi.StatsByCamelName` | src/pokeApiInterface.js:93-95 | the loop computes the stat keys |
| `PokeApi.LastOfForm` | src/pokeApiInterface.js:104-112 | the last variety of a form, or none exactly when there is none |
| `PokeApi.VarietyForms` | src/pokeApiInterface.js:104-112 | mega flag and name from the last "-mega" variety, gmax name from the last "-gmax" one |
| `PokeApi.ShapePokemon` | src/pokeApiInterface.js:71-112 | the record's fields, its stats, its genus and its forms; `canGmax` is always false |

## Left out

- Rendering, window sizes, image preloading, `alert`, messages and timers' delays: they are presentation, not game state. `message` strings are not modelled.
- `setState` batching and React Strict Mode's double call: the updater is applied once, at once. The `endOfTurn` guard that handles the double call is kept.
- lodash `cloneDeep`: values are immutable here, so every copy is exact.
- lodash `shuffle` and `Math.random`: their choices are parameters.
- `PersonalStore`, the settings and quest screens, routing and the `gameOver` callbacks' effects are not part of this model. A game over is reported as a result.
- File and network I/O: `fs.readFileSync`, the PokeAPI downloads, `downloadEvolutionChains` and `getPokemonNameArray`. Parsed responses are parameters.
- The data-file builder's `processList` only title-cases names (`DataFile.TitleCase`). Its file reads are left out.
- The timed levels' extra fields (`timeInitial`, time bonuses): no core code reads them.
- The fallback to local images and the pokedex record's image and species lists: they copy inputs.
- Text.NumberOf: `Number(str)` only for strings of digits. Other version strings are not modelled.
- Text.ToUpper: `toUpperCase` and `toLowerCase` only on ASCII letters. Other characters are kept unchanged.
- PokeApi.CamelStats: the stats are kept in their own map. `downloadPokemonData` writes each one into the Pokémon record under its camel-cased name (src/pokeApiInterface.js:93-95), so a stat named like a field (`name`, `types`) would overwrite it. That overwrite is not modelled.
- PokeApi.ShapePokemon: the same as `PokeApi.CamelStats`: the record's fields cannot be overwritten by a stat here.
- AppData.Lookup: `undefined` and `null` entries are both `None`, except for `evolvesFrom`.
- Evolution.LinkChain: chains are three stages deep, as the code walks them. Deeper stages are not visited.
- TypeGame.Game.EndOfTurn: requires the next defender to be covered by the type chart. A chart lookup of an unknown type, which gives `undefined` and a `NaN` multiplier, is not modelled.
- TypeGame.Game.constructor: requires the first defender to be covered by the type chart, for the same reason.
- TypeGame.Start: requires every eligible species to be covered by the type chart, for the same reason.
- TypeGame.SortByEffect: states a permutation sorted by falling multiplier. The order among attacks of equal multiplier, which the slice to `maxOnScreen` can depend on, is not stated.
- MatchingTable.RefillFrom: in pair mode the final table is described slot by slot only through `PlaceRefill` for each step. The lemmas about the whole loop (`RefillsAtMostNeeded`, `RefillTakesFromDeck`, `RefillWritesDealt`, `RefillClearsClicked`) say which cards can end up where, but not which refill a given slot ends with. A later partner copy can overwrite an earlier refill, so no simpler closed form holds.
- WhoIsThat.Round: the class models the identification game's algorithms. The component as written throws before they run: the constructor reads `MatchingGame.pokeballImageSrc` (src/WhoIsThatPokemon.js:70), and `MatchingGame` is never imported. `startGame` reads `this.state.mode.displayName` (src/WhoIsThatPokemon.js:117) on a mode that is never set, before its `setState`. Neither throw is modelled.
- WhoIsThat.Round.Click: the mode is a parameter. The component never sets one and imports no mode table.

## Findings

| source | as written | input that shows it | evidently intended | confidence | as-written member | corrected member |
|---|---|---|---|---|---|---|
| src/createPokemonDataFile.js:136 | the description is read from `names[x].description`, which names entries do not have; it is always `undefined` and throws when there are more descriptions than names | a pokedex with names `[{en, "Kanto"}]` and descriptions `[{en, "The Kanto region"}]` gets no description | `descriptions[x].description`: the last English description | high, not executed | `DataFile.PokedexDescriptionAsWritten` | `DataFile.PokedexDescription` |
