/**
 * The matching game's two configuration tables: the game modes (how a match
 * value is taken from a species and how a species is compared with it) and
 * the difficulty levels.
 */
module MatchRules {
  import opened Wrappers
  import opened Text
  import opened Catalog

  /** The four game modes. */
  datatype Mode = Color | Type | Shape | Name

  /**
   * The attribute fixed by the first pick of a turn: nothing yet (`null`),
   * a single attribute (colour, shape or display name) or a copy of the
   * picked species' type list.
   */
  datatype MatchValue = NoValue | Text(text: string) | TypeList(types: seq<string>)

  /** `gameMode[key.toLowerCase()]`; an unknown key gives `undefined`. */
  function ModeNamed(key: string): (r: Option<Mode>)
    ensures r == Some(Color) <==> LowerString(key) == "color"
    ensures r == Some(Type) <==> LowerString(key) == "type"
    ensures r == Some(Shape) <==> LowerString(key) == "shape"
    ensures r == Some(Name) <==> LowerString(key) == "name"
  {
    var k := LowerString(key);
    if k == "color" then Some(Color)
    else if k == "type" then Some(Type)
    else if k == "shape" then Some(Shape)
    else if k == "name" then Some(Name)
    else None
  }

  /** Only the name mode deals every species as a pair of cards. */
  predicate Pairs(mode: Mode)
  {
    mode == Name
  }

  /** `getMatchValue(species)`: never `null`; a list of types in type mode only, a copy of the first variety's types. */
  function GetMatchValue(mode: Mode, sp: Species): (r: MatchValue)
    ensures r != NoValue
    ensures r.TypeList? <==> mode == Type
    ensures r.TypeList? ==> r.types == sp.firstTypes
  {
    match mode
    case Color => Text(sp.color)
    case Type => TypeList(sp.firstTypes)
    case Shape => Text(sp.shape)
    case Name => Text(sp.displayName)
  }

  /**
   * `isMatching(species, matchValue)`: strict equality of the attribute for
   * colour, shape and name; for type, the species' types contain the first
   * entry of the match value, or the second entry when there are exactly two.
   */
  predicate IsMatching(mode: Mode, sp: Species, v: MatchValue)
    ensures IsMatching(mode, sp, v) ==> v != NoValue
    ensures mode != Type ==> (IsMatching(mode, sp, v) <==> v == GetMatchValue(mode, sp))
  {
    match mode
    case Color => v == Text(sp.color)
    case Shape => v == Text(sp.shape)
    case Name => v == Text(sp.displayName)
    case Type =>
      v.TypeList? &&
      ((|v.types| >= 1 && v.types[0] in sp.firstTypes) ||
       (|v.types| == 2 && v.types[1] in sp.firstTypes))
  }

  /** The `null` match value a round starts with matches no species in any mode. */
  lemma NoValueMatchesNothing(mode: Mode, sp: Species)
    ensures !IsMatching(mode, sp, NoValue)
  {
  }

  /**
   * A picked species matches its own match value, except in type mode for a
   * species whose first variety has no type at all.
   */
  lemma MatchesOwnValue(mode: Mode, sp: Species)
    ensures IsMatching(mode, sp, GetMatchValue(mode, sp)) <==> (mode != Type || |sp.firstTypes| >= 1)
  {
  }

  /** In the scalar modes matching is symmetric: a matches b's value iff b matches a's. */
  lemma ScalarMatchingSymmetric(mode: Mode, a: Species, b: Species)
    requires mode != Type
    ensures IsMatching(mode, a, GetMatchValue(mode, b)) <==> IsMatching(mode, b, GetMatchValue(mode, a))
  {
  }

  /**
   * Type matching is "either type", not set equality: a species sharing one
   * type with the picked species matches, whatever its other type.
   */
  lemma TypeMatchingSharesAType(picked: Species, other: Species)
    requires 1 <= |picked.firstTypes| <= 2
    ensures IsMatching(Type, other, GetMatchValue(Type, picked))
        <==> exists t :: t in picked.firstTypes && t in other.firstTypes
  {
    var ts := picked.firstTypes;
    if exists t :: t in ts && t in other.firstTypes {
      var t :| t in ts && t in other.firstTypes;
      if t != ts[0] {
        assert |ts| == 2 && t == ts[1];
      }
    }
  }

  /** A difficulty level: `levelConfig[level]`. */
  datatype Level = Level(
    maxTurns: nat,
    hintsAvailable: nat,
    showHowManyToCatch: bool,
    maxOnScreen: nat,
    maxCanCatch: nat,
    timedMode: bool)

  /** `levelConfig[key.toLowerCase()]`; an unknown key gives `undefined`. */
  function LevelNamed(key: string): (r: Option<Level>)
    ensures r.Some? <==> LowerString(key) in {"easy", "medium", "hard", "timed"}
    ensures r.Some? ==> r.value.maxOnScreen > 0 && r.value.maxOnScreen % 2 == 0
    ensures r.Some? ==> r.value.maxCanCatch >= 2 && r.value.maxTurns >= 15
  {
    var k := LowerString(key);
    if k == "easy" then Some(Level(15, 999, false, 12, 2, false))
    else if k == "medium" then Some(Level(20, 5, true, 16, 999, false))
    else if k == "hard" then Some(Level(20, 3, false, 24, 999, false))
    else if k == "timed" then Some(Level(9999, 3, false, 24, 999, true))
    else None
  }

  /** The congratulation shown on a successful turn, by how many cards matched. */
  function TierWord(totalPossibleMatches: int): (r: string)
    ensures r in {"Excellent!", "Great!", "Nice!"}
  {
    if totalPossibleMatches >= 6 then "Excellent!"
    else if totalPossibleMatches >= 4 then "Great!"
    else "Nice!"
  }

  function TierRank(word: string): nat
  {
    if word == "Excellent!" then 2 else if word == "Great!" then 1 else 0
  }

  /** More matches never earn a lesser word; the thresholds are 4 and 6. */
  lemma TierWordMonotone(a: int, b: int)
    requires a <= b
    ensures TierRank(TierWord(a)) <= TierRank(TierWord(b))
    ensures TierRank(TierWord(b)) == (if b >= 6 then 2 else if b >= 4 then 1 else 0)
  {
  }
}
