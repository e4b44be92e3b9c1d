/**
 * The pokedex browser: the filter selections it keeps, and the list of
 * species it shows for them.
 */
module PokedexFilter {
  import opened Wrappers
  import opened Catalog
  import opened Filtering

  /** A pokedex as the data file lists it. */
  datatype Pokedex = Pokedex(name: string, species: seq<Species>)

  /**
   * Each filter's dropdown entries: the pokedex names (led by "personal")
   * and, for colour, habitat, type and shape, the value names (led by "all").
   */
  datatype FilterNames = FilterNames(
    pokedex: seq<string>,
    color: seq<string>,
    habitat: seq<string>,
    types: seq<string>,
    shape: seq<string>)

  /** The six filter selections the browser starts with, all at their first entry. */
  const Keys: set<string> := {"pokedex", "color", "habitat", "type", "shape", "group"}

  predicate HasAllFilters(filter: map<string, int>)
  {
    Keys <= filter.Keys
  }

  /** `names[i]`: absent (`undefined`) outside the list. */
  function NameAt(names: seq<string>, i: int): (r: Option<string>)
    ensures r.Some? <==> 0 <= i < |names|
    ensures r.Some? ==> r.value in names
  {
    if 0 <= i < |names| then Some(names[i]) else None
  }

  /** A value filter at index `i`: inactive unless `i > 0`, then the value must equal the entry's name. */
  predicate PassesValue(names: seq<string>, i: int, value: string)
  {
    i <= 0 || NameAt(names, i) == Some(value)
  }

  predicate PassesType(names: seq<string>, i: int, sp: Species)
  {
    i <= 0 || (NameAt(names, i).Some? && NameAt(names, i).value in sp.firstTypes)
  }

  /** The group filter: 1 ordinary, 2 mythical, 3 legendary; any other index shows every group. */
  predicate PassesGroup(g: int, sp: Species)
  {
    if g == 1 then !sp.isLegendary && !sp.isMythical
    else if g == 2 then sp.isMythical
    else if g == 3 then sp.isLegendary
    else true
  }

  /** The personal pokedex lists only the species seen or caught. */
  predicate PassesPersonal(dex: Pokedex, sp: Species)
  {
    dex.name != "personal" || sp.seen || sp.caught
  }

  /** A species passes every active filter. */
  predicate Admits(names: FilterNames, f: map<string, int>, dex: Pokedex, sp: Species)
    requires HasAllFilters(f)
  {
    PassesPersonal(dex, sp)
    && PassesValue(names.color, f["color"], sp.color)
    && PassesValue(names.habitat, f["habitat"], sp.habitat)
    && PassesType(names.types, f["type"], sp)
    && PassesValue(names.shape, f["shape"], sp.shape)
    && PassesGroup(f["group"], sp)
  }

  /** The selected pokedex; `None` where the Pokédex page dereferences `undefined` and throws. */
  function SelectedPokedex(pokedexes: map<string, Pokedex>, names: FilterNames, f: map<string, int>): (r: Option<Pokedex>)
    requires HasAllFilters(f)
    ensures r.Some? <==> NameAt(names.pokedex, f["pokedex"]).Some? && NameAt(names.pokedex, f["pokedex"]).value in pokedexes
  {
    var key := NameAt(names.pokedex, f["pokedex"]);
    if key.Some? && key.value in pokedexes then Some(pokedexes[key.value]) else None
  }

  /** The test each `filter` call of `getFilteredList` applies. */
  datatype Criterion =
    | SeenOrCaught
    | ColorIs(color: Option<string>)
    | HabitatIs(habitat: Option<string>)
    | HasType(typeName: Option<string>)
    | ShapeIs(shape: Option<string>)
    | InGroup(group: int)

  predicate Meets(c: Criterion, sp: Species)
  {
    match c
    case SeenOrCaught => sp.seen || sp.caught
    case ColorIs(v) => v == Some(sp.color)
    case HabitatIs(v) => v == Some(sp.habitat)
    case HasType(v) => v.Some? && v.value in sp.firstTypes
    case ShapeIs(v) => v == Some(sp.shape)
    case InGroup(g) => PassesGroup(g, sp)
  }

  /** A criterion as the test function handed to `filter`. */
  function Test(c: Criterion): (p: Species -> bool)
    ensures forall sp :: p(sp) == Meets(c, sp)
  {
    sp => Meets(c, sp)
  }

  /** `list.filter(...)` with one criterion: the species meeting it, in order. */
  function KeepMeeting(l: seq<Species>, c: Criterion): (r: seq<Species>)
    ensures forall sp :: sp in r <==> sp in l && Meets(c, sp)
  {
    Keep(l, Test(c))
  }

  /** Filtering twice by the same criterion, as the colour filter does, is filtering once. */
  lemma KeepMeetingTwice(l: seq<Species>, c: Criterion)
    ensures KeepMeeting(KeepMeeting(l, c), c) == KeepMeeting(l, c)
  {
    KeepTwice(l, Test(c));
  }

  /** One conditional `filter` call of `getFilteredList`: its criterion, and whether its filter is active. */
  datatype Stage = Stage(active: bool, c: Criterion)

  /** A stage lets a species through when its filter is inactive or the species meets it. */
  predicate Lets(st: Stage, sp: Species)
  {
    !st.active || Meets(st.c, sp)
  }

  /** One stage applied: the whole list when inactive, else its `filter` call. */
  function Step(l: seq<Species>, st: Stage): (r: seq<Species>)
    ensures forall sp :: sp in r <==> sp in l && Lets(st, sp)
  {
    if st.active then KeepMeeting(l, st.c) else l
  }

  /**
   * The stages of `getFilteredList`, in the order it applies them: the
   * personal filter, the colour filter (applied twice), habitat, type,
   * shape, and the group filter, which only indices 1 to 3 activate.
   */
  function Stages(dex: Pokedex, names: FilterNames, f: map<string, int>): (r: seq<Stage>)
    requires HasAllFilters(f)
    ensures |r| == 7
  {
    [ Stage(dex.name == "personal", SeenOrCaught),
      Stage(f["color"] > 0, ColorIs(NameAt(names.color, f["color"]))),
      Stage(f["color"] > 0, ColorIs(NameAt(names.color, f["color"]))),
      Stage(f["habitat"] > 0, HabitatIs(NameAt(names.habitat, f["habitat"]))),
      Stage(f["type"] > 0, HasType(NameAt(names.types, f["type"]))),
      Stage(f["shape"] > 0, ShapeIs(NameAt(names.shape, f["shape"]))),
      Stage(f["group"] == 1 || f["group"] == 2 || f["group"] == 3, InGroup(f["group"])) ]
  }

  /** Every stage is inactive exactly when no filter is active. */
  lemma StagesInactive(dex: Pokedex, names: FilterNames, f: map<string, int>)
    requires HasAllFilters(f)
    ensures (forall k :: 0 <= k < 7 ==> !Stages(dex, names, f)[k].active) <==>
      dex.name != "personal" && f["color"] <= 0 && f["habitat"] <= 0 && f["type"] <= 0 && f["shape"] <= 0
      && f["group"] != 1 && f["group"] != 2 && f["group"] != 3
  {
    var st := Stages(dex, names, f);
    assert st[0].active == (dex.name == "personal") && st[1].active == (f["color"] > 0);
    assert st[3].active == (f["habitat"] > 0) && st[4].active == (f["type"] > 0) && st[5].active == (f["shape"] > 0);
    assert st[6].active == (f["group"] == 1 || f["group"] == 2 || f["group"] == 3);
  }

  /** Stages applied one after another, each to the list the previous one left. */
  function Chain(l: seq<Species>, stages: seq<Stage>): seq<Species>
    decreases |stages|
  {
    if |stages| == 0 then l else Chain(Step(l, stages[0]), stages[1..])
  }

  ghost predicate LetsAll(stages: seq<Stage>, sp: Species)
  {
    forall k :: 0 <= k < |stages| ==> Lets(stages[k], sp)
  }

  lemma {:induction false} ChainMembership(l: seq<Species>, stages: seq<Stage>, sp: Species)
    ensures sp in Chain(l, stages) <==> sp in l && LetsAll(stages, sp)
    decreases |stages|
  {
    if |stages| > 0 {
      ChainMembership(Step(l, stages[0]), stages[1..], sp);
      assert LetsAll(stages, sp) <==> Lets(stages[0], sp) && LetsAll(stages[1..], sp) by {
        assert forall k :: 0 < k < |stages| ==> stages[k] == stages[1..][k - 1];
      }
    }
  }

  /** Each species that passes every stage keeps its multiplicity; every other one is dropped. */
  lemma {:induction false} ChainCount(l: seq<Species>, stages: seq<Stage>, sp: Species)
    ensures multiset(Chain(l, stages))[sp] == if LetsAll(stages, sp) then multiset(l)[sp] else 0
    decreases |stages|
  {
    if |stages| > 0 {
      ChainCount(Step(l, stages[0]), stages[1..], sp);
      if stages[0].active {
        KeepCount(l, Test(stages[0].c), sp);
      }
      assert LetsAll(stages, sp) <==> Lets(stages[0], sp) && LetsAll(stages[1..], sp) by {
        assert forall k :: 0 < k < |stages| ==> stages[k] == stages[1..][k - 1];
      }
    }
  }

  /** The stages keep the surviving species in the order they came in. */
  lemma {:induction false} ChainIsSubsequence(l: seq<Species>, stages: seq<Stage>)
    ensures Subsequence(Chain(l, stages), l)
    decreases |stages|
  {
    if |stages| == 0 {
      SubsequenceOfItself(l);
    } else {
      var next := Step(l, stages[0]);
      ChainIsSubsequence(next, stages[1..]);
      if stages[0].active {
        KeepIsSubsequence(l, Test(stages[0].c));
      } else {
        SubsequenceOfItself(l);
      }
      SubsequenceTransitive(Chain(next, stages[1..]), next, l);
    }
  }

  /** Stages that are all inactive leave the list as it is. */
  lemma {:induction false} ChainOfInactive(l: seq<Species>, stages: seq<Stage>)
    requires forall k :: 0 <= k < |stages| ==> !stages[k].active
    ensures Chain(l, stages) == l
    decreases |stages|
  {
    if |stages| > 0 {
      assert forall k :: 0 < k < |stages| ==> stages[k] == stages[1..][k - 1];
      ChainOfInactive(l, stages[1..]);
    }
  }

  /** Passing every stage of `getFilteredList` is passing every active filter. */
  lemma StagesAdmit(dex: Pokedex, names: FilterNames, f: map<string, int>, sp: Species)
    requires HasAllFilters(f)
    ensures LetsAll(Stages(dex, names, f), sp) <==> Admits(names, f, dex, sp)
  {
    var st := Stages(dex, names, f);
    assert Lets(st[0], sp) <==> PassesPersonal(dex, sp);
    assert Lets(st[1], sp) <==> PassesValue(names.color, f["color"], sp.color);
    assert Lets(st[2], sp) <==> PassesValue(names.color, f["color"], sp.color);
    assert Lets(st[3], sp) <==> PassesValue(names.habitat, f["habitat"], sp.habitat);
    assert Lets(st[4], sp) <==> PassesType(names.types, f["type"], sp);
    assert Lets(st[5], sp) <==> PassesValue(names.shape, f["shape"], sp.shape);
    assert Lets(st[6], sp) <==> PassesGroup(f["group"], sp);
  }

  /** The narrowing of `getFilteredList`: the pokedex's species through every stage. */
  function Narrow(dex: Pokedex, names: FilterNames, f: map<string, int>): seq<Species>
    requires HasAllFilters(f)
  {
    Chain(dex.species, Stages(dex, names, f))
  }

  /** A species survives the narrowing exactly when it is in the pokedex and passes every active filter. */
  lemma NarrowAdmits(dex: Pokedex, names: FilterNames, f: map<string, int>, sp: Species)
    requires HasAllFilters(f)
    ensures sp in Narrow(dex, names, f) <==> sp in dex.species && Admits(names, f, dex, sp)
  {
    ChainMembership(dex.species, Stages(dex, names, f), sp);
    StagesAdmit(dex, names, f, sp);
  }

  /** `getFilteredList`: the selected pokedex, narrowed; `None` where the lookup throws. */
  function FilteredList(pokedexes: map<string, Pokedex>, names: FilterNames, f: map<string, int>): (r: Option<seq<Species>>)
    requires HasAllFilters(f)
    ensures r.Some? <==> SelectedPokedex(pokedexes, names, f).Some?
  {
    var dex := SelectedPokedex(pokedexes, names, f);
    if dex.None? then None else Some(Narrow(dex.value, names, f))
  }

  /** A species is listed exactly when it is in the selected pokedex and passes every active filter. */
  lemma FilteredListIsAdmitted(pokedexes: map<string, Pokedex>, names: FilterNames, f: map<string, int>, sp: Species)
    requires HasAllFilters(f)
    requires SelectedPokedex(pokedexes, names, f).Some?
    ensures var dex := SelectedPokedex(pokedexes, names, f).value;
      sp in FilteredList(pokedexes, names, f).value <==> sp in dex.species && Admits(names, f, dex, sp)
  {
    NarrowAdmits(SelectedPokedex(pokedexes, names, f).value, names, f, sp);
  }

  /** The narrowing keeps every admitted species as often as the pokedex lists it, and no other. */
  lemma NarrowCounts(dex: Pokedex, names: FilterNames, f: map<string, int>, sp: Species)
    requires HasAllFilters(f)
    ensures multiset(Narrow(dex, names, f))[sp] == if Admits(names, f, dex, sp) then multiset(dex.species)[sp] else 0
  {
    ChainCount(dex.species, Stages(dex, names, f), sp);
    StagesAdmit(dex, names, f, sp);
  }

  /** The narrowing lists the survivors in the pokedex's own order. */
  lemma NarrowIsSubsequence(dex: Pokedex, names: FilterNames, f: map<string, int>)
    requires HasAllFilters(f)
    ensures Subsequence(Narrow(dex, names, f), dex.species)
  {
    ChainIsSubsequence(dex.species, Stages(dex, names, f));
  }

  /**
   * `getFilteredList` lists the admitted species of the selected pokedex in
   * its order, each as often as the pokedex lists it.
   */
  lemma FilteredListIsSubsequence(pokedexes: map<string, Pokedex>, names: FilterNames, f: map<string, int>)
    requires HasAllFilters(f)
    requires SelectedPokedex(pokedexes, names, f).Some?
    ensures var dex := SelectedPokedex(pokedexes, names, f).value;
      var list := FilteredList(pokedexes, names, f).value;
      && Subsequence(list, dex.species)
      && forall sp :: multiset(list)[sp] == if Admits(names, f, dex, sp) then multiset(dex.species)[sp] else 0
  {
    var dex := SelectedPokedex(pokedexes, names, f).value;
    NarrowIsSubsequence(dex, names, f);
    forall sp ensures multiset(Narrow(dex, names, f))[sp] == if Admits(names, f, dex, sp) then multiset(dex.species)[sp] else 0 {
      NarrowCounts(dex, names, f, sp);
    }
  }

  /** With every filter at its first entry, an ordinary pokedex is listed whole, in its own order. */
  lemma NoFilterListsEverything(pokedexes: map<string, Pokedex>, names: FilterNames, f: map<string, int>)
    requires HasAllFilters(f)
    requires f["color"] == 0 && f["habitat"] == 0 && f["type"] == 0 && f["shape"] == 0 && f["group"] == 0
    requires SelectedPokedex(pokedexes, names, f).Some? && SelectedPokedex(pokedexes, names, f).value.name != "personal"
    ensures FilteredList(pokedexes, names, f) == Some(SelectedPokedex(pokedexes, names, f).value.species)
  {
    var dex := SelectedPokedex(pokedexes, names, f).value;
    StagesInactive(dex, names, f);
    ChainOfInactive(dex.species, Stages(dex, names, f));
  }

  /** An out-of-range value index shows nothing: the compared name is `undefined`. */
  lemma OutOfRangeShowsNothing(pokedexes: map<string, Pokedex>, names: FilterNames, f: map<string, int>)
    requires HasAllFilters(f) && f["habitat"] > 0 && f["habitat"] >= |names.habitat|
    requires SelectedPokedex(pokedexes, names, f).Some?
    ensures forall sp :: sp !in FilteredList(pokedexes, names, f).value
  {
    forall sp ensures sp !in FilteredList(pokedexes, names, f).value {
      FilteredListIsAdmitted(pokedexes, names, f, sp);
    }
  }

  /** The browser's own state: the filter selections and the species on display. */
  class Browser {
    var filter: map<string, int>
    var currentSpecies: Option<Species>
    /** Index of the variety on display; the first variety on a species change. */
    var currentVariety: Option<nat>

    constructor ()
      ensures filter == map["pokedex" := 0, "color" := 0, "habitat" := 0, "type" := 0, "shape" := 0, "group" := 0]
      ensures HasAllFilters(filter)
      ensures currentSpecies == None && currentVariety == None
    {
      filter := map["pokedex" := 0, "color" := 0, "habitat" := 0, "type" := 0, "shape" := 0, "group" := 0];
      currentSpecies := None;
      currentVariety := None;
    }

    /** `handleFilterChange(name, index)`: a new pokedex also clears the species on display. */
    method ChangeFilter(name: string, index: int)
      modifies this
      ensures filter == old(filter)[name := index]
      ensures HasAllFilters(old(filter)) ==> HasAllFilters(filter)
      ensures name == "pokedex" ==> currentSpecies == None && currentVariety == None
      ensures name != "pokedex" ==> currentSpecies == old(currentSpecies) && currentVariety == old(currentVariety)
    {
      filter := filter[name := index];
      if name == "pokedex" {
        currentSpecies := None;
        currentVariety := None;
      }
    }

    /** `handleSpeciesChange(name)`: show the named species at its first variety; an unknown name throws. */
    method ChangeSpecies(species: map<string, Species>, name: string) returns (crashed: bool)
      modifies this
      ensures crashed <==> name !in species
      ensures filter == old(filter)
      ensures crashed ==> currentSpecies == old(currentSpecies) && currentVariety == old(currentVariety)
      ensures !crashed ==> currentSpecies == Some(species[name]) && currentVariety == Some(0)
    {
      if name !in species {
        return true;
      }
      currentSpecies := Some(species[name]);
      currentVariety := Some(0);
      return false;
    }
  }
}
