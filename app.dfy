/**
 * The application shell's data loading: the three bundled data files refer
 * to each other by name, and `loadData` turns those names into the records
 * they name through three dictionaries. Until the dictionaries exist the
 * application shows its loading view.
 */
module AppData {
  import opened Wrappers

  /** A pokemon (variety) record of the data file; `types` stands for the rest of the record. */
  datatype VarietyRecord = VarietyRecord(name: string, types: seq<string>)

  /** A species record as stored: its varieties and evolutions named; `evolvesTo`/`evolvesFrom` may be `null`. */
  datatype SpeciesRecord = SpeciesRecord(
    name: string,
    varieties: seq<string>,
    evolvesTo: Option<seq<string>>,
    evolvesFrom: Option<string>)

  /** A pokedex record as stored: its species named. */
  datatype PokedexRecord = PokedexRecord(name: string, species: seq<string>)

  /** What a resolved `evolvesFrom` holds: still `null`, `undefined` (an unknown name) or a variety. */
  datatype Link = Null | Undefined | Linked(variety: VarietyRecord)

  /** A species with its names resolved; an unknown name resolves to `undefined` (`None`). */
  datatype LinkedSpecies = LinkedSpecies(
    name: string,
    varieties: seq<Option<VarietyRecord>>,
    evolvesTo: Option<seq<Option<VarietyRecord>>>,
    evolvesFrom: Link)

  datatype LinkedPokedex = LinkedPokedex(name: string, species: seq<Option<LinkedSpecies>>)

  // ------------------------------------------------------------ dictionaries

  /** `dict[name] = record` for each record in turn: a later record with the same name replaces an earlier one. */
  function Index<T>(rs: seq<T>, key: T -> string): (m: map<string, T>)
    ensures m.Keys == set i | 0 <= i < |rs| :: key(rs[i])
  {
    if |rs| == 0 then map[]
    else Index(rs[..|rs| - 1], key)[key(rs[|rs| - 1]) := rs[|rs| - 1]]
  }

  /** The record a name maps to is the last record carrying that name. */
  lemma {:induction false} IndexLastWins<T>(rs: seq<T>, key: T -> string, i: nat)
    requires i < |rs|
    requires forall j :: i < j < |rs| ==> key(rs[j]) != key(rs[i])
    ensures key(rs[i]) in Index(rs, key) && Index(rs, key)[key(rs[i])] == rs[i]
  {
    if i < |rs| - 1 {
      IndexLastWins(rs[..|rs| - 1], key, i);
    }
  }

  /** `dict[name]`: `undefined` for a name the dictionary lacks. */
  function Lookup<T>(m: map<string, T>, name: string): (r: Option<T>)
    ensures r.Some? <==> name in m
    ensures r.Some? ==> r.value == m[name]
  {
    if name in m then Some(m[name]) else None
  }

  function VarietyName(v: VarietyRecord): string { v.name }
  function SpeciesName(s: LinkedSpecies): string { s.name }
  function PokedexName(p: LinkedPokedex): string { p.name }

  // ------------------------------------------------------------- resolution

  /** The inner loops of `loadData`: each name of a list replaced, in place, by what it names. */
  method ResolveNames<T>(names: seq<string>, dict: map<string, T>) returns (r: seq<Option<T>>)
    ensures |r| == |names|
    ensures forall j :: 0 <= j < |names| ==> r[j] == Lookup(dict, names[j])
  {
    var list: seq<Option<T>> := seq(|names|, j => None);
    var j := 0;
    while j < |names|
      invariant 0 <= j <= |names| && |list| == |names|
      invariant forall k :: 0 <= k < j ==> list[k] == Lookup(dict, names[k])
    {
      list := list[j := Lookup(dict, names[j])];
      j := j + 1;
    }
    return list;
  }

  /** The resolved form of a species record (the names looked up in the varieties dictionary). */
  function LinkSpecies(s: SpeciesRecord, varieties: map<string, VarietyRecord>): (r: LinkedSpecies)
    ensures r.name == s.name && |r.varieties| == |s.varieties|
    ensures forall j :: 0 <= j < |s.varieties| ==> r.varieties[j] == Lookup(varieties, s.varieties[j])
    ensures r.evolvesTo.None? <==> s.evolvesTo.None?
    ensures s.evolvesTo.Some? ==>
      (|r.evolvesTo.value| == |s.evolvesTo.value|
       && forall j :: 0 <= j < |s.evolvesTo.value| ==> r.evolvesTo.value[j] == Lookup(varieties, s.evolvesTo.value[j]))
    ensures s.evolvesFrom.None? <==> r.evolvesFrom.Null?
    ensures s.evolvesFrom.Some? && s.evolvesFrom.value in varieties ==> r.evolvesFrom == Linked(varieties[s.evolvesFrom.value])
    ensures s.evolvesFrom.Some? && s.evolvesFrom.value !in varieties ==> r.evolvesFrom.Undefined?
  {
    LinkedSpecies(
      s.name,
      seq(|s.varieties|, j requires 0 <= j < |s.varieties| => Lookup(varieties, s.varieties[j])),
      if s.evolvesTo.None? then None
      else Some(seq(|s.evolvesTo.value|, j requires 0 <= j < |s.evolvesTo.value| => Lookup(varieties, s.evolvesTo.value[j]))),
      if s.evolvesFrom.None? then Null
      else if s.evolvesFrom.value in varieties then Linked(varieties[s.evolvesFrom.value])
      else Undefined)
  }

  /** The resolved form of a pokedex record (the names looked up in the species dictionary). */
  function LinkPokedex(p: PokedexRecord, species: map<string, LinkedSpecies>): (r: LinkedPokedex)
    ensures r.name == p.name && |r.species| == |p.species|
    ensures forall j :: 0 <= j < |p.species| ==> r.species[j] == Lookup(species, p.species[j])
  {
    LinkedPokedex(p.name, seq(|p.species|, j requires 0 <= j < |p.species| => Lookup(species, p.species[j])))
  }

  function LinkAllSpecies(ss: seq<SpeciesRecord>, varieties: map<string, VarietyRecord>): (r: seq<LinkedSpecies>)
    ensures |r| == |ss| && forall i :: 0 <= i < |ss| ==> r[i] == LinkSpecies(ss[i], varieties)
  {
    seq(|ss|, i requires 0 <= i < |ss| => LinkSpecies(ss[i], varieties))
  }

  function LinkAllPokedexes(ps: seq<PokedexRecord>, species: map<string, LinkedSpecies>): (r: seq<LinkedPokedex>)
    ensures |r| == |ps| && forall i :: 0 <= i < |ps| ==> r[i] == LinkPokedex(ps[i], species)
  {
    seq(|ps|, i requires 0 <= i < |ps| => LinkPokedex(ps[i], species))
  }

  /** The three dictionaries `loadData` builds, as functions of the data files. */
  function Varieties(pokemonData: seq<VarietyRecord>): map<string, VarietyRecord>
  {
    Index(pokemonData, VarietyName)
  }

  function SpeciesDict(speciesData: seq<SpeciesRecord>, pokemonData: seq<VarietyRecord>): map<string, LinkedSpecies>
  {
    Index(LinkAllSpecies(speciesData, Varieties(pokemonData)), SpeciesName)
  }

  function Pokedexes(pokedexData: seq<PokedexRecord>, speciesData: seq<SpeciesRecord>, pokemonData: seq<VarietyRecord>): map<string, LinkedPokedex>
  {
    Index(LinkAllPokedexes(pokedexData, SpeciesDict(speciesData, pokemonData)), PokedexName)
  }

  /**
   * A species named in a pokedex, the last species record of that name, is
   * reached through the pokedex with its varieties resolved in order.
   */
  lemma PokedexReachesSpecies(pokedexData: seq<PokedexRecord>, speciesData: seq<SpeciesRecord>,
                              pokemonData: seq<VarietyRecord>, d: nat, j: nat, i: nat)
    requires d < |pokedexData| && forall e :: d < e < |pokedexData| ==> pokedexData[e].name != pokedexData[d].name
    requires j < |pokedexData[d].species|
    requires i < |speciesData| && speciesData[i].name == pokedexData[d].species[j]
    requires forall e :: i < e < |speciesData| ==> speciesData[e].name != speciesData[i].name
    ensures pokedexData[d].name in Pokedexes(pokedexData, speciesData, pokemonData)
    ensures var dex := Pokedexes(pokedexData, speciesData, pokemonData)[pokedexData[d].name];
      |dex.species| == |pokedexData[d].species|
      && dex.species[j] == Some(LinkSpecies(speciesData[i], Varieties(pokemonData)))
  {
    var linkedDexes := LinkAllPokedexes(pokedexData, SpeciesDict(speciesData, pokemonData));
    IndexLastWins(linkedDexes, PokedexName, d);
    var linkedSpecies := LinkAllSpecies(speciesData, Varieties(pokemonData));
    IndexLastWins(linkedSpecies, SpeciesName, i);
  }

  // ------------------------------------------------------------ the loading

  /** The first loop of `loadData`: each variety record under its name. */
  method IndexVarieties(pokemonData: seq<VarietyRecord>) returns (varieties: map<string, VarietyRecord>)
    ensures varieties == Varieties(pokemonData)
  {
    varieties := map[];
    var i := 0;
    while i < |pokemonData|
      invariant 0 <= i <= |pokemonData|
      invariant varieties == Index(pokemonData[..i], VarietyName)
    {
      assert pokemonData[..i + 1][..i] == pokemonData[..i];
      varieties := varieties[pokemonData[i].name := pokemonData[i]];
      i := i + 1;
    }
    assert pokemonData[..i] == pokemonData;
  }

  /** The second loop: each species record, its names resolved, under its name. */
  method IndexSpecies(speciesData: seq<SpeciesRecord>, varieties: map<string, VarietyRecord>)
    returns (species: map<string, LinkedSpecies>)
    ensures species == Index(LinkAllSpecies(speciesData, varieties), SpeciesName)
  {
    ghost var linkedSpecies := LinkAllSpecies(speciesData, varieties);
    species := map[];
    var i := 0;
    while i < |speciesData|
      invariant 0 <= i <= |speciesData|
      invariant species == Index(linkedSpecies[..i], SpeciesName)
    {
      var s := speciesData[i];
      var vs := ResolveNames(s.varieties, varieties);
      var to: Option<seq<Option<VarietyRecord>>> := None;
      if s.evolvesTo.Some? {
        var names := ResolveNames(s.evolvesTo.value, varieties);
        to := Some(names);
      }
      var from := if s.evolvesFrom.None? then Null
                  else if s.evolvesFrom.value in varieties then Linked(varieties[s.evolvesFrom.value])
                  else Undefined;
      var linked := LinkedSpecies(s.name, vs, to, from);
      assert vs == linkedSpecies[i].varieties;
      assert s.evolvesTo.Some? ==> to.value == linkedSpecies[i].evolvesTo.value;
      assert linked == linkedSpecies[i];
      assert linkedSpecies[..i + 1][..i] == linkedSpecies[..i];
      species := species[s.name := linked];
      i := i + 1;
    }
    assert linkedSpecies[..i] == linkedSpecies;
  }

  /** The third loop: each pokedex record, its species resolved, under its name. */
  method IndexPokedexes(pokedexData: seq<PokedexRecord>, species: map<string, LinkedSpecies>)
    returns (pokedexes: map<string, LinkedPokedex>)
    ensures pokedexes == Index(LinkAllPokedexes(pokedexData, species), PokedexName)
  {
    ghost var linkedDexes := LinkAllPokedexes(pokedexData, species);
    pokedexes := map[];
    var i := 0;
    while i < |pokedexData|
      invariant 0 <= i <= |pokedexData|
      invariant pokedexes == Index(linkedDexes[..i], PokedexName)
    {
      var p := pokedexData[i];
      var members := ResolveNames(p.species, species);
      var linked := LinkedPokedex(p.name, members);
      assert linked == linkedDexes[i];
      assert linkedDexes[..i + 1][..i] == linkedDexes[..i];
      pokedexes := pokedexes[p.name := linked];
      i := i + 1;
    }
    assert linkedDexes[..i] == linkedDexes;
  }

  /** The three loops of `loadData`, in order: each resolves names in the dictionary built before it. */
  method LoadDictionaries(pokedexData: seq<PokedexRecord>, speciesData: seq<SpeciesRecord>, pokemonData: seq<VarietyRecord>)
    returns (pokedexes: map<string, LinkedPokedex>, species: map<string, LinkedSpecies>, varieties: map<string, VarietyRecord>)
    ensures varieties == Varieties(pokemonData)
    ensures species == SpeciesDict(speciesData, pokemonData)
    ensures pokedexes == Pokedexes(pokedexData, speciesData, pokemonData)
  {
    varieties := IndexVarieties(pokemonData);
    species := IndexSpecies(speciesData, varieties);
    pokedexes := IndexPokedexes(pokedexData, species);
  }

  /** The application's data state: `null` dictionaries until loading has run. */
  class App {
    var pokedexes: Option<map<string, LinkedPokedex>>
    var species: Option<map<string, LinkedSpecies>>
    var varieties: Option<map<string, VarietyRecord>>

    /** `render` shows the loading view while any dictionary is `null`. */
    predicate Loading()
      reads this
    {
      pokedexes.None? || species.None? || varieties.None?
    }

    constructor ()
      ensures pokedexes == None && species == None && varieties == None
      ensures Loading()
    {
      pokedexes, species, varieties := None, None, None;
    }

    /** `loadData`: build the three dictionaries and store them, ending the loading view. */
    method LoadData(pokedexData: seq<PokedexRecord>, speciesData: seq<SpeciesRecord>, pokemonData: seq<VarietyRecord>)
      modifies this
      ensures varieties == Some(Varieties(pokemonData))
      ensures species == Some(SpeciesDict(speciesData, pokemonData))
      ensures pokedexes == Some(Pokedexes(pokedexData, speciesData, pokemonData))
      ensures !Loading()
    {
      var p, s, v := LoadDictionaries(pokedexData, speciesData, pokemonData);
      pokedexes, species, varieties := Some(p), Some(s), Some(v);
    }
  }
}
