/**
 * The PokeAPI client's pure part: `toCamelCase` and the shaping of one
 * pokemon record from the pokemon and species responses (the fetches
 * themselves are parameters).
 */
module PokeApi {
  import opened Wrappers
  import opened Text
  import opened DataFile

  // ---------------------------------------------------------- toCamelCase

  /** `\b\w`: a word character with no word character before it. */
  predicate StartsWord(s: string, p: nat)
    requires p < |s|
  {
    IsWordChar(s[p]) && (p == 0 || !IsWordChar(s[p - 1]))
  }

  /** A position the pattern `(?:^\w|[A-Z]|\b\w)` matches (`^\w` is a case of `\b\w`). */
  predicate Matched(s: string, p: nat)
    requires p < |s|
  {
    IsAsciiUpper(s[p]) || StartsWord(s, p)
  }

  /** The first `replace`: a match at index 0 is lower-cased, any later match upper-cased. */
  function Recased(s: string): (r: string)
    ensures |r| == |s|
    ensures forall p :: 0 <= p < |s| ==>
              r[p] == (if !Matched(s, p) then s[p] else if p == 0 then ToLower(s[p]) else ToUpper(s[p]))
  {
    seq(|s|, p requires 0 <= p < |s| =>
      if !Matched(s, p) then s[p] else if p == 0 then ToLower(s[p]) else ToUpper(s[p]))
  }

  function Occurrences(s: string, c: char): nat
  {
    if |s| == 0 then 0 else (if s[0] == c then 1 else 0) + Occurrences(s[1..], c)
  }

  /** The second `replace`: `/\s+/g` by nothing. */
  function RemoveSpaces(t: string): (r: string)
    ensures |r| <= |t|
    ensures forall i :: 0 <= i < |r| ==> !IsSpace(r[i])
    ensures forall c :: !IsSpace(c) ==> Occurrences(r, c) == Occurrences(t, c)
  {
    if |t| == 0 then ""
    else if IsSpace(t[0]) then RemoveSpaces(t[1..])
    else
      var rest := RemoveSpaces(t[1..]);
      assert ([t[0]] + rest)[1..] == rest;
      [t[0]] + rest
  }

  /** `toCamelCase`: the result never contains whitespace. */
  function ToCamelCase(s: string): (r: string)
    ensures forall i :: 0 <= i < |r| ==> !IsSpace(r[i])
  {
    RemoveSpaces(Recased(s))
  }

  lemma {:induction false} SameOccurrences(a: string, b: string, c: char)
    requires |a| == |b|
    requires forall p :: 0 <= p < |a| ==> (a[p] == c <==> b[p] == c)
    ensures Occurrences(a, c) == Occurrences(b, c)
  {
    if |a| > 0 {
      SameOccurrences(a[1..], b[1..], c);
    }
  }

  /**
   * Only letters change case and only whitespace goes: every other character,
   * the hyphen in particular, is kept as often as it occurs.
   */
  lemma CamelCaseKeepsOtherCharacters(s: string, c: char)
    requires !IsSpace(c) && !IsAsciiUpper(c) && !IsAsciiLower(c)
    ensures Occurrences(ToCamelCase(s), c) == Occurrences(s, c)
  {
    SameOccurrences(Recased(s), s, c);
  }

  /** Lower-casing neither makes nor unmakes whitespace. */
  lemma LowerKeepsSpaces(c: char)
    ensures IsSpace(ToLower(c)) <==> IsSpace(c)
  {
  }

  lemma {:induction false} LowerRemoveSpacesCommute(t: string)
    ensures LowerString(RemoveSpaces(t)) == RemoveSpaces(LowerString(t))
  {
    if |t| > 0 {
      var l := LowerString(t);
      LowerRemoveSpacesCommute(t[1..]);
      assert l[1..] == LowerString(t[1..]);
      LowerKeepsSpaces(t[0]);
      if IsSpace(t[0]) {
        assert RemoveSpaces(t) == RemoveSpaces(t[1..]);
        assert RemoveSpaces(l) == RemoveSpaces(l[1..]);
      } else {
        var rest := RemoveSpaces(t[1..]);
        assert RemoveSpaces(t) == [t[0]] + rest;
        assert RemoveSpaces(l) == [l[0]] + RemoveSpaces(l[1..]);
        assert LowerString([t[0]] + rest) == [ToLower(t[0])] + LowerString(rest);
      }
    }
  }

  /** Apart from dropping whitespace, `toCamelCase` only changes the case of letters. */
  lemma CamelCaseOnlyChangesCase(s: string)
    ensures LowerString(ToCamelCase(s)) == RemoveSpaces(LowerString(s))
  {
    var r := Recased(s);
    forall p | 0 <= p < |s|
      ensures ToLower(r[p]) == ToLower(s[p])
    {
      CaseRoundTrip(s[p]);
    }
    assert LowerString(r) == LowerString(s);
    LowerRemoveSpacesCommute(r);
  }

  /** A string that starts with a word character starts lower-case. */
  lemma CamelCaseStartsLower(s: string)
    requires |s| > 0 && IsWordChar(s[0])
    ensures |ToCamelCase(s)| > 0 && ToCamelCase(s)[0] == ToLower(s[0])
  {
    var r := Recased(s);
    assert r[0] == ToLower(s[0]);
    assert !IsSpace(r[0]);
  }

  lemma {:induction false} RemoveSpacesConcat(a: string, b: string)
    ensures RemoveSpaces(a + b) == RemoveSpaces(a) + RemoveSpaces(b)
  {
    if |a| == 0 {
      assert a + b == b;
    } else {
      assert (a + b)[1..] == a[1..] + b;
      RemoveSpacesConcat(a[1..], b);
    }
  }

  lemma {:induction false} NoSpacesKept(t: string)
    requires forall i :: 0 <= i < |t| ==> !IsSpace(t[i])
    ensures RemoveSpaces(t) == t
  {
    if |t| > 0 {
      NoSpacesKept(t[1..]);
    }
  }

  predicate LowerWord(w: string)
  {
    |w| > 0 && forall i :: 0 <= i < |w| ==> IsAsciiLower(w[i])
  }

  /** Two lower-case words around a hyphen or space: the second word's first letter is upper-cased. */
  lemma RecasedTwoWords(a: string, sep: char, b: string)
    requires LowerWord(a) && LowerWord(b) && (sep == '-' || sep == ' ')
    ensures Recased(a + [sep] + b) == a + [sep] + Capitalized(b)
  {
    var s := a + [sep] + b;
    var r := Recased(s);
    var e := a + [sep] + Capitalized(b);
    forall p | 0 <= p < |s|
      ensures r[p] == e[p]
    {
      if p < |a| {
        assert s[p] == a[p];
        if p > 0 { assert s[p - 1] == a[p - 1]; }
      } else if p == |a| {
      } else if p == |a| + 1 {
        assert s[p] == b[0];
      } else {
        assert s[p] == b[p - |a| - 1] && s[p - 1] == b[p - |a| - 2];
        assert e[p] == Capitalized(b)[p - |a| - 1] == b[p - |a| - 1];
      }
    }
  }

  /** Hyphenated words keep their hyphen: `hello-world` becomes `hello-World`. */
  lemma CamelCaseKeepsHyphen(a: string, b: string)
    requires LowerWord(a) && LowerWord(b)
    ensures ToCamelCase(a + "-" + b) == a + "-" + Capitalized(b)
  {
    RecasedTwoWords(a, '-', b);
    var e := a + "-" + Capitalized(b);
    forall i | 0 <= i < |e| ensures !IsSpace(e[i]) {
      if i < |a| { assert e[i] == a[i]; }
      else if i > |a| + 1 { assert e[i] == b[i - |a| - 1]; }
    }
    NoSpacesKept(e);
  }

  /** Words separated by a space are joined with a capital: `hello world` becomes `helloWorld`. */
  lemma CamelCaseJoinsSpacedWords(a: string, b: string)
    requires LowerWord(a) && LowerWord(b)
    ensures ToCamelCase(a + " " + b) == a + Capitalized(b)
  {
    var c := Capitalized(b);
    calc {
      ToCamelCase(a + " " + b);
      RemoveSpaces(Recased(a + [' '] + b));
      { RecasedTwoWords(a, ' ', b); }
      RemoveSpaces(a + [' '] + c);
      { assert a + [' '] + c == a + ([' '] + c); }
      RemoveSpaces(a + ([' '] + c));
      { RemoveSpacesConcat(a, [' '] + c); }
      RemoveSpaces(a) + RemoveSpaces([' '] + c);
      { assert ([' '] + c)[1..] == c; }
      RemoveSpaces(a) + RemoveSpaces(c);
      { LettersKept(a); LettersKept(c); }
      a + c;
    }
  }

  /** A string of letters has no whitespace to remove. */
  lemma LettersKept(w: string)
    requires forall i :: 0 <= i < |w| ==> IsAsciiLower(w[i]) || IsAsciiUpper(w[i])
    ensures RemoveSpaces(w) == w
  {
    NoSpacesKept(w);
  }

  // ---------------------------------------------------------- API records

  /** The parts of the API's pokemon response that are read. */
  datatype PokemonResponse = PokemonResponse(
    id: nat, name: string, speciesName: string, officialArtwork: Option<string>,
    types: seq<string>, height: int, weight: int, stats: seq<StatEntry>)

  /** The parts of the API's species response that are read. */
  datatype SpeciesResponse = SpeciesResponse(
    flavorTextEntries: seq<FlavorEntry>, color: string, habitat: Option<string>,
    isLegendary: bool, isMythical: bool, shape: string, genera: seq<Localized>,
    varieties: seq<string>)

  /** The pokemon record built from the two responses; `stats` holds the keys the stat loop writes. */
  datatype Pokemon = Pokemon(
    id: nat, name: string, description: string, imageUrl: string, species: string,
    speciesColor: string, types: seq<string>, height: int, weight: int, habitat: string,
    isLegendary: bool, isMythical: bool, shape: string, canMega: bool, megaName: string,
    canGmax: bool, gmaxName: string, genus: Option<string>, stats: map<string, int>)

  const ArtworkBase: string := "https://raw.githubusercontent.com/PokeAPI/sprites/master/sprites/pokemon/other/official-artwork/"

  /** The official artwork, or the URL built from the pokemon's id when the API has none. */
  function ImageUrl(api: PokemonResponse): (url: string)
    ensures api.officialArtwork.Some? ==> url == api.officialArtwork.value
    ensures api.officialArtwork.None? ==> |url| > |ArtworkBase| + 4 && url[..|ArtworkBase|] == ArtworkBase
                                          && url[|url| - 4..] == ".png"
  {
    if api.officialArtwork.Some? then api.officialArtwork.value
    else ArtworkBase + DecimalString(api.id) + ".png"
  }

  /** The fallback URL names the pokemon's id. */
  lemma FallbackNamesTheId(api: PokemonResponse)
    requires api.officialArtwork.None?
    ensures var url := ImageUrl(api);
      NumberOf(url[|ArtworkBase|..|url| - 4]) == Some(api.id)
  {
    var url := ImageUrl(api);
    assert url[|ArtworkBase|..|url| - 4] == DecimalString(api.id);
    DecimalRoundTrip(api.id);
  }

  /** The stat loop's keys: each stat under the camel-cased form of its name, a later one winning. */
  function CamelStats(stats: seq<StatEntry>): (m: map<string, int>)
    ensures forall key :: key in m <==> exists j :: 0 <= j < |stats| && ToCamelCase(stats[j].name) == key
  {
    if |stats| == 0 then map[]
    else
      var last := |stats| - 1;
      var before := CamelStats(stats[..last]);
      assert forall j :: 0 <= j < last ==> stats[..last][j] == stats[j];
      before[ToCamelCase(stats[last].name) := stats[last].baseStat]
  }

  /** Each stored value is the one of the last stat with that key. */
  lemma {:induction false} CamelStatsLastWins(stats: seq<StatEntry>, j: nat)
    requires j < |stats|
    requires forall k :: j < k < |stats| ==> ToCamelCase(stats[k].name) != ToCamelCase(stats[j].name)
    ensures CamelStats(stats)[ToCamelCase(stats[j].name)] == stats[j].baseStat
  {
    var last := |stats| - 1;
    var key := ToCamelCase(stats[j].name);
    if j < last {
      var prefix := stats[..last];
      assert prefix[j] == stats[j];
      forall k | j < k < last ensures ToCamelCase(prefix[k].name) != key {
        assert prefix[k] == stats[k];
      }
      CamelStatsLastWins(prefix, j);
      assert ToCamelCase(stats[last].name) != key;
      assert CamelStats(stats) == CamelStats(prefix)[ToCamelCase(stats[last].name) := stats[last].baseStat];
    }
  }

  /**
   * The two-word stats keep their hyphen: "special-attack" is stored as
   * "special-Attack" and "special-defense" as "special-Defense".
   */
  lemma SpecialStatKeys(stat: string)
    requires stat == "attack" || stat == "defense"
    ensures ToCamelCase("special-" + stat) == "special-" + Capitalized(stat)
  {
    assert LowerWord("special");
    assert LowerWord(stat);
    CamelCaseKeepsHyphen("special", stat);
    assert "special" + "-" + stat == "special-" + stat;
    assert "special" + "-" + Capitalized(stat) == "special-" + Capitalized(stat);
  }

  // ------------------------------------------------------------- varieties

  datatype Form = Mega | Gmax

  /** A variety name counts as a mega form if it contains "-mega", else as gigantamax if it contains "-gmax". */
  predicate IsForm(variety: string, form: Form)
  {
    match form
    case Mega => Contains(variety, "-mega")
    case Gmax => !Contains(variety, "-mega") && Contains(variety, "-gmax")
  }

  /** The last variety of the given form, if any. */
  function LastOfForm(varieties: seq<string>, form: Form): (r: Option<string>)
    ensures r.None? <==> forall k :: 0 <= k < |varieties| ==> !IsForm(varieties[k], form)
    ensures r.Some? ==> exists k :: 0 <= k < |varieties| && IsForm(varieties[k], form) && varieties[k] == r.value
                          && forall j :: k < j < |varieties| ==> !IsForm(varieties[j], form)
  {
    if |varieties| == 0 then None
    else if IsForm(varieties[|varieties| - 1], form) then Some(varieties[|varieties| - 1])
    else
      var init := varieties[..|varieties| - 1];
      assert varieties == init + [varieties[|varieties| - 1]];
      LastOfForm(init, form)
  }

  function OrEmpty(name: Option<string>): string
  {
    if name.Some? then name.value else ""
  }

  // ------------------------------------------------------------ the shaping

  /** The fields copied or derived before the stat and variety loops. */
  predicate Basics(pokemon: Pokemon, api: PokemonResponse, species: SpeciesResponse)
  {
    && pokemon.id == api.id && pokemon.name == api.name && pokemon.species == api.speciesName
    && pokemon.imageUrl == ImageUrl(api)
    && pokemon.types == api.types
    && pokemon.description == BlankOut(Chosen(species.flavorTextEntries).description, LineBreaks)
    && pokemon.speciesColor == species.color && pokemon.shape == species.shape
    && pokemon.height == api.height && pokemon.weight == api.weight
    && pokemon.habitat == OrEmpty(species.habitat)
    && pokemon.isLegendary == species.isLegendary && pokemon.isMythical == species.isMythical
  }

  /** The types loop: `types[x]` is the API's `x`-th type name. */
  method TypeNames(apiTypes: seq<string>) returns (types: seq<string>)
    ensures types == apiTypes
  {
    types := [];
    for x := 0 to |apiTypes|
      invariant types == apiTypes[..x]
    {
      types := types + [apiTypes[x]];
    }
    assert apiTypes[..|apiTypes|] == apiTypes;
  }

  /** The description loop and the blanking of line breaks. */
  method LatestDescription(entries: seq<FlavorEntry>) returns (description: string)
    ensures description == BlankOut(Chosen(entries).description, LineBreaks)
  {
    description := "";
    var descriptionVersion := Zero;
    for x := 0 to |entries|
      invariant Choice(description, descriptionVersion) == Chosen(entries[..x])
    {
      assert entries[..x + 1][..x] == entries[..x];
      var version := IdFromUrl(entries[x].versionUrl);
      if entries[x].language == "en" && Newer(version, descriptionVersion) {
        description := entries[x].text;
        descriptionVersion := Id(version.value);
      }
    }
    assert entries[..|entries|] == entries;
    description := BlankOut(description, LineBreaks);
  }

  /** The stat loop. */
  method StatsByCamelName(stats: seq<StatEntry>) returns (m: map<string, int>)
    ensures m == CamelStats(stats)
  {
    m := map[];
    for x := 0 to |stats|
      invariant m == CamelStats(stats[..x])
    {
      assert stats[..x + 1][..x] == stats[..x];
      m := m[ToCamelCase(stats[x].name) := stats[x].baseStat];
    }
    assert stats[..|stats|] == stats;
  }

  /** The variety loop, starting from `canMega` false and empty names. */
  method VarietyForms(varieties: seq<string>) returns (canMega: bool, megaName: string, gmaxName: string)
    ensures canMega <==> LastOfForm(varieties, Mega).Some?
    ensures megaName == OrEmpty(LastOfForm(varieties, Mega))
    ensures gmaxName == OrEmpty(LastOfForm(varieties, Gmax))
  {
    canMega, megaName, gmaxName := false, "", "";
    for x := 0 to |varieties|
      invariant canMega <==> LastOfForm(varieties[..x], Mega).Some?
      invariant megaName == OrEmpty(LastOfForm(varieties[..x], Mega))
      invariant gmaxName == OrEmpty(LastOfForm(varieties[..x], Gmax))
    {
      assert varieties[..x + 1][..x] == varieties[..x];
      var variety := varieties[x];
      if Contains(variety, "-mega") {
        canMega := true;
        megaName := variety;
      } else if Contains(variety, "-gmax") {
        gmaxName := variety;
      }
    }
    assert varieties[..|varieties|] == varieties;
  }

  /**
   * `downloadPokemonData` after the two fetches: the image fallback, the
   * types in order, the latest English description with line breaks
   * blanked, the camel-cased stats, the last English genus and the mega and
   * gigantamax variety names; `canGmax` is never set.
   */
  method ShapePokemon(api: PokemonResponse, species: SpeciesResponse) returns (pokemon: Pokemon)
    ensures Basics(pokemon, api, species)
    ensures pokemon.stats == CamelStats(api.stats)
    ensures pokemon.genus == LastEnglishOf(species.genera)
    ensures pokemon.canMega <==> LastOfForm(species.varieties, Mega).Some?
    ensures pokemon.megaName == OrEmpty(LastOfForm(species.varieties, Mega))
    ensures !pokemon.canGmax
    ensures pokemon.gmaxName == OrEmpty(LastOfForm(species.varieties, Gmax))
  {
    var imageUrl := if api.officialArtwork.Some? then api.officialArtwork.value else "";
    if api.officialArtwork.None? {
      imageUrl := ArtworkBase + DecimalString(api.id) + ".png";
    }
    var types := TypeNames(api.types);
    var description := LatestDescription(species.flavorTextEntries);
    var habitat := if species.habitat.Some? then species.habitat.value else "";
    var stats := StatsByCamelName(api.stats);
    var genus := LastEnglish(species.genera);
    var canMega, megaName, gmaxName := VarietyForms(species.varieties);
    pokemon := Pokemon(api.id, api.name, description, imageUrl, api.speciesName, species.color, types,
                       api.height, api.weight, habitat, species.isLegendary, species.isMythical,
                       species.shape, canMega, megaName, false, gmaxName, genus, stats);
  }
}
