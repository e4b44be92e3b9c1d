/**
 * The record-shaping helpers of the offline data-file builder: ids taken from
 * API URLs, title-cased and stripped names, the latest English description,
 * the base-stat keys and the unit conversions.  Evolution linking is in
 * evolution.dfy.
 */
module DataFile {
  import opened Wrappers
  import opened Text

  // ------------------------------------------------------------------- ids

  /**
   * `idFromUrl`: the second-to-last `/`-separated fragment of a URL, or
   * `undefined` (None) when there is no such fragment.
   */
  function IdFromUrl(url: string): (r: Option<string>)
    ensures r.Some? ==> '/' !in r.value
  {
    var fragments := Split(url, '/');
    if |fragments| < 2 then None else Some(fragments[|fragments| - 2])
  }

  /** A URL without any `/` has no id. */
  lemma IdOfUrlWithoutSlash(url: string)
    requires '/' !in url
    ensures IdFromUrl(url).None?
  {
    SplitNoSeparator(url, '/');
  }

  /** For a URL ending in `/<segment>/` the id is that last path segment. */
  lemma IdOfTrailingSlashUrl(prefix: string, segment: string)
    requires '/' !in segment
    ensures IdFromUrl(prefix + "/" + segment + "/") == Some(segment)
  {
    var url := prefix + "/" + segment + "/";
    assert url == prefix + ['/'] + (segment + ['/'] + "");
    SplitConcat(prefix, '/', segment + ['/'] + "");
    SplitConcat(segment, '/', "");
    SplitNoSeparator(segment, '/');
    SplitNoSeparator("", '/');
  }

  // ----------------------------------------------------------- title case

  /** `charAt(0).toUpperCase() + slice(1)`: the empty string stays empty. */
  function Capitalized(w: string): (r: string)
    ensures |r| == |w|
    ensures |w| > 0 ==> r[0] == ToUpper(w[0]) && r[1..] == w[1..]
  {
    if |w| == 0 then "" else [ToUpper(w[0])] + w[1..]
  }

  /** Capitalising changes nothing but the case of the first letter. */
  lemma CapitalizedOnlyChangesCase(w: string)
    ensures LowerString(Capitalized(w)) == LowerString(w)
  {
    if |w| > 0 {
      CaseRoundTrip(w[0]);
      var c := Capitalized(w);
      assert forall i :: 0 <= i < |w| ==> ToLower(c[i]) == ToLower(w[i]) by {
        forall i | 0 <= i < |w|
          ensures ToLower(c[i]) == ToLower(w[i])
        {
          if i > 0 { assert c[i] == c[1..][i - 1]; }
        }
      }
    }
  }

  lemma {:induction false} SameTotalLength(a: seq<string>, b: seq<string>)
    requires |a| == |b|
    requires forall k :: 0 <= k < |a| ==> |a[k]| == |b[k]|
    ensures TotalLength(a) == TotalLength(b)
  {
    if |a| > 0 {
      SameTotalLength(a[1..], b[1..]);
    }
  }

  /**
   * `titleCase`: every space-separated word gets its first character
   * upper-cased in place.  An empty word (two spaces in a row, a leading or
   * trailing space, or an empty string) makes `words[i][0]` undefined and
   * the call throws: None.
   */
  method TitleCase(str: string) returns (r: Option<string>)
    ensures r.None? <==> exists k :: 0 <= k < |Split(str, ' ')| && Split(str, ' ')[k] == ""
    ensures r.Some? ==> |r.value| == |str|
    ensures r.Some? ==> |Split(r.value, ' ')| == |Split(str, ' ')|
    ensures r.Some? ==> forall k :: 0 <= k < |Split(str, ' ')| ==>
              Split(r.value, ' ')[k] == Capitalized(Split(str, ' ')[k])
  {
    var original := Split(str, ' ');
    var words := original;
    var i := 0;
    while i < |words|
      invariant 0 <= i <= |words| == |original|
      invariant forall k :: 0 <= k < i ==> original[k] != "" && words[k] == Capitalized(original[k])
      invariant forall k :: i <= k < |words| ==> words[k] == original[k]
    {
      if |words[i]| == 0 {
        assert |original[i]| == 0;
        assert Split(str, ' ')[i] == [];
        return None;
      }
      words := words[i := [ToUpper(words[i][0])] + words[i][1..]];
      i := i + 1;
    }
    forall k | 0 <= k < |words|
      ensures ' ' !in words[k]
    {
      assert ' ' !in original[k];
      assert original[k][0] in original[k];
      assert words[k] == [ToUpper(original[k][0])] + original[k][1..];
    }
    SplitJoin(words, ' ');
    JoinLength(words, ' ');
    JoinLength(original, ' ');
    SameTotalLength(words, original);
    JoinSplit(str, ' ');
    r := Some(Join(words, ' '));
  }

  // ------------------------------------------------------- pokedex names

  /** The pokedex's unique name loses the first "updated-" and then the first "extended-". */
  function PokedexName(apiName: string): (r: string)
    ensures |r| <= |apiName|
    ensures !Contains(apiName, "updated-") && !Contains(apiName, "extended-") ==> r == apiName
  {
    ReplaceFirst(ReplaceFirst(apiName, "updated-", ""), "extended-", "")
  }

  /** An "updated-" name is listed under the plain one. */
  lemma UpdatedPokedexName(rest: string)
    requires !Contains(rest, "extended-")
    ensures PokedexName("updated-" + rest) == rest
  {
    StripLeadingOccurrence("updated-", rest);
  }

  /** The display name loses the first "Updated ", "Extended " and "New ", in that order. */
  function DisplayName(apiName: string): (r: string)
    ensures |r| <= |apiName|
    ensures !Contains(apiName, "Updated ") && !Contains(apiName, "Extended ") && !Contains(apiName, "New ")
            ==> r == apiName
  {
    ReplaceFirst(ReplaceFirst(ReplaceFirst(apiName, "Updated ", ""), "Extended ", ""), "New ", "")
  }

  // ------------------------------------------------- localised API entries

  /** A localised API entry: the language code and the text in that language. */
  datatype Localized = Localized(language: string, text: string)

  predicate IsEnglish(e: Localized) { e.language == "en" }

  /**
   * The text of the last English entry, or None when there is none: what a
   * loop that overwrites its result on every English entry leaves behind.
   */
  function LastEnglishOf(entries: seq<Localized>): (r: Option<string>)
    ensures r.None? <==> forall k :: 0 <= k < |entries| ==> !IsEnglish(entries[k])
    ensures r.Some? ==> exists k :: 0 <= k < |entries| && IsEnglish(entries[k]) && entries[k].text == r.value
                          && forall j :: k < j < |entries| ==> !IsEnglish(entries[j])
  {
    if |entries| == 0 then None
    else if IsEnglish(entries[|entries| - 1]) then Some(entries[|entries| - 1].text)
    else
      var init := entries[..|entries| - 1];
      assert entries == init + [entries[|entries| - 1]];
      LastEnglishOf(init)
  }

  /**
   * The genus loop: every English entry overwrites the one before. The
   * pokedex description loop, as intended, is the same loop.
   */
  method LastEnglish(entries: seq<Localized>) returns (text: Option<string>)
    ensures text == LastEnglishOf(entries)
  {
    text := None;
    for x := 0 to |entries|
      invariant text == LastEnglishOf(entries[..x])
    {
      assert entries[..x + 1][..x] == entries[..x];
      if entries[x].language == "en" {
        text := Some(entries[x].text);
      }
    }
    assert entries[..|entries|] == entries;
  }

  /** The pokedex display-name loop: each English name, stripped, overwrites the one before. */
  method PokedexDisplayName(names: seq<Localized>) returns (displayName: Option<string>)
    ensures displayName.None? <==> LastEnglishOf(names).None?
    ensures displayName.Some? ==> displayName.value == DisplayName(LastEnglishOf(names).value)
  {
    displayName := None;
    for x := 0 to |names|
      invariant displayName.None? <==> LastEnglishOf(names[..x]).None?
      invariant displayName.Some? ==> displayName.value == DisplayName(LastEnglishOf(names[..x]).value)
    {
      assert names[..x + 1][..x] == names[..x];
      if names[x].language == "en" {
        var d := names[x].text;
        d := ReplaceFirst(d, "Updated ", "");
        d := ReplaceFirst(d, "Extended ", "");
        d := ReplaceFirst(d, "New ", "");
        displayName := Some(d);
      }
    }
    assert names[..|names|] == names;
  }

  /**
   * The pokedex description loop as written: for every English description
   * at index `x` it reads `names[x].description`, a field name entries do not
   * have.  The outer None is the throw when `names[x]` does not exist; the
   * inner value is the description left behind, always `undefined`.
   */
  function PokedexDescriptionAsWritten(names: seq<Localized>, descriptions: seq<Localized>): (r: Option<Option<string>>)
    ensures r.None? <==> exists x :: 0 <= x < |descriptions| && IsEnglish(descriptions[x]) && x >= |names|
    ensures r.Some? ==> r.value.None?
  {
    if |descriptions| == 0 then Some(None)
    else
      var last := |descriptions| - 1;
      var before := PokedexDescriptionAsWritten(names, descriptions[..last]);
      assert forall x :: 0 <= x < last ==> descriptions[..last][x] == descriptions[x];
      if IsEnglish(descriptions[last]) && last >= |names| then None
      else before
  }

  /**
   * The description is lost: with an English name and an English description
   * the loop as written leaves `undefined`, while the evidently intended
   * reading of `descriptions[x].description` gives the description.
   */
  lemma PokedexDescriptionIsLost()
    ensures PokedexDescriptionAsWritten([Localized("en", "Kanto")], [Localized("en", "The Kanto region")]) == Some(None)
    ensures LastEnglishOf([Localized("en", "The Kanto region")]) == Some("The Kanto region")
  {
  }

  /** The pokedex description loop as intended: the last English description. */
  method PokedexDescription(descriptions: seq<Localized>) returns (description: Option<string>)
    ensures description == LastEnglishOf(descriptions)
  {
    description := LastEnglish(descriptions);
  }

  // ------------------------------------------------- species description

  /** A flavour-text entry: language, text and the URL of the game version. */
  datatype FlavorEntry = FlavorEntry(language: string, text: string, versionUrl: string)

  /**
   * The running `descriptionVersion`: the number 0 before any entry is taken,
   * afterwards the version id string of the entry taken.
   */
  datatype Version = Zero | Id(id: string)

  /**
   * `version > descriptionVersion`: an undefined version is never greater;
   * against the number 0 the string is converted with `Number` (a non-number
   * is never greater); between two strings the order is lexicographic.
   */
  predicate Newer(version: Option<string>, current: Version)
    ensures Newer(version, current) ==> version.Some?
    ensures current.Id? && version == Some(current.id) ==> !Newer(version, current)
  {
    match version
    case None => false
    case Some(v) =>
      match current
      case Zero => NumberOf(v).Some? && NumberOf(v).value > 0
      case Id(c) =>
        StringLessIrreflexive(c);
        StringLess(c, v)
  }

  /** The state of the description loop after some entries. */
  datatype Choice = Choice(description: string, version: Version)

  /** The description chosen from `entries`: an English entry whose version compares greater replaces it. */
  function Chosen(entries: seq<FlavorEntry>): (r: Choice)
    ensures r.version == Zero ==> r.description == ""
    ensures r.version.Id? ==> exists k :: 0 <= k < |entries| && entries[k].language == "en"
                                && entries[k].text == r.description
                                && IdFromUrl(entries[k].versionUrl) == Some(r.version.id)
    ensures (forall k :: 0 <= k < |entries| ==> entries[k].language != "en") ==> r == Choice("", Zero)
  {
    if |entries| == 0 then Choice("", Zero)
    else
      var last := entries[|entries| - 1];
      var before := Chosen(entries[..|entries| - 1]);
      assert forall k :: 0 <= k < |entries| - 1 ==> entries[..|entries| - 1][k] == entries[k];
      var version := IdFromUrl(last.versionUrl);
      if last.language == "en" && Newer(version, before.version) then Choice(last.text, Id(version.value))
      else before
  }

  const LineBreaks: set<char> := {'\n', '\U{000C}', '\r'}

  /**
   * The cleaning after the loop: line feeds, form feeds and carriage returns
   * become spaces, then the first occurrence of the upper-case species name
   * becomes its capitalised form.
   */
  function CleanDescription(description: string, name: string): (r: string)
    ensures |r| == |description|
    ensures (forall i :: 0 <= i < |name| ==> name[i] !in LineBreaks) ==>
              forall i :: 0 <= i < |r| ==> r[i] !in LineBreaks
  {
    var blank := BlankOut(description, LineBreaks);
    CleanKeepsLineBreaksOut(blank, name);
    ReplaceFirst(blank, UpperString(name), Capitalized(name))
  }

  lemma CleanKeepsLineBreaksOut(blank: string, name: string)
    requires forall i :: 0 <= i < |blank| ==> blank[i] !in LineBreaks
    ensures (forall i :: 0 <= i < |name| ==> name[i] !in LineBreaks) ==>
              var r := ReplaceFirst(blank, UpperString(name), Capitalized(name));
              forall i :: 0 <= i < |r| ==> r[i] !in LineBreaks
  {
    if forall i :: 0 <= i < |name| ==> name[i] !in LineBreaks {
      var rep := Capitalized(name);
      assert forall i :: 0 <= i < |rep| ==> rep[i] !in LineBreaks by {
        forall i | 0 <= i < |rep|
          ensures rep[i] !in LineBreaks
        {
          if i > 0 { assert rep[i] == rep[1..][i - 1]; }
        }
      }
      match IndexOf(blank, UpperString(name))
      case None =>
      case Some(k) =>
        var r := blank[..k] + rep + blank[k + |name|..];
        assert forall i :: 0 <= i < |r| ==> r[i] !in LineBreaks by {
          forall i | 0 <= i < |r|
            ensures r[i] !in LineBreaks
          {
            if i < k { assert r[i] == blank[i]; }
            else if i < k + |rep| { assert r[i] == rep[i - k]; }
            else { assert r[i] == blank[i - |rep| + |name|]; }
          }
        }
    }
  }

  /**
   * The species description loop and its cleaning: the result is the chosen
   * description, cleaned.
   */
  method SpeciesDescription(entries: seq<FlavorEntry>, name: string) returns (description: string)
    ensures description == CleanDescription(Chosen(entries).description, name)
  {
    description := "";
    var descriptionVersion := Zero;
    for x := 0 to |entries|
      invariant Choice(description, descriptionVersion) == Chosen(entries[..x])
    {
      assert entries[..x + 1][..x] == entries[..x];
      var version := IdFromUrl(entries[x].versionUrl);
      if entries[x].language == "en" && Newer(version, descriptionVersion) {
        description := entries[x].text;
        descriptionVersion := Id(version.value);
      }
    }
    assert entries[..|entries|] == entries;
    description := BlankOut(description, LineBreaks);
    description := ReplaceFirst(description, UpperString(name), Capitalized(name));
  }

  /** The first English entry of a known version always replaces the empty start. */
  lemma FirstEnglishEntryTaken(e: FlavorEntry, prefix: string, v: nat)
    requires e.language == "en" && e.versionUrl == prefix + "/" + DecimalString(v) + "/" && v > 0
    ensures Chosen([e]) == Choice(e.text, Id(DecimalString(v)))
  {
    assert '/' !in DecimalString(v) by {
      var d := DecimalString(v);
      forall i | 0 <= i < |d| ensures d[i] != '/' { assert IsDigit(d[i]); }
    }
    IdOfTrailingSlashUrl(prefix, DecimalString(v));
    DecimalRoundTrip(v);
    assert [e][..0] == [];
  }

  /**
   * Once a version has been taken, versions compare as strings: version "10"
   * does not replace version "9".
   */
  lemma StringVersionsCompareLexically()
    ensures !Newer(Some("10"), Id("9"))
    ensures Newer(Some("9"), Id("10"))
  {
  }

  // ---------------------------------------------------------------- stats

  /** An API stat: its name and base value. */
  datatype StatEntry = StatEntry(name: string, baseStat: int)

  const StatKeys: set<string> := {"hp", "attack", "defense", "speed", "specialAttack", "specialDefense"}

  /** The `switch` on the stat name: the key it is stored under, None when it is dropped. */
  function StatKey(name: string): (r: Option<string>)
    ensures r.Some? ==> r.value in StatKeys
    ensures name in {"hp", "attack", "defense", "speed"} <==> r == Some(name)
    ensures r == Some("specialAttack") <==> name == "special-attack"
    ensures r == Some("specialDefense") <==> name == "special-defense"
    ensures r.None? <==> name !in {"hp", "attack", "defense", "speed", "special-attack", "special-defense"}
  {
    if name in {"hp", "attack", "defense", "speed"} then Some(name)
    else if name == "special-attack" then Some("specialAttack")
    else if name == "special-defense" then Some("specialDefense")
    else None
  }

  /** The `base` record after storing `stats` in order: a later stat overwrites an earlier one with the same key. */
  function BaseOf(stats: seq<StatEntry>): (base: map<string, int>)
    ensures base.Keys <= StatKeys
    ensures forall key :: key in base <==> exists j :: 0 <= j < |stats| && StatKey(stats[j].name) == Some(key)
  {
    if |stats| == 0 then map[]
    else
      var last := |stats| - 1;
      var before := BaseOf(stats[..last]);
      assert forall j :: 0 <= j < last ==> stats[..last][j] == stats[j];
      match StatKey(stats[last].name)
      case None => before
      case Some(key) => before[key := stats[last].baseStat]
  }

  /** Each stored value is the one of the last stat mapping to that key. */
  lemma {:induction false} BaseOfLastWins(stats: seq<StatEntry>, j: nat)
    requires j < |stats| && StatKey(stats[j].name).Some?
    requires forall k :: j < k < |stats| ==> StatKey(stats[k].name) != StatKey(stats[j].name)
    ensures BaseOf(stats)[StatKey(stats[j].name).value] == stats[j].baseStat
  {
    var last := |stats| - 1;
    var key := StatKey(stats[j].name).value;
    var before := BaseOf(stats[..last]);
    if j < last {
      assert stats[..last][j] == stats[j];
      assert forall k :: j < k < last ==> stats[..last][k] == stats[k];
      BaseOfLastWins(stats[..last], j);
      assert before[key] == stats[j].baseStat;
      match StatKey(stats[last].name)
      case None =>
        assert BaseOf(stats) == before;
      case Some(other) =>
        assert other != key;
        assert BaseOf(stats) == before[other := stats[last].baseStat];
    } else {
      assert BaseOf(stats) == before[key := stats[j].baseStat];
    }
  }

  /** The stats loop. */
  method BaseStats(stats: seq<StatEntry>) returns (base: map<string, int>)
    ensures base == BaseOf(stats)
  {
    base := map[];
    for x := 0 to |stats|
      invariant base == BaseOf(stats[..x])
    {
      assert stats[..x + 1][..x] == stats[..x];
      var name := stats[x].name;
      if name == "hp" || name == "attack" || name == "defense" || name == "speed" {
        base := base[name := stats[x].baseStat];
      } else if name == "special-attack" {
        base := base["specialAttack" := stats[x].baseStat];
      } else if name == "special-defense" {
        base := base["specialDefense" := stats[x].baseStat];
      }
    }
    assert stats[..|stats|] == stats;
  }

  // ---------------------------------------------------------------- units

  /** Decimetres to centimetres: exact, and undone by dividing by 10. */
  function Centimetres(decimetres: int): (cm: int)
    ensures cm % 10 == 0 && cm / 10 == decimetres
  {
    decimetres * 10
  }

  /** Hectograms to grams: exact, and undone by dividing by 100. */
  function Grams(hectograms: int): (g: int)
    ensures g % 100 == 0 && g / 100 == hectograms
  {
    hectograms * 100
  }
}
