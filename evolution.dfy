/**
 * Evolution linking in the offline data-file builder: for every evolution
 * chain, the species records of its first, second and third stages receive
 * their `evolvesTo` and `evolvesFrom` links.  Records are found by the id
 * taken from the chain's species URLs; a species that cannot be found makes
 * the script throw (None).
 */
module Evolution {
  import opened Wrappers
  import opened DataFile

  /**
   * A species record as far as linking reads and writes it.  None stands for
   * `null` (and for a link never set).
   */
  datatype SpeciesEntry = SpeciesEntry(name: string, id: Option<string>,
                                       evolvesTo: Option<seq<string>>, evolvesFrom: Option<string>)

  /** A node of an API evolution chain: the species' name and URL and the stages it evolves to. */
  datatype ChainLink = ChainLink(name: string, url: string, evolvesTo: seq<ChainLink>)

  // ------------------------------------------------------------- lookups

  function FindFrom(es: seq<SpeciesEntry>, id: Option<string>, k: nat): (r: Option<nat>)
    decreases |es| - k
    ensures r.Some? ==> k <= r.value < |es| && es[r.value].id == id
                         && forall i :: k <= i < r.value ==> es[i].id != id
    ensures r.None? ==> forall i :: k <= i < |es| ==> es[i].id != id
  {
    if k >= |es| then None
    else if es[k].id == id then Some(k)
    else FindFrom(es, id, k + 1)
  }

  /** `speciesData.find(p => p.id === idFromUrl(url))`: the first record with that id. */
  function FindById(es: seq<SpeciesEntry>, url: string): (r: Option<nat>)
    ensures r.Some? ==> r.value < |es| && es[r.value].id == IdFromUrl(url)
                         && forall i :: 0 <= i < r.value ==> es[i].id != IdFromUrl(url)
    ensures r.None? ==> forall i :: 0 <= i < |es| ==> es[i].id != IdFromUrl(url)
  {
    FindFrom(es, IdFromUrl(url), 0)
  }

  // --------------------------------------------------------------- links

  /** `if (list === null) list = []; list.push(name)`. */
  function Push(list: Option<seq<string>>, name: string): Option<seq<string>>
  {
    Some((if list.None? then [] else list.value) + [name])
  }

  /** Pushing the names of `links` one by one. */
  function PushAll(list: Option<seq<string>>, links: seq<ChainLink>): Option<seq<string>>
    decreases |links|
  {
    if |links| == 0 then list else PushAll(Push(list, links[0].name), links[1..])
  }

  function Names(links: seq<ChainLink>): (r: seq<string>)
    ensures |r| == |links| && forall k :: 0 <= k < |links| ==> r[k] == links[k].name
  {
    seq(|links|, k requires 0 <= k < |links| => links[k].name)
  }

  /** The names of `links` in order, or null when there are none. */
  function NamesOrNull(links: seq<ChainLink>): Option<seq<string>>
  {
    if |links| == 0 then None else Some(Names(links))
  }

  lemma NamesCons(links: seq<ChainLink>)
    requires |links| > 0
    ensures Names(links) == [links[0].name] + Names(links[1..])
  {
  }

  lemma {:induction false} PushAllAppends(list: seq<string>, links: seq<ChainLink>)
    decreases |links|
    ensures PushAll(Some(list), links) == Some(list + Names(links))
  {
    if |links| > 0 {
      var first := [links[0].name];
      PushAllAppends(list + first, links[1..]);
      NamesCons(links);
      assert (list + first) + Names(links[1..]) == list + (first + Names(links[1..]));
    } else {
      assert list + Names(links) == list;
    }
  }

  /** Pushing onto a null list gives the names in order, or null when there are none. */
  lemma PushAllFromNull(links: seq<ChainLink>)
    ensures PushAll(None, links) == NamesOrNull(links)
  {
    if |links| > 0 {
      assert [] + [links[0].name] == [links[0].name];
      assert Push(None, links[0].name) == Some([links[0].name]);
      PushAllAppends([links[0].name], links[1..]);
      assert [links[0].name] + Names(links[1..]) == Names(links);
    }
  }

  // ------------------------------------------------- the linking as written

  /**
   * The innermost loop over a second stage's `evolves_to`: the second stage
   * (record `j`) gets the third stage's name pushed, then the third stage's
   * record is found and linked back to it.
   */
  function LinkThirds(es: seq<SpeciesEntry>, j: nat, thirds: seq<ChainLink>): (r: Option<seq<SpeciesEntry>>)
    requires j < |es|
    decreases |thirds|
    ensures r.Some? ==> |r.value| == |es|
                         && forall i :: 0 <= i < |es| ==> r.value[i].name == es[i].name && r.value[i].id == es[i].id
  {
    if |thirds| == 0 then Some(es)
    else
      var pushed := es[j := es[j].(evolvesTo := Push(es[j].evolvesTo, thirds[0].name))];
      match FindById(pushed, thirds[0].url)
      case None => None
      case Some(t) =>
        LinkThirds(pushed[t := pushed[t].(evolvesFrom := Some(pushed[j].name), evolvesTo := None)], j, thirds[1..])
  }

  /**
   * The loop over the first stage's `evolves_to`: each second stage's record
   * is linked back to the first stage (record `f`), its `evolvesTo` reset,
   * and its own third stages linked.
   */
  function LinkSeconds(es: seq<SpeciesEntry>, f: nat, seconds: seq<ChainLink>): (r: Option<seq<SpeciesEntry>>)
    requires f < |es|
    decreases |seconds|
    ensures r.Some? ==> |r.value| == |es|
                         && forall i :: 0 <= i < |es| ==> r.value[i].name == es[i].name && r.value[i].id == es[i].id
  {
    if |seconds| == 0 then Some(es)
    else
      match FindById(es, seconds[0].url)
      case None => None
      case Some(j) =>
        var started := es[j := es[j].(evolvesFrom := Some(es[f].name), evolvesTo := None)];
        match LinkThirds(started, j, seconds[0].evolvesTo)
        case None => None
        case Some(linked) => LinkSeconds(linked, f, seconds[1..])
  }

  /** One chain: the first stage's record is found, its links set, then the later stages linked. */
  function LinkChain(es: seq<SpeciesEntry>, chain: ChainLink): (r: Option<seq<SpeciesEntry>>)
    ensures r.Some? ==> |r.value| == |es|
                         && forall i :: 0 <= i < |es| ==> r.value[i].name == es[i].name && r.value[i].id == es[i].id
  {
    match FindById(es, chain.url)
    case None => None
    case Some(f) =>
      var rooted := es[f := es[f].(evolvesTo := PushAll(None, chain.evolvesTo), evolvesFrom := None)];
      LinkSeconds(rooted, f, chain.evolvesTo)
  }

  /** All chains, in order. */
  function LinkAll(es: seq<SpeciesEntry>, chains: seq<ChainLink>): (r: Option<seq<SpeciesEntry>>)
    decreases |chains|
    ensures r.Some? ==> |r.value| == |es|
                         && forall i :: 0 <= i < |es| ==> r.value[i].name == es[i].name && r.value[i].id == es[i].id
  {
    if |chains| == 0 then Some(es)
    else
      match LinkChain(es, chains[0])
      case None => None
      case Some(linked) => LinkAll(linked, chains[1..])
  }

  // -------------------------------------------------------------- the loops

  /** The third-stage loop. */
  method LinkThirdStages(es: seq<SpeciesEntry>, j: nat, thirds: seq<ChainLink>) returns (r: Option<seq<SpeciesEntry>>)
    requires j < |es|
    ensures r == LinkThirds(es, j, thirds)
  {
    var current := es;
    var y := 0;
    while y < |thirds|
      invariant 0 <= y <= |thirds|
      invariant |current| == |es|
      invariant LinkThirds(current, j, thirds[y..]) == LinkThirds(es, j, thirds)
    {
      assert thirds[y..][1..] == thirds[y + 1..];
      current := current[j := current[j].(evolvesTo := Push(current[j].evolvesTo, thirds[y].name))];
      var third := FindById(current, thirds[y].url);
      if third.None? {
        return None;
      }
      current := current[third.value := current[third.value].(evolvesFrom := Some(current[j].name), evolvesTo := None)];
      y := y + 1;
    }
    r := Some(current);
  }

  /** The body of the loop over chains: the first stage, then the second-stage loop. */
  method LinkChainStages(es: seq<SpeciesEntry>, chain: ChainLink) returns (r: Option<seq<SpeciesEntry>>)
    ensures r == LinkChain(es, chain)
  {
    var first := FindById(es, chain.url);
    if first.None? {
      return None;
    }
    var f := first.value;
    var current := es[f := es[f].(evolvesTo := None, evolvesFrom := None)];
    var seconds := chain.evolvesTo;
    for x := 0 to |seconds|
      invariant |current| == |es|
      invariant forall i :: 0 <= i < |es| && i != f ==> current[i] == es[i]
      invariant current[f] == es[f].(evolvesTo := current[f].evolvesTo, evolvesFrom := None)
      invariant PushAll(current[f].evolvesTo, seconds[x..]) == PushAll(None, seconds)
    {
      assert seconds[x..][1..] == seconds[x + 1..];
      current := current[f := current[f].(evolvesTo := Push(current[f].evolvesTo, seconds[x].name))];
    }
    assert current == es[f := es[f].(evolvesTo := PushAll(None, chain.evolvesTo), evolvesFrom := None)];
    var x := 0;
    while x < |seconds|
      invariant 0 <= x <= |seconds|
      invariant |current| == |es|
      invariant LinkSeconds(current, f, seconds[x..]) == LinkChain(es, chain)
    {
      assert seconds[x..][1..] == seconds[x + 1..];
      var second := FindById(current, seconds[x].url);
      if second.None? {
        return None;
      }
      var j := second.value;
      current := current[j := current[j].(evolvesFrom := Some(current[f].name), evolvesTo := None)];
      var linked := LinkThirdStages(current, j, seconds[x].evolvesTo);
      if linked.None? {
        return None;
      }
      current := linked.value;
      x := x + 1;
    }
    r := Some(current);
  }

  /** The loop over all evolution chains. */
  method LinkEvolutions(es: seq<SpeciesEntry>, chains: seq<ChainLink>) returns (r: Option<seq<SpeciesEntry>>)
    ensures r == LinkAll(es, chains)
  {
    var current := es;
    for i := 0 to |chains|
      invariant LinkAll(current, chains[i..]) == LinkAll(es, chains)
    {
      assert chains[i..][1..] == chains[i + 1..];
      var linked := LinkChainStages(current, chains[i]);
      if linked.None? {
        return None;
      }
      current := linked.value;
    }
    r := Some(current);
  }

  // ------------------------------------------------- what linking achieves

  /** Species records carry distinct ids. */
  predicate DistinctIds(es: seq<SpeciesEntry>)
  {
    forall a, b :: 0 <= a < b < |es| ==> es[a].id != es[b].id
  }

  predicate Distinct(ids: seq<Option<string>>)
  {
    forall a, b :: 0 <= a < b < |ids| ==> ids[a] != ids[b]
  }

  function ThirdIds(thirds: seq<ChainLink>): (r: seq<Option<string>>)
    ensures |r| == |thirds| && forall k :: 0 <= k < |thirds| ==> r[k] == IdFromUrl(thirds[k].url)
  {
    seq(|thirds|, k requires 0 <= k < |thirds| => IdFromUrl(thirds[k].url))
  }

  /** The ids of a second stage and of its third stages. */
  function SubtreeIds(second: ChainLink): seq<Option<string>>
  {
    [IdFromUrl(second.url)] + ThirdIds(second.evolvesTo)
  }

  function SecondsIds(seconds: seq<ChainLink>): seq<Option<string>>
    decreases |seconds|
  {
    if |seconds| == 0 then [] else SubtreeIds(seconds[0]) + SecondsIds(seconds[1..])
  }

  /** The ids of the species the linking of `chain` touches (three stages deep). */
  function ChainIds(chain: ChainLink): seq<Option<string>>
  {
    [IdFromUrl(chain.url)] + SecondsIds(chain.evolvesTo)
  }

  lemma DistinctSplits(a: seq<Option<string>>, b: seq<Option<string>>)
    requires Distinct(a + b)
    ensures Distinct(a) && Distinct(b)
    ensures forall id :: id in a ==> id !in b
  {
    forall a1, b1 | 0 <= a1 < b1 < |a|
      ensures a[a1] != a[b1]
    {
      assert (a + b)[a1] == a[a1] && (a + b)[b1] == a[b1];
    }
    forall a1, b1 | 0 <= a1 < b1 < |b|
      ensures b[a1] != b[b1]
    {
      assert (a + b)[|a| + a1] == b[a1] && (a + b)[|a| + b1] == b[b1];
    }
    forall id | id in a
      ensures id !in b
    {
      var p :| 0 <= p < |a| && a[p] == id;
      if q :| 0 <= q < |b| && b[q] == id {
        assert (a + b)[p] == id && (a + b)[|a| + q] == id;
      }
    }
  }

  /** Every second stage's ids are among the ids of the second-stage list. */
  lemma {:induction false} SubtreeIdsIncluded(seconds: seq<ChainLink>, x: nat)
    requires x < |seconds|
    ensures forall id :: id in SubtreeIds(seconds[x]) ==> id in SecondsIds(seconds)
  {
    if x > 0 {
      SubtreeIdsIncluded(seconds[1..], x - 1);
      assert seconds[1..][x - 1] == seconds[x];
    }
  }

  /**
   * Linking third stages under record `j`: `j` gets their names pushed, each
   * third stage's record points back to `j` with a null `evolvesTo`, and no
   * other record changes.
   */
  lemma {:induction false} LinkThirdsEffect(es: seq<SpeciesEntry>, j: nat, thirds: seq<ChainLink>)
    requires j < |es| && DistinctIds(es)
    requires es[j].id !in ThirdIds(thirds)
    requires LinkThirds(es, j, thirds).Some?
    decreases |thirds|
    ensures var r := LinkThirds(es, j, thirds).value;
      && r[j] == es[j].(evolvesTo := PushAll(es[j].evolvesTo, thirds))
      && (forall i :: 0 <= i < |es| && i != j && es[i].id in ThirdIds(thirds) ==>
            r[i] == es[i].(evolvesFrom := Some(es[j].name), evolvesTo := None))
      && (forall i :: 0 <= i < |es| && i != j && es[i].id !in ThirdIds(thirds) ==> r[i] == es[i])
  {
    if |thirds| > 0 {
      var pushed := es[j := es[j].(evolvesTo := Push(es[j].evolvesTo, thirds[0].name))];
      var t := FindById(pushed, thirds[0].url).value;
      var next := pushed[t := pushed[t].(evolvesFrom := Some(pushed[j].name), evolvesTo := None)];
      assert ThirdIds(thirds) == [IdFromUrl(thirds[0].url)] + ThirdIds(thirds[1..]);
      assert t != j;
      assert forall i :: 0 <= i < |es| ==> next[i].id == es[i].id && next[i].name == es[i].name;
      LinkThirdsEffect(next, j, thirds[1..]);
      var r := LinkThirds(next, j, thirds[1..]).value;
      assert LinkThirds(es, j, thirds).value == r;
      forall i | 0 <= i < |es| && i != j && es[i].id in ThirdIds(thirds)
        ensures r[i] == es[i].(evolvesFrom := Some(es[j].name), evolvesTo := None)
      {
        if i != t {
          assert es[i].id != es[t].id;
        }
      }
    }
  }

  /** The facts every induction over the second stages needs about its first step. */
  predicate SecondsInduction(es: seq<SpeciesEntry>, f: nat, seconds: seq<ChainLink>)
  {
    && f < |es| && DistinctIds(es)
    && es[f].id !in SecondsIds(seconds) && Distinct(SecondsIds(seconds))
    && LinkSeconds(es, f, seconds).Some?
  }

  /**
   * The first second stage `s` of the list, found at record `j`: after its
   * own linking, `j` points back to `f` and lists the third stages of `s`,
   * the third stages' records point back to `j`, other records are as
   * before, and the rest of the list is linked from there.
   */
  lemma FirstSecondStep(es: seq<SpeciesEntry>, f: nat, seconds: seq<ChainLink>)
      returns (j: nat, linked: seq<SpeciesEntry>)
    requires SecondsInduction(es, f, seconds) && |seconds| > 0
    ensures j < |es| && es[j].id == IdFromUrl(seconds[0].url) && j != f
    ensures |linked| == |es| && f < |linked|
    ensures forall i :: 0 <= i < |es| ==> linked[i].id == es[i].id && linked[i].name == es[i].name
    ensures linked[j] == es[j].(evolvesFrom := Some(es[f].name), evolvesTo := PushAll(None, seconds[0].evolvesTo))
    ensures forall i :: 0 <= i < |es| && es[i].id in ThirdIds(seconds[0].evolvesTo) ==>
              linked[i] == es[i].(evolvesFrom := Some(es[j].name), evolvesTo := None)
    ensures forall i :: 0 <= i < |es| && es[i].id !in SubtreeIds(seconds[0]) ==> linked[i] == es[i]
    ensures SecondsInduction(linked, f, seconds[1..])
    ensures LinkSeconds(es, f, seconds) == LinkSeconds(linked, f, seconds[1..])
    ensures forall id :: id in SubtreeIds(seconds[0]) ==> id !in SecondsIds(seconds[1..])
  {
    var s := seconds[0];
    j := FindById(es, s.url).value;
    var started := es[j := es[j].(evolvesFrom := Some(es[f].name), evolvesTo := None)];
    linked := LinkThirds(started, j, s.evolvesTo).value;
    assert SecondsIds(seconds) == SubtreeIds(s) + SecondsIds(seconds[1..]);
    DistinctSplits(SubtreeIds(s), SecondsIds(seconds[1..]));
    DistinctSplits([IdFromUrl(s.url)], ThirdIds(s.evolvesTo));
    assert IdFromUrl(s.url) in SubtreeIds(s);
    assert forall i :: 0 <= i < |es| ==> started[i].id == es[i].id && started[i].name == es[i].name;
    LinkThirdsEffect(started, j, s.evolvesTo);
    forall i | 0 <= i < |es| && es[i].id in ThirdIds(s.evolvesTo)
      ensures i != j
    {
      assert es[i].id in SubtreeIds(s);
    }
  }

  /** Linking the second stages changes no record outside their subtrees. */
  lemma {:induction false} LinkSecondsFrame(es: seq<SpeciesEntry>, f: nat, seconds: seq<ChainLink>)
    requires SecondsInduction(es, f, seconds)
    decreases |seconds|
    ensures forall i :: 0 <= i < |es| && es[i].id !in SecondsIds(seconds) ==> LinkSeconds(es, f, seconds).value[i] == es[i]
  {
    if |seconds| > 0 {
      var j, linked := FirstSecondStep(es, f, seconds);
      LinkSecondsFrame(linked, f, seconds[1..]);
      assert SecondsIds(seconds) == SubtreeIds(seconds[0]) + SecondsIds(seconds[1..]);
    }
  }

  /** Each second stage's record points back to `f` and lists its own third stages, or null. */
  lemma {:induction false} LinkSecondsParents(es: seq<SpeciesEntry>, f: nat, seconds: seq<ChainLink>)
    requires SecondsInduction(es, f, seconds)
    decreases |seconds|
    ensures forall x, i :: 0 <= x < |seconds| && 0 <= i < |es| && es[i].id == IdFromUrl(seconds[x].url) ==>
              LinkSeconds(es, f, seconds).value[i]
              == es[i].(evolvesFrom := Some(es[f].name), evolvesTo := PushAll(None, seconds[x].evolvesTo))
  {
    if |seconds| > 0 {
      var j, linked := FirstSecondStep(es, f, seconds);
      var r := LinkSeconds(es, f, seconds).value;
      LinkSecondsParents(linked, f, seconds[1..]);
      LinkSecondsFrame(linked, f, seconds[1..]);
      forall x, i | 0 <= x < |seconds| && 0 <= i < |es| && es[i].id == IdFromUrl(seconds[x].url)
        ensures r[i] == es[i].(evolvesFrom := Some(es[f].name), evolvesTo := PushAll(None, seconds[x].evolvesTo))
      {
        if x == 0 {
          assert i == j;
          assert IdFromUrl(seconds[0].url) in SubtreeIds(seconds[0]);
        } else {
          SubtreeIdsIncluded(seconds[1..], x - 1);
          assert seconds[1..][x - 1] == seconds[x];
          assert IdFromUrl(seconds[x].url) in SubtreeIds(seconds[x]);
        }
      }
    }
  }

  /** Each third stage's record points back to its second stage and has a null `evolvesTo`. */
  lemma {:induction false} LinkSecondsGrandchildren(es: seq<SpeciesEntry>, f: nat, seconds: seq<ChainLink>)
    requires SecondsInduction(es, f, seconds)
    decreases |seconds|
    ensures forall x, y, i, k :: (0 <= x < |seconds| && 0 <= y < |seconds[x].evolvesTo| && 0 <= i < |es| && 0 <= k < |es|
              && es[i].id == IdFromUrl(seconds[x].evolvesTo[y].url) && es[k].id == IdFromUrl(seconds[x].url)) ==>
              LinkSeconds(es, f, seconds).value[i] == es[i].(evolvesFrom := Some(es[k].name), evolvesTo := None)
  {
    if |seconds| > 0 {
      var j, linked := FirstSecondStep(es, f, seconds);
      var r := LinkSeconds(es, f, seconds).value;
      LinkSecondsGrandchildren(linked, f, seconds[1..]);
      LinkSecondsFrame(linked, f, seconds[1..]);
      forall x, y, i, k | 0 <= x < |seconds| && 0 <= y < |seconds[x].evolvesTo| && 0 <= i < |es| && 0 <= k < |es|
          && es[i].id == IdFromUrl(seconds[x].evolvesTo[y].url) && es[k].id == IdFromUrl(seconds[x].url)
        ensures r[i] == es[i].(evolvesFrom := Some(es[k].name), evolvesTo := None)
      {
        if x == 0 {
          assert k == j;
          assert es[i].id in ThirdIds(seconds[0].evolvesTo);
          assert es[i].id in SubtreeIds(seconds[0]);
        } else {
          SubtreeIdsIncluded(seconds[1..], x - 1);
          assert seconds[1..][x - 1] == seconds[x];
          assert IdFromUrl(seconds[x].evolvesTo[y].url) in SubtreeIds(seconds[x]);
          assert IdFromUrl(seconds[x].url) in SubtreeIds(seconds[x]);
        }
      }
    }
  }

  /**
   * What linking one chain achieves when species ids are distinct and the
   * chain names each species once: the first stage lists its children (or
   * null) and has a null `evolvesFrom`; each second stage points back to the
   * first and lists its own children (or null); each third stage points back
   * to its second stage and has a null `evolvesTo`; nothing else changes.
   */
  lemma LinkChainEffect(es: seq<SpeciesEntry>, chain: ChainLink)
    requires DistinctIds(es) && Distinct(ChainIds(chain))
    requires LinkChain(es, chain).Some?
    ensures var r := LinkChain(es, chain).value;
      var f := FindById(es, chain.url).value;
      var seconds := chain.evolvesTo;
      && r[f].evolvesFrom == None && r[f].evolvesTo == NamesOrNull(seconds)
      && (forall x, i :: 0 <= x < |seconds| && 0 <= i < |r| && r[i].id == IdFromUrl(seconds[x].url) ==>
            r[i].evolvesFrom == Some(r[f].name) && r[i].evolvesTo == NamesOrNull(seconds[x].evolvesTo))
      && (forall x, y, i, k :: (0 <= x < |seconds| && 0 <= y < |seconds[x].evolvesTo| && 0 <= i < |r| && 0 <= k < |r|
            && r[i].id == IdFromUrl(seconds[x].evolvesTo[y].url) && r[k].id == IdFromUrl(seconds[x].url)) ==>
            r[i].evolvesFrom == Some(r[k].name) && r[i].evolvesTo == None)
      && (forall i :: 0 <= i < |r| && r[i].id !in ChainIds(chain) ==> r[i] == es[i])
  {
    var f := FindById(es, chain.url).value;
    var seconds := chain.evolvesTo;
    var rooted := es[f := es[f].(evolvesTo := PushAll(None, seconds), evolvesFrom := None)];
    DistinctSplits([IdFromUrl(chain.url)], SecondsIds(seconds));
    assert forall i :: 0 <= i < |es| ==> rooted[i].id == es[i].id && rooted[i].name == es[i].name;
    LinkSecondsFrame(rooted, f, seconds);
    LinkSecondsParents(rooted, f, seconds);
    LinkSecondsGrandchildren(rooted, f, seconds);
    PushAllFromNull(seconds);
    forall x | 0 <= x < |seconds|
      ensures PushAll(None, seconds[x].evolvesTo) == NamesOrNull(seconds[x].evolvesTo)
    {
      PushAllFromNull(seconds[x].evolvesTo);
    }
  }
}
