/**
 * `findStatId`: from a stat line as the game prints it to the id of a catalog
 * stat. The fuzzy matcher is not modelled; it is a parameter (an oracle) that
 * returns a ranked list of hits for an index and a query, and every result
 * below holds for any oracle or for any oracle that only returns documents of
 * the index it is asked.
 */
module Resolver {
  import opened Optional
  import opened StatText
  import opened Catalog

  /** One ranked result of a fuzzy search: the document and its score (0 is a perfect match). */
  datatype Hit = Hit(item: StatOption, score: real)

  /** A fuzzy search: an index and a query to ranked hits, best first. */
  type Oracle = (FuzzyIndex, string) -> seq<Hit>

  /** An oracle that only ever returns documents of the index it searches. */
  ghost predicate SoundOracle(search: Oracle) {
    forall ix, query, k :: 0 <= k < |search(ix, query)| ==> search(ix, query)[k].item in ix.docs
  }

  const ImplicitKind := "Implicit"

  /** `sub` occurs in `s` at position `i`. */
  predicate OccursAt(s: string, sub: string, i: nat) {
    i + |sub| <= |s| && s[i..i + |sub|] == sub
  }

  /** `s.includes(sub)`, searching from position `from` (0 for the whole text). */
  function IncludesFrom(s: string, sub: string, from: nat): bool
    decreases |s| - from
  {
    if from + |sub| > |s| then false
    else OccursAt(s, sub, from) || IncludesFrom(s, sub, from + 1)
  }

  /** `includes` answers whether `sub` occurs somewhere at or after `from`. */
  lemma {:induction false} IncludesIff(s: string, sub: string, from: nat)
    ensures IncludesFrom(s, sub, from) <==> exists i: nat :: from <= i && OccursAt(s, sub, i)
    decreases |s| - from
  {
    if from + |sub| <= |s| {
      IncludesIff(s, sub, from + 1);
    }
  }

  /** `statText.toLowerCase().includes('implicit')`: the line asks for implicit stats only. */
  predicate ImplicitOnly(statText: string) {
    IncludesFrom(Lowercase(statText), "implicit", 0)
  }

  /** `statsCache.filter(s => s.type === 'Implicit')`. */
  function ImplicitStats(stats: seq<StatOption>): (r: seq<StatOption>)
    ensures |r| <= |stats|
    ensures forall x :: x in r <==> x in stats && x.kind == ImplicitKind
  {
    if stats == [] then []
    else if stats[0].kind == ImplicitKind then [stats[0]] + ImplicitStats(stats[1..])
    else ImplicitStats(stats[1..])
  }

  /** The filter keeps cache order: it works on each part of a cache on its own. */
  lemma {:induction false} ImplicitStatsAppend(a: seq<StatOption>, b: seq<StatOption>)
    ensures ImplicitStats(a + b) == ImplicitStats(a) + ImplicitStats(b)
  {
    if a == [] {
      assert a + b == b;
    } else {
      assert (a + b)[1..] == a[1..] + b;
      ImplicitStatsAppend(a[1..], b);
      if a[0].kind == ImplicitKind {
        assert [a[0]] + (ImplicitStats(a[1..]) + ImplicitStats(b)) == ([a[0]] + ImplicitStats(a[1..])) + ImplicitStats(b);
      }
    }
  }

  /** The stats a line is resolved against. */
  function Pool(cache: seq<StatOption>, implicitOnly: bool): seq<StatOption> {
    if implicitOnly then ImplicitStats(cache) else cache
  }

  /**
   * `relevantStats.find(...)` on the stats' normalised texts `keys`, from
   * position `from` on: the first position holding `key`.
   */
  function FindExact(keys: seq<string>, key: string, from: nat): (r: Option<nat>)
    requires from <= |keys|
    ensures r.Some? ==> from <= r.value < |keys| && keys[r.value] == key
    ensures r.Some? ==> forall j :: from <= j < r.value ==> keys[j] != key
    ensures r.None? ==> forall j :: from <= j < |keys| ==> keys[j] != key
    decreases |keys| - from
  {
    if from == |keys| then None
    else if keys[from] == key then Some(from)
    else FindExact(keys, key, from + 1)
  }

  /** The exact pass finds the first position holding the key. */
  lemma FindExactFirst(keys: seq<string>, key: string, i: nat)
    requires i < |keys| && keys[i] == key
    requires forall j :: 0 <= j < i ==> keys[j] != key
    ensures FindExact(keys, key, 0) == Some(i)
  {
    var r := FindExact(keys, key, 0);
    assert r.Some?;
    assert r.value == i;
  }

  /** `results[0].score && results[0].score < 0.8`: a score of 0 is falsy and is refused too. */
  predicate Accepted(score: real) {
    score != 0.0 && score < 0.8
  }

  /** The id of the top hit when its score is accepted. */
  function FuzzyPick(results: seq<Hit>): Option<string> {
    if |results| > 0 && Accepted(results[0].score) then Some(results[0].item.id) else None
  }

  /** The index the fuzzy pass searches: a fresh one over the implicit stats, or the stored one. */
  function Searcher(cache: seq<StatOption>, index: FuzzyIndex, implicitOnly: bool): FuzzyIndex {
    if implicitOnly then BuildIndex(Pool(cache, implicitOnly)) else index
  }

  /**
   * The two passes of `findStatId` once the catalog is loaded: the exact pass
   * over the pool, then the fuzzy pass, for the normalised line `input`.
   */
  function Resolve(cache: seq<StatOption>, index: FuzzyIndex, input: string, implicitOnly: bool, search: Oracle): Option<string> {
    var pool := Pool(cache, implicitOnly);
    match FindExact(NormalizedTexts(pool), input, 0)
    case Some(i) => Some(pool[i].id)
    case None => FuzzyPick(search(Searcher(cache, index, implicitOnly), input))
  }

  /**
   * `findStatId(statText, _stats)` over a snapshot of the two module fields.
   * Nothing is found before the catalog is loaded.
   */
  function FindStatId(cache: Option<seq<StatOption>>, index: Option<FuzzyIndex>, statText: string,
                      stats: seq<StatOption>, search: Oracle): (r: Option<string>)
    ensures cache.None? || index.None? ==> r.None?
  {
    if cache.None? || index.None? then None
    else Resolve(cache.value, index.value, NormalizeStatText(statText), ImplicitOnly(statText), search)
  }

  // ---------------------------------------------------------------------------
  // What the resolver promises
  // ---------------------------------------------------------------------------

  /**
   * Exact matches win: when the `i`-th stat of the pool is the first whose
   * normalised text equals the input, its id is the answer, whatever the
   * fuzzy matcher would have said.
   */
  lemma ExactMatchFirst(cache: seq<StatOption>, index: FuzzyIndex, input: string, implicitOnly: bool,
                        search: Oracle, i: nat)
    requires i < |Pool(cache, implicitOnly)|
    requires NormalizedTexts(Pool(cache, implicitOnly))[i] == input
    requires forall j :: 0 <= j < i ==> NormalizedTexts(Pool(cache, implicitOnly))[j] != input
    ensures Resolve(cache, index, input, implicitOnly, search) == Some(Pool(cache, implicitOnly)[i].id)
  {
    FindExactFirst(NormalizedTexts(Pool(cache, implicitOnly)), input, i);
  }

  /**
   * The same for a raw line that does not mention "implicit": the first stat
   * of the cache whose normalised text is that of the line gives the answer.
   */
  lemma ExactLineWins(cache: seq<StatOption>, statText: string, stats: seq<StatOption>, search: Oracle, i: nat)
    requires !ImplicitOnly(statText)
    requires i < |cache| && NormalizedTexts(cache)[i] == NormalizeStatText(statText)
    requires forall j :: 0 <= j < i ==> NormalizedTexts(cache)[j] != NormalizeStatText(statText)
    ensures FindStatId(Some(cache), Some(BuildIndex(cache)), statText, stats, search) == Some(cache[i].id)
  {
    FindExactFirst(NormalizedTexts(cache), NormalizeStatText(statText), i);
    ExactPassAnswers(cache, statText, stats, search, i);
  }

  lemma ExactPassAnswers(cache: seq<StatOption>, statText: string, stats: seq<StatOption>, search: Oracle, i: nat)
    requires !ImplicitOnly(statText)
    requires FindExact(NormalizedTexts(cache), NormalizeStatText(statText), 0) == Some(i)
    ensures FindStatId(Some(cache), Some(BuildIndex(cache)), statText, stats, search) == Some(cache[i].id)
  {
  }

  /**
   * For a line that mentions "implicit": when the `i`-th stat of the cache
   * is an "Implicit" stat with the line's normalised text, and no "Implicit"
   * stat before it has that text, its id is the answer, whatever stats of
   * other types come before it.
   */
  lemma ImplicitLineWins(cache: seq<StatOption>, index: FuzzyIndex, statText: string, stats: seq<StatOption>,
                         search: Oracle, i: nat)
    requires ImplicitOnly(statText)
    requires i < |cache| && cache[i].kind == ImplicitKind
    requires NormalizedTexts(cache)[i] == NormalizeStatText(statText)
    requires forall x :: x in cache[..i] && x.kind == ImplicitKind ==> NormalizeStatText(x.text) != NormalizeStatText(statText)
    ensures FindStatId(Some(cache), Some(index), statText, stats, search) == Some(cache[i].id)
  {
    var input := NormalizeStatText(statText);
    FirstImplicitMatch(cache, index, input, search, i);
    LoadedFindStatId(cache, index, statText, stats, search);
  }

  /** Once the catalog is loaded, `findStatId` is the two passes on the normalised line. */
  lemma LoadedFindStatId(cache: seq<StatOption>, index: FuzzyIndex, statText: string, stats: seq<StatOption>, search: Oracle)
    ensures FindStatId(Some(cache), Some(index), statText, stats, search)
         == Resolve(cache, index, NormalizeStatText(statText), ImplicitOnly(statText), search)
  {
  }

  lemma FirstImplicitMatch(cache: seq<StatOption>, index: FuzzyIndex, input: string, search: Oracle, i: nat)
    requires i < |cache| && cache[i].kind == ImplicitKind
    requires NormalizedTexts(cache)[i] == input
    requires forall x :: x in cache[..i] && x.kind == ImplicitKind ==> NormalizeStatText(x.text) != input
    ensures Resolve(cache, index, input, true, search) == Some(cache[i].id)
  {
    var k := ImplicitPosition(cache, i);
    PoolKeysBefore(cache, i, k, input);
    ExactMatchFirst(cache, index, input, true, search, k);
  }

  /** The keys of the filtered pool up to the place of the `i`-th stat of the cache. */
  lemma PoolKeysBefore(cache: seq<StatOption>, i: nat, k: nat, input: string)
    requires i < |cache| && k < |ImplicitStats(cache)| && ImplicitStats(cache)[k] == cache[i]
    requires forall j :: 0 <= j < k ==> ImplicitStats(cache)[j] in cache[..i]
    requires NormalizedTexts(cache)[i] == input
    requires forall x :: x in cache[..i] && x.kind == ImplicitKind ==> NormalizeStatText(x.text) != input
    ensures NormalizedTexts(ImplicitStats(cache))[k] == input
    ensures forall j :: 0 <= j < k ==> NormalizedTexts(ImplicitStats(cache))[j] != input
  {
    var pool := ImplicitStats(cache);
    forall j | 0 <= j < k
      ensures NormalizedTexts(pool)[j] != input
    {
      assert pool[j] in pool;
    }
  }

  /**
   * An "Implicit" stat at position `i` of the cache lands at position `k` of
   * the filtered pool, after exactly the implicit stats that come before it.
   */
  lemma ImplicitPosition(cache: seq<StatOption>, i: nat) returns (k: nat)
    requires i < |cache| && cache[i].kind == ImplicitKind
    ensures k < |ImplicitStats(cache)| && ImplicitStats(cache)[k] == cache[i]
    ensures forall j :: 0 <= j < k ==> ImplicitStats(cache)[j] in cache[..i]
  {
    var before := ImplicitStats(cache[..i]);
    var after := cache[i + 1..];
    assert cache == cache[..i] + ([cache[i]] + after);
    ImplicitStatsAppend(cache[..i], [cache[i]] + after);
    assert ([cache[i]] + after)[1..] == after;
    var pool := ImplicitStats(cache);
    assert pool == before + ([cache[i]] + ImplicitStats(after));
    k := |before|;
    forall j | 0 <= j < k
      ensures pool[j] in cache[..i]
    {
      assert pool[j] == before[j];
      assert before[j] in before;
    }
  }

  /** Without an exact match, the answer is the fuzzy pass's, and only then is the oracle consulted. */
  lemma FuzzyFallback(cache: seq<StatOption>, index: FuzzyIndex, input: string, implicitOnly: bool, search: Oracle)
    requires forall j :: 0 <= j < |Pool(cache, implicitOnly)| ==> NormalizedTexts(Pool(cache, implicitOnly))[j] != input
    ensures Resolve(cache, index, input, implicitOnly, search)
         == FuzzyPick(search(Searcher(cache, index, implicitOnly), input))
  {
    var r := FindExact(NormalizedTexts(Pool(cache, implicitOnly)), input, 0);
    assert r.None?;
  }

  /**
   * When no stat of the pool has the line's normalised text, the resolver
   * answers exactly when the top hit of the fuzzy search has a score that is
   * neither 0 nor 0.8 or more, and then it answers that hit's id. With no
   * hit, or with any other top score, it answers nothing.
   */
  lemma FuzzyThreshold(cache: seq<StatOption>, index: FuzzyIndex, statText: string, stats: seq<StatOption>, search: Oracle)
    requires forall j :: 0 <= j < |Pool(cache, ImplicitOnly(statText))| ==>
      NormalizedTexts(Pool(cache, ImplicitOnly(statText)))[j] != NormalizeStatText(statText)
    ensures var hits := search(Searcher(cache, index, ImplicitOnly(statText)), NormalizeStatText(statText));
      var r := FindStatId(Some(cache), Some(index), statText, stats, search);
      (r.Some? <==> |hits| > 0 && hits[0].score != 0.0 && hits[0].score < 0.8)
      && (r.Some? ==> r.value == hits[0].item.id)
  {
    FuzzyAnswer(cache, index, NormalizeStatText(statText), ImplicitOnly(statText), search);
    LoadedFindStatId(cache, index, statText, stats, search);
  }

  /** The same for the two passes on the normalised line `input`. */
  lemma FuzzyAnswer(cache: seq<StatOption>, index: FuzzyIndex, input: string, implicitOnly: bool, search: Oracle)
    requires forall j :: 0 <= j < |Pool(cache, implicitOnly)| ==> NormalizedTexts(Pool(cache, implicitOnly))[j] != input
    ensures var hits := search(Searcher(cache, index, implicitOnly), input);
      var r := Resolve(cache, index, input, implicitOnly, search);
      (r.Some? <==> |hits| > 0 && hits[0].score != 0.0 && hits[0].score < 0.8)
      && (r.Some? ==> r.value == hits[0].item.id)
  {
    FuzzyFallback(cache, index, input, implicitOnly, search);
  }

  /**
   * The index the fuzzy pass searches, once the stored index is the one
   * built over the cache, holds exactly the pool, each stat keyed by its
   * normalised text: the keys the exact pass compares. Only the options
   * it is built with are fixed in advance.
   */
  lemma SearchedIndex(cache: seq<StatOption>, implicitOnly: bool)
    ensures Searcher(cache, BuildIndex(cache), implicitOnly).docs == Pool(cache, implicitOnly)
    ensures Searcher(cache, BuildIndex(cache), implicitOnly).keys == NormalizedTexts(Pool(cache, implicitOnly))
    ensures forall i :: 0 <= i < |Pool(cache, implicitOnly)| ==>
      Searcher(cache, BuildIndex(cache), implicitOnly).keys[i] == NormalizeStatText(Pool(cache, implicitOnly)[i].text)
    ensures Searcher(cache, BuildIndex(cache), implicitOnly).options == IndexOptions
  {
  }

  /** The `_stats` argument plays no part. */
  lemma StatsArgumentIgnored(cache: Option<seq<StatOption>>, index: Option<FuzzyIndex>, statText: string,
                             stats1: seq<StatOption>, stats2: seq<StatOption>, search: Oracle)
    ensures FindStatId(cache, index, statText, stats1, search) == FindStatId(cache, index, statText, stats2, search)
  {
  }

  /**
   * Every id found belongs to a stat of the pool that was searched, provided
   * the stored index is the one built over the cache and the oracle only
   * returns documents it was given.
   */
  lemma ResultFromPool(cache: seq<StatOption>, input: string, implicitOnly: bool, search: Oracle)
    requires SoundOracle(search)
    ensures Resolve(cache, BuildIndex(cache), input, implicitOnly, search).Some? ==>
      exists x :: x in Pool(cache, implicitOnly) && x.id == Resolve(cache, BuildIndex(cache), input, implicitOnly, search).value
  {
    var pool := Pool(cache, implicitOnly);
    var r := Resolve(cache, BuildIndex(cache), input, implicitOnly, search);
    var exact := FindExact(NormalizedTexts(pool), input, 0);
    if exact.Some? {
      assert pool[exact.value] in pool;
    } else {
      var ix := Searcher(cache, BuildIndex(cache), implicitOnly);
      var results := search(ix, input);
      assert ix.docs == pool;
      if r.Some? {
        assert results[0].item in ix.docs;
      }
    }
  }

  /** A line that mentions "implicit", in any case, only ever resolves to an id of an "Implicit" stat. */
  lemma ImplicitScoping(cache: seq<StatOption>, statText: string, stats: seq<StatOption>, search: Oracle)
    requires SoundOracle(search)
    requires ImplicitOnly(statText)
    ensures FindStatId(Some(cache), Some(BuildIndex(cache)), statText, stats, search).Some? ==>
      exists x :: x in cache && x.kind == ImplicitKind && x.id == FindStatId(Some(cache), Some(BuildIndex(cache)), statText, stats, search).value
  {
    ResultFromPool(cache, NormalizeStatText(statText), true, search);
  }

  /** Whatever the line, an id found under a sound oracle is the id of a stat of the cache. */
  lemma ResultInCache(cache: seq<StatOption>, statText: string, stats: seq<StatOption>, search: Oracle)
    ensures SoundOracle(search) && FindStatId(Some(cache), Some(BuildIndex(cache)), statText, stats, search).Some? ==>
      exists x :: x in cache && x.id == FindStatId(Some(cache), Some(BuildIndex(cache)), statText, stats, search).value
  {
    if SoundOracle(search) {
      ResultFromPool(cache, NormalizeStatText(statText), ImplicitOnly(statText), search);
    }
  }
}
