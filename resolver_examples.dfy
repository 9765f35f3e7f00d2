/**
 * `findStatId` on a two-stat catalog: one explicit stat and one implicit stat,
 * with their catalog texts.
 */
module ResolverExamples {
  import opened Chars
  import opened Optional
  import opened StatText
  import opened Catalog
  import opened Resolver
  import StatTextFacts
  import StatTextExamples

  const FireStat := StatOption("explicit.stat_fire", "#% increased Fire Damage", "Explicit", None)
  const StrengthStat := StatOption("implicit.stat_str", "+# to Strength", ImplicitKind, None)
  const Sample := [FireStat, StrengthStat]

  /** A line without the letter p, in either case, cannot mention "implicit". */
  lemma NoImplicitWithoutP(s: string)
    requires 'p' !in s && 'P' !in s
    ensures !ImplicitOnly(s)
  {
    var l := Lowercase(s);
    LowercaseEach(s);
    IncludesIff(l, "implicit", 0);
    forall i: nat | i + 8 <= |l|
      ensures !OccursAt(l, "implicit", i)
    {
      assert l[i..i + 8][2] == l[i + 2] == LowerChar(s[i + 2]) != 'p';
    }
  }

  /** A line holding the lower-case word "implicit" asks for implicit stats. */
  lemma ImplicitWord(a: string, b: string)
    ensures ImplicitOnly(a + "implicit" + b)
  {
    var s := a + "implicit" + b;
    LowercaseAppend(a + "implicit", b);
    LowercaseAppend(a, "implicit");
    LowercaseFixed("implicit");
    var l := Lowercase(s);
    LowercaseEach(a);
    var la := Lowercase(a);
    assert l == la + "implicit" + Lowercase(b);
    assert OccursAt(l, "implicit", |la|) by {
      assert l[|la|..|la| + 8] == "implicit";
    }
    IncludesIff(l, "implicit", 0);
  }

  /**
   * A line that asks for implicit stats, over a catalog where `id` is the only
   * id of an implicit stat, resolves to `id` or to nothing.
   */
  lemma OnlyImplicitCandidate(cache: seq<StatOption>, id: string, statText: string, search: Oracle)
    requires SoundOracle(search)
    requires ImplicitOnly(statText)
    requires forall x :: x in cache && x.kind == ImplicitKind ==> x.id == id
    ensures FindStatId(Some(cache), Some(BuildIndex(cache)), statText, [], search) in {None, Some(id)}
  {
    ImplicitScoping(cache, statText, [], search);
  }

  /**
   * "+12% increased Fire Damage" is found by the exact pass: it normalises to
   * the catalog text of the fire stat, whatever the fuzzy matcher would say.
   */
  lemma FireLineExact(search: Oracle)
    ensures FindStatId(Some(Sample), Some(BuildIndex(Sample)), "+12% increased Fire Damage", [], search)
         == Some("explicit.stat_fire")
  {
    FireLineNotImplicit();
    FireLineKey();
    ExactLineWins(Sample, "+12% increased Fire Damage", [], search, 0);
  }

  lemma FireLineNotImplicit()
    ensures !ImplicitOnly("+12% increased Fire Damage")
  {
    NoImplicitWithoutP("+12% increased Fire Damage");
  }

  lemma FireLineKey()
    ensures NormalizedTexts(Sample)[0] == NormalizeStatText("+12% increased Fire Damage")
  {
    StatTextExamples.FireDamage();
    StatTextExamples.HashFire();
  }

  lemma StrengthLineImplicit()
    ensures ImplicitOnly("+15 to Strength (implicit)")
  {
    ImplicitWord("+15 to Strength (", ")");
    assert "+15 to Strength (implicit)" == "+15 to Strength (" + "implicit" + ")";
  }

  /**
   * "+15 to Strength (implicit)" is searched among the implicit stats only:
   * under a sound oracle the answer is the strength stat or nothing, never
   * the fire stat, even though the exact pass misses.
   */
  lemma StrengthLineScoped(search: Oracle)
    requires SoundOracle(search)
    ensures FindStatId(Some(Sample), Some(BuildIndex(Sample)), "+15 to Strength (implicit)", [], search)
         in {None, Some("implicit.stat_str")}
  {
    StrengthLineImplicit();
    OnlyImplicitCandidate(Sample, "implicit.stat_str", "+15 to Strength (implicit)", search);
  }

  /** When the exact pass misses, a top hit with score 0 is refused like a weak one. */
  lemma ZeroScoreRefused(cache: seq<StatOption>, index: FuzzyIndex, input: string, implicitOnly: bool, search: Oracle)
    requires forall j :: 0 <= j < |Pool(cache, implicitOnly)| ==> NormalizedTexts(Pool(cache, implicitOnly))[j] != input
    requires var hits := search(Searcher(cache, index, implicitOnly), input); |hits| > 0 && hits[0].score == 0.0
    ensures Resolve(cache, index, input, implicitOnly, search) == None
  {
    FuzzyFallback(cache, index, input, implicitOnly, search);
  }
}
