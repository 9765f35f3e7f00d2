/**
 * The two module-level fields that `fetchStats` fills and `findStatId` reads:
 * the flat stat list and the fuzzy index built over it.
 */
module StatsState {
  import opened Optional
  import opened Catalog
  import Resolver

  class StatsStore {
    /** `statsCache`: the flat stat list of the last accepted payload, or nothing yet. */
    var statsCache: Option<seq<StatOption>>
    /** `fuseInstance`: the fuzzy index over `statsCache`. */
    var fuseInstance: Option<FuzzyIndex>

    /** Both fields are set together, and the index is the one built over the cached list. */
    ghost predicate Valid()
      reads this
    {
      (statsCache.Some? <==> fuseInstance.Some?)
      && (statsCache.Some? ==> fuseInstance == Some(BuildIndex(statsCache.value)))
    }

    /** Both fields start out `null`. */
    constructor()
      ensures Valid()
      ensures statsCache == None && fuseInstance == None
    {
      statsCache := None;
      fuseInstance := None;
    }

    /**
     * `fetchStats` on an already parsed payload: a rejected payload is
     * reported and changes nothing; an accepted one replaces both fields.
     */
    method FetchStats(payload: Payload) returns (r: Result<seq<StatOption>, LoadError>)
      requires Valid()
      modifies this
      ensures Valid()
      ensures r == ProcessPayload(payload)
      ensures r.Success? ==> statsCache == Some(r.value) && fuseInstance == Some(BuildIndex(r.value))
      ensures r.Failure? ==> statsCache == old(statsCache) && fuseInstance == old(fuseInstance)
    {
      if payload.error.Some? && payload.error.value != "" {
        return Failure(ErrorField(payload.error.value));
      }
      if payload.result.None? {
        return Failure(Malformed);
      }
      var processed := Flatten(payload.result.value);
      statsCache := Some(processed);
      fuseInstance := Some(BuildIndex(processed));
      return Success(processed);
    }

    /**
     * `findStatId(statText, _stats)` against the current fields: nothing
     * before a payload was accepted, and afterwards, under an oracle that only
     * returns documents it was given, only ids of cached stats.
     */
    function FindStatId(statText: string, stats: seq<StatOption>, search: Resolver.Oracle): (r: Option<string>)
      requires Valid()
      reads this
      ensures statsCache.None? ==> r.None?
      ensures Resolver.SoundOracle(search) && r.Some? ==> exists x :: x in statsCache.value && x.id == r.value
    {
      if statsCache.Some? then
        Resolver.ResultInCache(statsCache.value, statText, stats, search);
        Resolver.FindStatId(statsCache, fuseInstance, statText, stats, search)
      else
        Resolver.FindStatId(statsCache, fuseInstance, statText, stats, search)
    }
  }
}
