/**
 * The stat catalog: the groups the stats endpoint returns, the flat list of
 * stat options the resolver searches, and the fuzzy index built over it.
 */
module Catalog {
  import opened Optional
  import StatText
  import opened Sequences

  /** The free-form `option` record of an entry; it is only ever copied. */
  type OptionRecord = map<string, string>

  /** One entry of a group as the endpoint sends it. */
  datatype StatEntry = StatEntry(id: string, text: string, option: Option<OptionRecord>)

  /** A group of entries, named by its `label` ("Explicit", "Implicit", ...). */
  datatype StatGroup = StatGroup(name: string, entries: seq<StatEntry>)

  /** A searchable stat: an entry tagged with its group's label (the `type` field). */
  datatype StatOption = StatOption(id: string, text: string, kind: string, option: Option<OptionRecord>)

  /**
   * The parsed body of the stats response: `error` is present when the
   * endpoint reports a failure, `result` holds the groups.
   */
  datatype Payload = Payload(error: Option<string>, result: Option<seq<StatGroup>>)

  /** Why a payload is rejected: its `error` field is set, or it has no `result` to read. */
  datatype LoadError = ErrorField(message: string) | Malformed

  // ---------------------------------------------------------------------------
  // Flattening the groups
  // ---------------------------------------------------------------------------

  /** The option made from entry `e` of group `g`: id, text and option as they are, type from the group's name. */
  function Tag(g: StatGroup, e: StatEntry): StatOption {
    StatOption(e.id, e.text, g.name, e.option)
  }

  /** `group.entries.map(...)`: every entry of the group, tagged, in order. */
  function TagEntries(g: StatGroup): (r: seq<StatOption>)
    ensures |r| == |g.entries|
    ensures forall i :: 0 <= i < |r| ==> r[i] == Tag(g, g.entries[i])
  {
    seq(|g.entries|, i requires 0 <= i < |g.entries| => Tag(g, g.entries[i]))
  }

  /** `result.flatMap(...)`: the tagged entries of every group, group after group. */
  function Flatten(groups: seq<StatGroup>): seq<StatOption> {
    if groups == [] then [] else TagEntries(groups[0]) + Flatten(groups[1..])
  }

  /** How many entries the groups hold together. */
  function EntryCount(groups: seq<StatGroup>): nat {
    if groups == [] then 0 else |groups[0].entries| + EntryCount(groups[1..])
  }

  /** Flattening distributes over the concatenation of group lists. */
  lemma {:induction false} FlattenAppend(a: seq<StatGroup>, b: seq<StatGroup>)
    ensures Flatten(a + b) == Flatten(a) + Flatten(b)
  {
    if a == [] {
      assert a + b == b;
    } else {
      assert (a + b)[1..] == a[1..] + b;
      FlattenAppend(a[1..], b);
    }
  }

  /** The flat list has one option per entry. */
  lemma {:induction false} FlattenLength(groups: seq<StatGroup>)
    ensures |Flatten(groups)| == EntryCount(groups)
  {
    if groups != [] {
      FlattenLength(groups[1..]);
    }
  }

  /**
   * Entry `e` of group `g` sits at the number of entries of the groups before
   * `g`, plus `e`, and carries `g`'s name.
   */
  lemma {:induction false} FlattenAt(groups: seq<StatGroup>, g: nat, e: nat)
    requires g < |groups| && e < |groups[g].entries|
    ensures EntryCount(groups[..g]) + e < |Flatten(groups)|
    ensures Flatten(groups)[EntryCount(groups[..g]) + e] == Tag(groups[g], groups[g].entries[e])
  {
    FlattenSplit(groups, g);
    FlattenLength(groups[..g]);
    IndexPastPrefix(Flatten(groups[..g]), TagEntries(groups[g]) + Flatten(groups[g + 1..]), e);
  }

  /** The flat list around group `g`: the groups before it, its own entries, the groups after it. */
  lemma FlattenSplit(groups: seq<StatGroup>, g: nat)
    requires g < |groups|
    ensures Flatten(groups) == Flatten(groups[..g]) + (TagEntries(groups[g]) + Flatten(groups[g + 1..]))
  {
    var before, rest := groups[..g], groups[g..];
    assert before + rest == groups;
    FlattenAppend(before, rest);
    FlattenStep(rest);
    assert rest[1..] == groups[g + 1..];
  }

  lemma FlattenStep(groups: seq<StatGroup>)
    requires groups != []
    ensures Flatten(groups) == TagEntries(groups[0]) + Flatten(groups[1..])
  {
  }

  /** Every option of the flat list comes from some entry of some group. */
  lemma {:induction false} FlattenFrom(groups: seq<StatGroup>, k: nat)
    requires k < |Flatten(groups)|
    ensures exists g, e :: 0 <= g < |groups| && 0 <= e < |groups[g].entries| && Flatten(groups)[k] == Tag(groups[g], groups[g].entries[e])
  {
    var first := TagEntries(groups[0]);
    if k < |first| {
      assert Flatten(groups)[k] == Tag(groups[0], groups[0].entries[k]);
    } else {
      FlattenFrom(groups[1..], k - |first|);
      var g, e :| 0 <= g < |groups[1..]| && 0 <= e < |groups[1..][g].entries| && Flatten(groups[1..])[k - |first|] == Tag(groups[1..][g], groups[1..][g].entries[e]);
      assert groups[1..][g] == groups[g + 1];
      assert Flatten(groups)[k] == Tag(groups[g + 1], groups[g + 1].entries[e]);
    }
  }

  // ---------------------------------------------------------------------------
  // Accepting a payload
  // ---------------------------------------------------------------------------

  /**
   * What `fetchStats` makes of a parsed payload: an `error` field that is set
   * and not empty is thrown; a payload without `result` cannot be read;
   * otherwise the groups are flattened.
   */
  function ProcessPayload(payload: Payload): (r: Result<seq<StatOption>, LoadError>)
    ensures r.Failure? <==> (payload.error.Some? && payload.error.value != "") || payload.result.None?
    ensures r.Success? ==> r.value == Flatten(payload.result.value)
    ensures r.Success? ==> |r.value| == EntryCount(payload.result.value)
  {
    if payload.error.Some? && payload.error.value != "" then
      Failure(ErrorField(payload.error.value))
    else if payload.result.None? then
      Failure(Malformed)
    else
      FlattenLength(payload.result.value);
      Success(Flatten(payload.result.value))
  }

  // ---------------------------------------------------------------------------
  // The fuzzy index
  // ---------------------------------------------------------------------------

  /** The options both fuzzy indexes are built with. */
  datatype SearchOptions = SearchOptions(
    keys: seq<string>,
    includeScore: bool,
    threshold: real,
    distance: nat,
    ignoreLocation: bool,
    minMatchCharLength: nat,
    useExtendedSearch: bool)

  const IndexOptions := SearchOptions(["text"], true, 0.7, 300, true, 2, true)

  /**
   * A fuzzy index over `docs`: the key it searches for each document (its
   * normalised text, as the index's key getter returns it) and its options.
   */
  datatype FuzzyIndex = FuzzyIndex(docs: seq<StatOption>, keys: seq<string>, options: SearchOptions)

  /** The normalised text of every stat, in order: the key both the index and the exact pass compare. */
  function NormalizedTexts(docs: seq<StatOption>): (keys: seq<string>)
    ensures |keys| == |docs|
    ensures forall i :: 0 <= i < |docs| ==> keys[i] == StatText.NormalizeStatText(docs[i].text)
  {
    seq(|docs|, i requires 0 <= i < |docs| => StatText.NormalizeStatText(docs[i].text))
  }

  /** `new Fuse(docs, {...})`: the documents, their keys as the key getter normalises them, and the options. */
  function BuildIndex(docs: seq<StatOption>): (ix: FuzzyIndex)
    ensures ix.docs == docs && ix.options == IndexOptions
    ensures ix.keys == NormalizedTexts(docs)
  {
    FuzzyIndex(docs, NormalizedTexts(docs), IndexOptions)
  }
}
