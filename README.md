# Stat text engine of the item price checker, in Dafny

This project models the stat text engine of `app/utils/stats.ts`. The engine turns a stat line as the game prints it into the id of a stat in the trade site's catalog, and reads the number a line carries. It is made of four parts:

- **`normalizeStatText`**: a fixed chain of nine rewrites. It lowercases the text, drops a `+` before a digit, drops brackets, drops `|` notes, replaces every number with `#`, collapses whitespace, strips the `adds `/`gain `/`you ` prefixes and a trailing `(implicit)`, then trims. Module `StatText` has one function per rewrite. Module `NumberLiteral` models the regular expression `[+-]?\d+\.?\d*` as a greedy scanner. Module `StatTextFacts` holds the lemmas about numbers.
- **`findStatId`**: the resolver, in module `Resolver`. It returns nothing before the catalog is loaded. A line that mentions "implicit" is searched among the "Implicit" stats only. An exact pass on normalised text comes first, then a fuzzy pass whose top hit is accepted only when its score is neither 0 nor 0.8 or more. The fuzzy matcher is a parameter (an oracle). Every property of the resolver is proved for any oracle, or for any oracle that only returns documents of the index it searches.
- **`extractValue`**: the value of the leftmost match of `[+-]?\d+\.?\d*`, or 0 when there is none. It is in module `ValueExtractor`.
- **`fetchStats`**, minus its network and logging. `Catalog` checks a parsed payload and flattens its groups into stat options tagged with their group's label. `StatsState.StatsStore` is a class holding the two module-level fields `statsCache` and `fuseInstance`. Its `FetchStats` method replaces both fields on success and leaves them alone on failure.

Modules `Chars`, `Optional` and `Sequences` hold character classes, the `Option`/`Result` types and generic sequence lemmas. Modules `StatTextExamples`, `NumberExamples`, `ValueExamples` and `ResolverExamples` hold worked lines.

Two behaviours of the code that a reader may not expect:

- **Normalisation is not idempotent.** The three prefixes are stripped one after the other, once each. So "adds adds x" normalises to "adds x", and that normalises to "x" (`StatTextExamples.NotIdempotent`). For the same reason, "adds gain x" loses both prefixes, where stripping only the first would leave "gain x".
- **"+15 to Strength (implicit)" misses "+# to Strength" in the exact pass.** The `+` is dropped only before a digit, so the catalog template keeps its `+` as "+# to strength". The line itself normalises to "# to strength" (`StatTextExamples.ImplicitStrengthMissesCatalogText`). Such a line is therefore resolved by the fuzzy pass. What is proved is that the answer is an implicit stat or nothing (`ResolverExamples.StrengthLineScoped`).

## Model

| member | source | states |
|---|---|---|
| NumberLiteral.ScanLiteral | app/utils/stats.ts:76 | The number pattern matches at the start of a text exactly when the text starts with a digit, or with a sign followed by a digit. |
| NumberLiteral.ScanLiteralMatch | app/utils/stats.ts:76 | A match is a well-formed literal (digits, an optional point, digits). It is a prefix of the text and is greedy: the text goes on with no digit, and with no point when the literal has none. |
| NumberLiteral.ScanSpelling | app/utils/stats.ts:76 | Round trip: scanning a well-formed literal's spelling, followed by a character the match cannot take, gives back that literal. |
| NumberLiteral.ScanIgnoresTail | app/utils/stats.ts:76 | The match at the start of a text that ends in whitespace does not change when more text is appended. |
| NumberLiteral.Value | app/utils/stats.ts:146 | The value `parseFloat` gives a matched literal is negative only for a '-' sign, and never negative otherwise. |
| NumberLiteral.ValueScaled | app/utils/stats.ts:146 | The value of a literal, with its decimal point moved past every fraction digit, is its digits without the point read as one decimal integer, carrying the literal's sign ("-12.50" is -1250 hundredths). |
| NumberLiteral.FractionScaled | app/utils/stats.ts:146 | The digits after the point, with the point moved past all of them, read as the same digits as an integer. |
| NumberLiteral.WholeValueAppend | app/utils/stats.ts:146 | Reading two digit strings one after the other shifts the first left by as many places as the second has digits. |
| StatText.LowercaseClean | app/utils/stats.ts:72 | After lowercasing no ASCII upper-case letter is left. The length is kept, and each position keeps its character or holds the lower-case form of the letter that was there. |
| StatText.LowercaseFixed | app/utils/stats.ts:72 | Lowercasing leaves a text unchanged exactly when it holds no ASCII upper-case letter. |
| StatText.LowercaseAppend | app/utils/stats.ts:72 | Lowercasing distributes over concatenation. |
| StatText.LowercaseIdempotent | app/utils/stats.ts:72 | Lowercasing twice gives the same text as lowercasing once. |
| StatText.DropPlusOnlyDropsPlus | app/utils/stats.ts:73 | Dropping '+' before digits removes '+' characters and nothing else: the text without '+' is unchanged, and no character is added. Exactly as many characters go as there are '+' characters directly followed by a digit. |
| StatText.DropBracketsKeepsTheRest | app/utils/stats.ts:74 | The result is the input with every '[' and every ']' taken out, the other characters kept in order and number. |
| StatText.DropPipeNotesChars | app/utils/stats.ts:75 | Dropping '\|' notes leaves no '\|' and adds no character. |
| StatText.DropPipeNotesKeepsSpaces | app/utils/stats.ts:75 | A note ends at whitespace, so every whitespace character of the input survives, in order. |
| StatText.DropPipeNotesFixed | app/utils/stats.ts:75 | A text without '\|' is left as it is. |
| StatText.DropPipeNote | app/utils/stats.ts:75 | Where the first '\|' opens a note that runs to whitespace or the end, the text before the bar is kept, the bar and the note go, and the text after the note is rewritten on its own. |
| StatText.NoteThenRest | app/utils/stats.ts:75 | A note at the start of a text goes up to the first whitespace character, and everything from that character on is rewritten on its own. |
| StatTextFacts.DropPipeAppend | app/utils/stats.ts:75 | Dropping notes works on each side of a cut made just after whitespace. |
| StatText.CollapseNumbersChars | app/utils/stats.ts:76 | Masking numbers leaves no digit. Every character of the result is '#' or comes from the input. |
| StatText.CollapseNumbersFixed | app/utils/stats.ts:76 | A text without digits is left as it is. |
| StatText.CollapseSpacesSpec | app/utils/stats.ts:77 | Only ' ' remains as whitespace, and no two spaces are adjacent. The non-whitespace characters are kept in order. The result is empty, or starts with whitespace, exactly when the input is or does. |
| StatText.CollapseBetweenWords | app/utils/stats.ts:77 | A whitespace run of any length between two non-whitespace characters becomes exactly one ' ', and the two sides are collapsed each on its own. |
| StatText.CollapseRunThen | app/utils/stats.ts:77 | A whole whitespace run at the start becomes one ' ', and the rest is collapsed on its own. |
| StatText.CollapseSpacesAppend | app/utils/stats.ts:77 | Collapsing works on each side of a cut made just after a non-whitespace character. |
| StatTextFacts.CollapseSpacesFixed | app/utils/stats.ts:77 | A text that is already single-spaced with ' ' is left as it is. |
| StatText.StripPrefix | app/utils/stats.ts:78-80 | Stripping a prefix leaves a suffix of the text. When the text starts with the prefix, the prefix and the result make up the text; otherwise the text is unchanged. |
| StatText.StripPrefixOfPrefixed | app/utils/stats.ts:78-80 | Round trip: stripping `p` from `p + t` gives back `t`. |
| StatText.StripPrefixMiss | app/utils/stats.ts:78-80 | A text whose first character differs from the prefix's is unchanged. |
| StatText.StripImplicitSuffix | app/utils/stats.ts:81 | A trailing "(implicit)" is removed together with the whole whitespace run before it. The result is a prefix that does not end in whitespace. A text without the tag is unchanged. |
| StatText.Trim | app/utils/stats.ts:82 | The result neither starts nor ends with whitespace. It is empty exactly when the input is all whitespace. |
| StatText.TrimSpec | app/utils/stats.ts:82 | The input is a whitespace run, then the result, then another whitespace run: trimming cuts only whitespace off the two ends. |
| StatText.TrimKeeps | app/utils/stats.ts:82 | A text that neither starts nor ends with whitespace is unchanged. |
| StatText.TrimIdempotent | app/utils/stats.ts:82 | Trimming twice gives the same text as trimming once. |
| StatText.MaskedIsClean | app/utils/stats.ts:72-76 | After rewrites 1 to 5, no digit, upper-case ASCII letter, bracket or '\|' is left. |
| StatText.NormalizedIsCanonical | app/utils/stats.ts:70-83 | Every normalised text has no digit, upper-case ASCII letter, bracket or '\|'. Its only whitespace is single ' ' characters, none at either end. |
| StatTextFacts.MaskNumberWord | app/utils/stats.ts:72-76 | A number that follows whitespace (or starts the text) and is followed by a non-numeric character becomes one '#'. The text on either side is masked on its own. |
| StatTextFacts.NumeralInvariance | app/utils/stats.ts:73-81 | Two lines that differ only in one such number (its digits, its sign or its decimals) normalise to the same text. |
| StatTextFacts.MaskPlainText | app/utils/stats.ts:72-76 | On a text with no digit, '+', bracket or '\|', rewrites 1 to 5 only lower the case. |
| StatTextExamples.FireDamage | app/utils/stats.ts:70-83 | "+12% increased Fire Damage" normalises to "#% increased fire damage". |
| StatTextExamples.HashFire | app/utils/stats.ts:70-83 | The catalog template "#% increased Fire Damage" normalises to the same text. |
| NumberExamples.FortyFiveFire | app/utils/stats.ts:70-83 | "+45% increased Fire Damage" normalises exactly like "+12% increased Fire Damage". |
| NumberExamples.AddsFiveToTenText | app/utils/stats.ts:70-83 | "Adds 5 to 10 Fire Damage" normalises to "# to # fire damage": both numbers are masked and "adds " is stripped. |
| NumberExamples.MinusFive | app/utils/stats.ts:76 | "-5% x" normalises to "#% x": the sign goes into the '#'. |
| StatTextExamples.AddsAddsX | app/utils/stats.ts:78-80 | "adds adds x" normalises to "adds x": each prefix is stripped at most once. |
| StatTextExamples.NotIdempotent | app/utils/stats.ts:70-83 | Normalising a normalised text can change it. |
| StatTextExamples.ImplicitStrength | app/utils/stats.ts:70-83 | "+15 to Strength (implicit)" normalises to "# to strength". |
| StatTextExamples.HashStrength | app/utils/stats.ts:73 | The template "+# to Strength" keeps its '+', since no digit follows it, and normalises to "+# to strength". |
| StatTextExamples.MaskPlusHash | app/utils/stats.ts:73-76 | A '+' before a '#' placeholder survives rewrites 1 to 5. |
| StatTextExamples.ImplicitStrengthMissesCatalogText | app/utils/stats.ts:73-81 | "+15 to Strength (implicit)" and "+# to Strength" normalise to different texts. |
| ValueExtractor.FirstMatch | app/utils/stats.ts:144 | The first match is at the leftmost position where the pattern matches. No earlier position starts a match, and "none" means no position does. |
| ValueExtractor.ExtractValue | app/utils/stats.ts:143-147 | A text without digits gives 0. |
| ValueExtractor.MatchIffDigit | app/utils/stats.ts:144-145 | There is a match exactly when the text holds a digit. |
| ValueExtractor.LeadingNumber | app/utils/stats.ts:143-147 | Take text with no digit, and no sign at its end, then a literal read greedily, then anything. Its value is the value of that literal. |
| ValueExamples.ThirtyPercent | app/utils/stats.ts:143-147 | "+30% increased Physical Damage" gives 30. |
| ValueExamples.AddsFiveToTen | app/utils/stats.ts:143-147 | "Adds 5 to 10 Fire Damage" gives 5: the first number wins. |
| ValueExamples.MinusAfterLetter | app/utils/stats.ts:143-147 | "a-5" gives -5: a sign before a digit belongs to the number. |
| ValueExamples.TwoPoints | app/utils/stats.ts:143-147 | "1.2.3" gives 1.2: one point at most. |
| ValueExamples.NoNumber | app/utils/stats.ts:145 | "Grants a random Skill" gives 0. |
| Catalog.FlattenAppend | app/utils/stats.ts:36-43 | Flattening distributes over concatenation of group lists. |
| Catalog.FlattenLength | app/utils/stats.ts:36-43 | The flat list has one option per entry: its length is the sum of the groups' entry counts. |
| Catalog.FlattenAt | app/utils/stats.ts:36-43 | Entry `e` of group `g` lands at position (entries before `g`) + `e`. It keeps its id, text and option, and its type is `g`'s label. |
| Catalog.FlattenFrom | app/utils/stats.ts:36-43 | Every option of the flat list is some entry of some group, tagged with that group's label. |
| Catalog.ProcessPayload | app/utils/stats.ts:29-43 | The payload is rejected exactly when its `error` is set and non-empty, or it has no `result`. Otherwise the result is the flat list of its groups' tagged entries, group after group (placed entry by entry by `FlattenAt` and `FlattenFrom`), one per entry. |
| Resolver.IncludesIff | app/utils/stats.ts:92 | `includes` is true exactly when the substring occurs at some position. |
| Resolver.ImplicitStats | app/utils/stats.ts:95-97 | A stat is in the filtered pool exactly when it is in the cache and its type is "Implicit". |
| Resolver.ImplicitStatsAppend | app/utils/stats.ts:95-97 | The filter keeps cache order: filtering a concatenation is concatenating the filtered parts. |
| Resolver.ImplicitPosition | app/utils/stats.ts:95-97 | An "Implicit" stat of the cache appears in the filtered pool, preceded only by stats that come before it in the cache. |
| Resolver.FindExact | app/utils/stats.ts:100-102 | The exact pass returns the first position whose normalised text equals the input. When it finds nothing, no position holds it. |
| Resolver.FindExactFirst | app/utils/stats.ts:100-102 | When `i` is the first position holding the key, the exact pass returns `i`. |
| Resolver.ExactMatchFirst | app/utils/stats.ts:99-111 | When the `i`-th stat of the pool is the first whose normalised text equals the input, its id is the answer, whatever the fuzzy matcher says. |
| Resolver.ExactLineWins | app/utils/stats.ts:91-111 | The same for a raw line that does not mention "implicit", against the whole cache and the stored index. |
| Resolver.ImplicitLineWins | app/utils/stats.ts:91-111 | For a line that mentions "implicit", the first "Implicit" stat of the cache whose normalised text is the line's gives the answer, whatever stats of other types come before it. |
| Resolver.FirstImplicitMatch | app/utils/stats.ts:95-111 | The same on the normalised line: the first matching "Implicit" stat in cache order wins the exact pass over the filtered pool. |
| Resolver.FuzzyFallback | app/utils/stats.ts:113-134 | Without an exact match, the answer is the fuzzy pass's. It searches a fresh index over the implicit stats, or the stored index. |
| Resolver.FuzzyThreshold | app/utils/stats.ts:113-140 | When no stat of the pool has the line's normalised text, `findStatId` answers an id exactly when the fuzzy search's top hit has a score that is neither 0 nor 0.8 or more, and that id is the hit's. With no hit, or any other top score, it answers nothing. |
| Resolver.SearchedIndex | app/utils/stats.ts:113-132 | Once the stored index is the one built over the cache, the index the fuzzy pass searches holds exactly the pool, with the fixed options, and, taking the key getter's text branch (see "## Left out"), keys each stat by its normalised text: the keys the exact pass compares. |
| Resolver.FindStatId | app/utils/stats.ts:85-89 | Nothing is found while the cache or the index is unset. |
| Resolver.StatsArgumentIgnored | app/utils/stats.ts:85 | The `_stats` argument has no influence on the answer. |
| Resolver.ResultFromPool | app/utils/stats.ts:95-140 | Under a sound oracle, any id found belongs to a stat of the pool that was searched. |
| Resolver.ImplicitScoping | app/utils/stats.ts:92-97 | A line that mentions "implicit", in any case, only ever resolves to the id of an "Implicit" stat. |
| Resolver.ResultInCache | app/utils/stats.ts:85-141 | Under a sound oracle, any id found is the id of a cached stat. |
| ResolverExamples.NoImplicitWithoutP | app/utils/stats.ts:92 | A line without the letter p, in either case, does not ask for implicit stats. |
| ResolverExamples.ImplicitWord | app/utils/stats.ts:92 | A line containing "implicit" asks for implicit stats. |
| ResolverExamples.OnlyImplicitCandidate | app/utils/stats.ts:92-140 | Suppose a catalog's implicit stats all share one id. Then an implicit line resolves to that id or to nothing. |
| ResolverExamples.FireLineExact | app/utils/stats.ts:99-111 | "+12% increased Fire Damage" resolves to the fire stat by the exact pass, for every oracle. |
| ResolverExamples.StrengthLineScoped | app/utils/stats.ts:92-140 | "+15 to Strength (implicit)" resolves to the implicit strength stat or to nothing, never to the explicit fire stat. |
| ResolverExamples.ZeroScoreRefused | app/utils/stats.ts:136 | With no exact match, a top hit of score 0 is refused. |
| StatsState.StatsStore.constructor | app/utils/stats.ts:21-22 | Both fields start unset. |
| StatsState.StatsStore.FetchStats | app/utils/stats.ts:29-61 | The result is the payload's verdict. On success both fields are replaced: the cache by the flat list, the index by the one built over it. On failure neither field changes. The two fields stay in step. |
| StatsState.StatsStore.FindStatId | app/utils/stats.ts:85-141 | Against the current fields: nothing before a payload was accepted. Afterwards, under a sound oracle, only ids of cached stats. |

## Left out

- Network, parsing and logging in `fetchStats` (app/utils/stats.ts:26-27, 33-34, 64-66) are left out. The model starts from an already parsed payload; `console` output is not modelled, and the rethrow is the `Failure` result.
- The logging in `findStatId` is left out: the `console.error` when the catalog is not loaded (app/utils/stats.ts:87) and the `console.log` of an exact match (app/utils/stats.ts:105-109). Neither changes the answer.
- Catalog.ProcessPayload: models `data.error` as an optional string (set and non-empty means failure). It models a missing `result` as a `Malformed` failure. Other JavaScript values (a truthy number or object as `error`, a `result` that is not an array) are not modelled.
- The fuzzy matcher's internals (bitap scoring, threshold, distance, extended search) belong to an external library. The search is an oracle parameter; the options are only recorded as constants (`Catalog.IndexOptions`).
- Resolver.SearchedIndex: assumes, as the source intends, that the key getter takes its `text` branch (app/utils/stats.ts:56 and 126), so that each stat is keyed by its normalised text. Whether the search library passes the getter the string `'text'` or a path such as `['text']` is not part of this model. With the latter, the getter would fall through to the raw-field branch (app/utils/stats.ts:59, 129) and key each stat by its raw text. Catalog.BuildIndex models only the text branch. No other resolver property depends on this, because each holds for any fuzzy oracle.
- NumberLiteral.Value: is an exact rational value, without the IEEE double rounding of `parseFloat`.
- StatText.Lowercase: lowers ASCII letters only; `toLowerCase` also maps non-ASCII letters. Whitespace (`\s`, `trim`) is modelled with the full JavaScript set.
- The `option` record of an entry is modelled as a string map. It is only ever copied.
- The `async`/`Promise` form of `fetchStats` is not modelled; the method runs to completion.
