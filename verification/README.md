# LynxDNS: a verified model

LynxDNS is a splitting DNS forwarder: it decides for every name whether domestic or
remote servers may see it, caches what they answer, and guards each server with a
circuit breaker. This project models its algorithmic parts in Dafny and proves what they
promise. `dafny verify dfyconfig.toml` checks everything.

- `Wire`, `WirePadding`, `Geosite`, `GeositeMeaning`, `GeositeText`, `SuffixIndex`, `AdFilter`,
  `GeoManager`: from the bytes of a geosite file, or the lines of an ad list, to the answer
  for a name. The two hand-written wire-format decoders are loops over a byte string; `None`
  from them is a run-time panic. `WirePadding` says on which messages they follow the format.
  The lookup by labels is proved equal to a scan over all patterns.
- `Lru`, `Cache`, `CacheRuns`, `CacheRetention`, `CacheInterleaving`, `CacheStore`: the cache
  as map and list of elements, its abstraction to a recency list, theorems about runs of that
  list (inclusion between sizes, exact retention, freshness), the interleavings that the two
  lock sections of Get allow, and how the two views of the cache fit together.
- `Rules`, `RuleEngine`, `RuleIds`: rules, their compiled form, first match, identifiers,
  reordering, what a failed Update leaves behind, and overlapping Adds.
- `Routing`, `Resolver`, `ResolverMeaning`, `ResolverService`, `ResolverRuns`, `ResolverAlone`,
  `Counters`: the two cascades of decisions, leak safety, one query on its own with everything
  it does (addresses asked, reply, cache, counters), and any number of overlapping queries, each calling the cache in its separate parts: how the counters add up in every
  state, and where cached answers come from.
- `Breaker`, `LatencyWindow`, `Client`, `ClientRuns`: the circuit breaker over every
  interleaving, the latency ring with its percentiles, one query, overlapping queries to one
  server with their accounting, and the choice among a group's answers.
- `Base64Url`, `CivilTime`: the encoder of DNS over HTTPS and the log timestamp.
- `Prelude`, `Text`, `Tallies`: options, byte strings, counting.

Classes follow the program's objects and are updated in place; each method is tied to a
function on values, and the theorems are about those functions. A clock reading, the answer
of a group of servers, and the regular expression library are arguments. Goroutines appear
as sequences of atomic steps in `ResolverRuns`, `ClientRuns`, `CacheInterleaving`, `RuleIds`,
`Breaker` and `Counters`; `ResolverAlone.AloneIsStep` and `ClientRuns.AloneIsQuery` connect
the first two to the contracts of the classes.

Where the code does not do what its comments or names suggest, the model follows the code:
half-open admits every request (`Breaker.HalfOpenAdmitsAll`), the average latency is not
that of the window (`LatencyWindow.AverageIsWindowMean`), stored values, text lines and ad
lines with capital letters cannot match (`GeositeMeaning.CapitalsNeverMatch`,
`GeositeText.CapitalTextLine`, `AdFilter.CapitalLine`), rules for ".d" or "*.d" with capital
letters match d only (`Rules.CapitalSuffix`), a failed Update changes what a rule matches
(`Rules.MeaningAfterFailedUpdate`), varints padded with zeros throw the decoders off unless
nothing follows and their field is read rightly all the same (`WirePadding.ReturnedFields`), a
truncated varint can make one decoder panic and the other invent a field
(`Wire.CutOffVarint`), a text list with a short first line is decoded as binary
(`GeositeText.ShortFirstLine`), record types without a name share cache entries
(`Cache.KeysAgree`), Lookup and Resolve can differ (`Routing.LookupAgrees`), overlapping Adds
can hand out one identifier twice (`RuleIds.DifferentIffNoClash`), Reorder then loses rules
(`Rules.ReorderKeepsAll`), and concurrent Gets can overfill map and list of the cache
(`CacheInterleaving.MapBoundExact`, `CacheInterleaving.ListBoundExact`, with
`CacheInterleaving.RaceBreaksBound` as the witness).

## Model

| member | source | states |
|---|---|---|
| Wire.VarintSize | lynxdns-core/internal/geodata/geodata.go:722-729 | the loop returns the number of bytes the canonical varint of the value takes |
| Wire.VarintRoundTrip | lynxdns-core/internal/geodata/geodata.go:717-720 | every 64-bit value is read back from its varint (Protocol Buffers encoding guide, "Base 128 Varints"), whatever bytes follow |
| Wire.MinimalSizeFits | lynxdns-core/internal/geodata/geodata.go:607-616 | moving the cursor by the minimal size of a decoded varint never leaves the data, for any bytes |
| Wire.FieldsRoundTrip | lynxdns-core/internal/geodata/geodata.go:607-660 | decoding the canonical encoding of any list of fields (wire type 0, 1, 2 or 5, tag not 0) gives exactly that list |
| Wire.RepeatedRoundTrip | lynxdns-core/internal/geodata/geodata.go:662-715 | the slicing decoder gives exactly the bytes fields of the asked number, and does not panic, whatever its spare capacity |
| Wire.DecodersAgree | lynxdns-core/internal/geodata/geodata.go:662-714 | on every byte string the slicing decoder returns the copying decoder's bytes fields of that number, and panics exactly when that one does or when it has no spare capacity and the data ends right after a varint tag |
| Wire.CutOffVarint | lynxdns-core/internal/geodata/geodata.go:676-680 | the counterexample behind that condition: the single byte 08 |
| WirePadding.CursorMoves | lynxdns-core/internal/geodata/geodata.go:717-729 | the minimal size of a decoded varint equals the bytes read if and only if the varint is one byte or its last byte is not zero, and is smaller otherwise |
| WirePadding.PassIsStandard | lynxdns-core/internal/geodata/geodata.go:607-659 | over a field of the wire format one pass emits that field and moves past it if and only if its tag and its length or value are not padded with zeros; otherwise it stops short inside the field |
| WirePadding.MinimalMessages | lynxdns-core/internal/geodata/geodata.go:607-660 | on every message of the format (Protocol Buffers encoding guide, "Message Structure") the decoder goes field by field if and only if no varint is padded, and then returns exactly its fields |
| WirePadding.ReturnedFields | lynxdns-core/internal/geodata/geodata.go:607-660 | it returns exactly the fields of a message if and only if no varint is padded, or only varints of the last field are and its pass emits the right field all the same |
| WirePadding.PaddedButRight | lynxdns-core/internal/geodata/geodata.go:611-625 | such a message: 08 81 00 |
| WirePadding.PaddedValueEnds | lynxdns-core/internal/geodata/geodata.go:611-625 | a padded varint value ends decoding: its field is the last one returned, whatever follows |
| WirePadding.NonMinimalTag | lynxdns-core/internal/geodata/geodata.go:611-617 | the smallest case: the tag 8A 00 moves the cursor by one byte only, so its second byte is read as a length |
| Wire.ZeroTagEnds | lynxdns-core/internal/geodata/geodata.go:611-614 | a tag that is zero or cannot be read ends decoding without an error |
| Wire.UnreadableValue | lynxdns-core/internal/geodata/geodata.go:620-625 | a varint value that cannot be read is returned as 0 and moves the cursor by one byte |
| Wire.SkippedTag | lynxdns-core/internal/geodata/geodata.go:639-657 | unknown wire types, and fixed-size fields that are cut off, are skipped with their tag alone and decoding goes on |
| Wire.OverrunLength | lynxdns-core/internal/geodata/geodata.go:626-633 | a length past the end is skipped with its tag and what follows is read as fields, unless the end position leaves the 64-bit range, which panics |
| Wire.DecodeProtobufFields | lynxdns-core/internal/geodata/geodata.go:607-659 | the loop computes the field list of the specification in at most len(data) passes, `break` leaving only the switch, with 64-bit wrap-around of the end position |
| Wire.DecodeProtobufRepeated | lynxdns-core/internal/geodata/geodata.go:662-713 | the same for the slicing loop |
| SuffixIndex.MatchDomainInMap | lynxdns-core/internal/geodata/geodata.go:384-402 | a few set lookups, one per label, agree with the scan over all patterns |
| SuffixIndex.CoversMeaning | lynxdns-core/internal/geodata/geodata.go:389-399 | a dotted pattern means a domain and all its subdomains, any other pattern only itself |
| AdFilter.ParseAdFilterData | lynxdns-core/internal/geodata/geodata.go:731-750 | the loop over the lines collects exactly the patterns of every line |
| AdFilter.LineMeaning | lynxdns-core/internal/geodata/geodata.go:731-745 | over the characters of a trimmed line: # and ! lines block nothing, "&#124;&#124;d^" blocks d and its subdomains, any other line blocks itself (with a leading dot: its core and subdomains) if and only if it holds a dot and no space and does not begin with a slash |
| AdFilter.ListMeaning | lynxdns-core/internal/geodata/geodata.go:731-745 | looking a name up in the parsed set is asking each line, as LineMeaning says |
| AdFilter.CapitalLine | lynxdns-core/internal/geodata/geodata.go:234-261 | names are lowered and lines are not: a line that blocks some name at all blocks a lowered one if and only if it holds no capital letter |
| Geosite.ParseGeositeProtobuf | lynxdns-core/internal/geodata/geodata.go:438-497 | the nested loops build the specified index, or panic exactly when a decoder does |
| GeositeMeaning.GeositeEndToEnd | lynxdns-core/internal/geodata/geodata.go:438-496 | for every canonical list of sites loading does not panic, and a name matches requested categories exactly when a site of one of them holds a domain that hits the lowered name |
| GeositeMeaning.PatternMeaning | lynxdns-core/internal/geodata/geodata.go:480-493 | what the pattern kept for a typed value covers, said in terms of domain names |
| GeositeMeaning.PlainMeaning | lynxdns-core/internal/geodata/geodata.go:480-492 | for values without a leading dot and names without a colon: equality for types 0 and 3, the domain or a subdomain for type 2 |
| GeositeMeaning.CapitalsNeverMatch | lynxdns-core/internal/geodata/geodata.go:196-215 | values are not lowered when stored: a value can match some name if and only if it holds no capital letter |
| GeositeMeaning.CountryIsLoaded | lynxdns-core/internal/geodata/geodata.go:217-232 | after loading a canonical list a category is there and not empty exactly when some site of it can hit some name |
| GeositeMeaning.LastFieldCounts | lynxdns-core/internal/geodata/geodata.go:448-478 | of a country, type or value given twice the last one counts; domains add up |
| GeositeMeaning.TypesWrap | lynxdns-core/internal/geodata/geodata.go:472-493 | the type of a domain counts modulo 2^32, and types other than 0 to 3 hit nothing |
| GeoManager.Manager.MatchGeosite | lynxdns-core/internal/geodata/geodata.go:196-214 | some requested category covers the lowered name, and only while data is loaded |
| GeoManager.Manager.HasGeositeCategories | lynxdns-core/internal/geodata/geodata.go:217-232 | some requested category is loaded and not empty |
| GeoManager.Manager.MatchAdFilter | lynxdns-core/internal/geodata/geodata.go:234-261 | the ad filter's own loop over the labels agrees with the scan over its patterns |
| GeoManager.LoadAndMatchAds | lynxdns-core/internal/geodata/geodata.go:169-261 | loading a list and asking for a name asks each line of the list about the lowered name |
| GeoManager.LoadAndAskCategories | lynxdns-core/internal/geodata/geodata.go:93-232 | from the bytes of a canonical list to the answer of HasGeositeCategories: some (not every) asked category has a site that can hit a name |
| GeoManager.AskUnloaded | lynxdns-core/internal/geodata/geodata.go:196-261 | before anything is loaded every question is answered with no |
| GeositeText.IsProtobuf | lynxdns-core/internal/geodata/geodata.go:575-592 | the two loops decide: a newline among the first 8 bytes, or a control byte among the first 512 |
| GeositeText.CanonicalLooksBinary | lynxdns-core/internal/geodata/geodata.go:575-592 | a canonical list of sites is taken for binary unless it is empty |
| GeositeText.ParseGeositeText | lynxdns-core/internal/geodata/geodata.go:411-436 | the loop over the lines computes the specified index |
| GeositeText.LineTests | lynxdns-core/internal/geodata/geodata.go:411-436 | over the characters of a line: which lines open which category (the "@" cut off) and which give a pattern |
| GeositeText.ControlBytes | lynxdns-core/internal/geodata/geodata.go:582-590 | without an early newline, a byte below 32 other than tab, newline and carriage return among the first 512 decides, and nothing else |
| GeositeText.TextMeaning | lynxdns-core/internal/geodata/geodata.go:411-436 | a category of a text list holds exactly the patterns on the lines between one of its headers and the next header |
| GeositeText.TextEndToEnd | lynxdns-core/internal/geodata/geodata.go:196-436 | loading a text list and matching: a name matches requested categories exactly when a line under a header of one of them covers the lowered name |
| GeositeText.CapitalTextLine | lynxdns-core/internal/geodata/geodata.go:196-436 | neither headers nor patterns are lowered: a line can answer some question if and only if it is a pattern without a capital letter under a header without one |
| GeositeText.ShortFirstLine | lynxdns-core/internal/geodata/geodata.go:575-592 | a list without control bytes is read as text if and only if no newline is among its first 8 bytes |
| GeositeText.ShortListIsLost | lynxdns-core/internal/geodata/geodata.go:404-409 | a list for which that fails: as text it has one pattern, what is loaded is empty |
| GeositeText.CanonicalData | lynxdns-core/internal/geodata/geodata.go:404-496 | through the choice between the parsers, the meaning of GeositeEndToEnd holds for every canonical list, the empty one included |
| GeoManager.LoadAndMatchGeosite | lynxdns-core/internal/geodata/geodata.go:93-215 | from the bytes of a canonical list to the answer for a name, through loader, choice of parser and lookup |
| Lru.ExtractMinTtl | lynxdns-core/internal/cache/cache.go:255-271 | the loop computes the least TTL of the non-nil answers, 0 if there is none |
| Lru.MinTtlIsLeast | lynxdns-core/internal/cache/cache.go:255-271 | that TTL occurs in the message and no record has a smaller one |
| Cache.KeysAgree | lynxdns-core/internal/cache/cache.go:48-50 | two questions share a key exactly when their case-folded full names agree and they ask the same type, or two types that both have no name in the library's table |
| Cache.FqdnMeaning | lynxdns-core/internal/cache/cache.go:48-50 | a name with and without its final dot gives one full name, an escaped dot does not end it |
| Cache.EscapedDot | lynxdns-core/internal/cache/cache.go:48-50 | whether the dot is escaped, for any number of backslashes in front of it |
| Cache.DNSCache.Get | lynxdns-core/internal/cache/cache.go:52-89 | map and list stay in agreement, and the recency list, the answer and the counters change as specified (lazy, strict, miss) |
| Cache.DNSCache.Set | lynxdns-core/internal/cache/cache.go:91-125 | the same for insertion, refresh, eviction, and the ignored messages without answers or with TTL 0 |
| Cache.DNSCache.Delete | lynxdns-core/internal/cache/cache.go:144-152 | the key leaves map and list, nothing else changes |
| Cache.DNSCache.Clear | lynxdns-core/internal/cache/cache.go:154-163 | everything is empty, the old size is returned |
| Cache.DNSCache.EvictOne | lynxdns-core/internal/cache/cache.go:242-249 | exactly the least recent entry goes, from map and list |
| CacheRuns.RunSound | lynxdns-core/internal/cache/cache.go:110-125 | after every run keys are distinct and at most max(1, maxSize) entries are held |
| CacheRuns.Inclusion | lynxdns-core/internal/cache/cache.go:52-163 | a smaller cache fed the same operations holds a subsequence of the larger one's list with equal entries, and never answers where the larger one does not |
| CacheRetention.Retention | lynxdns-core/internal/cache/cache.go:110-124 | a key stays cached while fewer than max(1, maxSize) other keys are touched, unless it is deleted or expires or the cache is cleared |
| CacheRetention.RetentionExact | lynxdns-core/internal/cache/cache.go:84-124 | when others are only read and written, it is still cached if and only if fewer than max(1, maxSize) were touched |
| CacheRetention.EntriesAreLastSet | lynxdns-core/internal/cache/cache.go:101-125 | every entry is what the last effective Set of its key stored |
| CacheRetention.AnswersAreFresh | lynxdns-core/internal/cache/cache.go:65-88 | an answer is the last effective Set's message and, when not lazy, no older than its least answer TTL (section 3.2.1 of RFC 1035) |
| CacheRetention.AnsweredIffYoung | lynxdns-core/internal/cache/cache.go:52-89 | after every run, a cached key is answered with the last effective Set's message if and only if the cache is lazy or that Set is no older than the least TTL; exactly otherwise Get drops the key |
| CacheRetention.SetTakesEffect | lynxdns-core/internal/cache/cache.go:91-125 | a Set puts its key in front, answerable at once, if and only if the message has records and a least TTL above 0; otherwise nothing changes |
| CacheRetention.AnsweredIffRetainedAndYoung | lynxdns-core/internal/cache/cache.go:52-125 | after a Set, and while other keys are only read and written, Get answers what was set if and only if fewer than max(1, maxSize) others were touched and the message is lazy or young enough |
| CacheInterleaving.ReachableInv | lynxdns-core/internal/cache/cache.go:52-89 | with Get in separate locked parts, every reachable state maps each key to a linked element that carries it; list and map differ by at most the number of races, and the list exceeds the bound by at most that number |
| CacheInterleaving.AgreesIffNoRace | lynxdns-core/internal/cache/cache.go:76-81 | map and list agree in every state of a run if and only if no removal in it hits another element's entry |
| CacheInterleaving.WithoutRaces | lynxdns-core/internal/cache/cache.go:76-81 | a state behind no such removal agrees and keeps the size bound |
| CacheInterleaving.MapBoundExact | lynxdns-core/internal/cache/cache.go:119-124 | the map keeps its bound in every state of a run if and only if no step of it is a Set of a new key into a full map whose eviction picks an element no key maps to |
| CacheInterleaving.ListBoundExact | lynxdns-core/internal/cache/cache.go:119-124 | the list keeps its bound if and only if no step is a Set of a new key into a full list beside a map that is not full |
| CacheInterleaving.Race | lynxdns-core/internal/cache/cache.go:76-81 | how a race happens: two Gets give up on one expired element and the key is set again between their removals |
| CacheInterleaving.RaceBreaksBound | lynxdns-core/internal/cache/cache.go:52-124 | one run from the empty cache of size 1: after eight steps an element is linked that no key maps to, one key later the list holds two elements, two keys later the map two entries |
| Breaker.CircuitBreaker.AllowRequest | lynxdns-core/internal/upstream/breaker.go:68-99 | closed and half-open admit; open admits, and becomes half-open, exactly when the cooldown has passed |
| Breaker.CircuitBreaker.RecordSuccess | lynxdns-core/internal/upstream/breaker.go:102-118 | half-open closes and counts a recovery; the failure counter is reset in every state |
| Breaker.CircuitBreaker.RecordFailure | lynxdns-core/internal/upstream/breaker.go:121-148 | half-open trips again, closed trips at the fifth failure, open only counts |
| Breaker.TripSpacing | lynxdns-core/internal/upstream/breaker.go:121-148 | in every interleaving with a nondecreasing clock, trips i and j are at least (j - i) cooldowns apart |
| Breaker.NoAdmissionDuringCooldown | lynxdns-core/internal/upstream/breaker.go:68-99 | no AllowRequest that begins after a trip is admitted before the cooldown has passed |
| Breaker.StragglersChangeNothing | lynxdns-core/internal/upstream/breaker.go:130-140 | results recorded while open neither close the breaker nor restart the cooldown |
| Breaker.Accounting | lynxdns-core/internal/upstream/breaker.go:102-148 | trips = recoveries + half-open re-trips + (0 if closed else 1) after every run; while closed the counter is the trailing run of failures and below 5 |
| Breaker.OpensAtFifthFailure | lynxdns-core/internal/upstream/breaker.go:137-140 | a closed breaker opens exactly when the trailing run of failures reaches 5 |
| Breaker.HalfOpenAdmitsAll | lynxdns-core/internal/upstream/breaker.go:75-79 | half-open is not one probe: every request that looks is admitted |
| Breaker.ReopensAfterCooldown | lynxdns-core/internal/upstream/breaker.go:68-99 | after every run that ends open, a request under the lock is admitted if and only if ten seconds have passed since the last trip; then the breaker is half-open, before that it stays open |
| Breaker.ProbeDecides | lynxdns-core/internal/upstream/breaker.go:102-148 | half-open follows the next result: a success closes, resets and counts a recovery, a failure trips from its own time on |
| Breaker.Recovers | lynxdns-core/internal/upstream/breaker.go:68-118 | the whole recovery: cooldown over, one request admitted, its success closes the breaker and adds one recovery |
| LatencyWindow.Stats.RecordSuccess | lynxdns-core/internal/upstream/stats.go:55-77 | the ring goes on holding the last min(n, 1024) samples, clipped at 0, and the counters move |
| LatencyWindow.Stats.RecordFailure | lynxdns-core/internal/upstream/stats.go:81-92 | requests and failures grow, timeouts only for timeouts, samples stay |
| LatencyWindow.RingPush | lynxdns-core/internal/upstream/stats.go:69-75 | writing one slot and advancing the index slides the window by one sample |
| LatencyWindow.WindowMeaning | lynxdns-core/internal/upstream/stats.go:69-75 | the window is the last samples, 1024 at most |
| LatencyWindow.RingIsWindow | lynxdns-core/internal/upstream/stats.go:107-117 | the filled slots are, as a multiset, the last min(n, 1024) samples |
| LatencyWindow.SortedPositionIsOrderStatistic | lynxdns-core/internal/upstream/stats.go:129-145 | position rank - 1 after sorting is the rank-th smallest element, defined by counting |
| LatencyWindow.PercentileFromSorted | lynxdns-core/internal/upstream/stats.go:129-145 | sorts in place and returns the nearest-rank order statistic |
| LatencyWindow.Stats.Percentiles | lynxdns-core/internal/upstream/stats.go:95-125 | P95 and P99 are the nearest-rank order statistics of the window, and P95 <= P99 |
| LatencyWindow.AverageIsWindowMean | lynxdns-core/internal/upstream/stats.go:70-75 | latSum is never reduced: the average is the window mean if and only if every overwritten sample was 0 |
| Client.Upstream.RecordResult | lynxdns-core/internal/client/client.go:203-223 | successes, timeouts and other failures reach statistics and breaker; a breaker refusal counts nowhere |
| Client.Upstream.Query | lynxdns-core/internal/client/client.go:165-199 | one call: refused exactly when the breaker says so and then uncounted; otherwise counted once, as success or failure |
| ClientRuns.CountersAreExact | lynxdns-core/internal/client/client.go:165-223 | in every state of every interleaving of queries, each counter is the number of queries past it, the admissions of the breaker are the admitted queries, and the breaker is where its projected events take it |
| ClientRuns.Accounting | lynxdns-core/internal/client/client.go:165-223 | in every reachable state: admitted = requests + those not yet counted, requests = successes + failures + those between, successes = samples + those between, failures = timeouts + the others (so timeouts never exceed failures) |
| ClientRuns.AccountingAtRest | lynxdns-core/internal/client/client.go:165-223 | with nothing in flight requests = successes + failures = completed admitted queries, timeouts = those that timed out; refusals count nowhere |
| ClientRuns.UpstreamTripSpacing | lynxdns-core/internal/upstream/breaker.go:121-148 | the trips of one upstream are a cooldown apart however its queries overlap and however late their results are recorded |
| ClientRuns.AloneIsQuery | lynxdns-core/internal/client/client.go:165-199 | a query that nothing interferes with does in the machine what Upstream.Query promises |
| Client.SelectBest | lynxdns-core/internal/client/client.go:247-264 | the fastest answer, the first to arrive on a tie, or none exactly when nobody answered |
| Base64Url.DnsMsgToBase64Url | lynxdns-core/internal/client/client.go:441-469 | the loop's text decodes to the input, has ceil(4n/3) characters of the 64-letter alphabet (section 5 of RFC 4648) |
| Base64Url.RoundTrip | lynxdns-core/internal/client/client.go:441-469 | the reference decoder recovers every byte string |
| Base64Url.Canonical | lynxdns-core/internal/client/client.go:456-465 | every text that decodes is the encoding of what it decodes to |
| Rules.CompiledMeaning | lynxdns-core/internal/rules/rules.go:220-265 | a compiled rule with a lowercase name pattern matches exactly the names its pattern covers in the suffix index |
| Rules.KeywordRule | lynxdns-core/internal/rules/rules.go:220-276 | "keyword:k" always compiles and matches the names whose lowered form contains k |
| Rules.RegexRule | lynxdns-core/internal/rules/rules.go:224-273 | "regexp:p" compiles if and only if p does, and asks p about the lowered name |
| Rules.ExactRule | lynxdns-core/internal/rules/rules.go:246-258 | a pattern without a prefix matches the names equal to it up to case |
| Rules.SuffixRule | lynxdns-core/internal/rules/rules.go:237-264 | ".d" and "*.d" match d up to case, and the names whose lowered form ends in ".d" as it is written |
| Rules.OnlyEnabledRules | lynxdns-core/internal/rules/rules.go:202-205 | rules switched off, or without a setting, decide nothing |
| Rules.CapitalSuffix | lynxdns-core/internal/rules/rules.go:234-261 | a ".d" or "*.d" rule with a capital letter matches d and none of its subdomains |
| Rules.EngineAgreesWithIndex | lynxdns-core/internal/rules/rules.go:198-277 | scanning enabled rules and looking labels up over the same patterns find a match for the same names |
| Rules.FirstMatchIsFirst | lynxdns-core/internal/rules/rules.go:202-214 | the result is the first enabled matching rule in list order |
| Rules.AnswerAfterFailedUpdate | lynxdns-core/internal/rules/rules.go:98-120 | after a failed Update the rule matches what its old form stored, or the name cut out of the invalid text; for which names the old answer survives |
| Rules.MeaningAfterFailedUpdate | lynxdns-core/internal/rules/rules.go:98-120 | a failed Update leaves the meaning of a compiled rule alone if and only if it is a keyword or regular expression, or both literal names agree |
| Rules.ApexIsLost | lynxdns-core/internal/rules/rules.go:254-265 | after a failed Update a ".d" or "*.d" rule no longer matches d, nor an exact rule its name, if that name has no colon |
| Rules.FormatIdInjective | lynxdns-core/internal/rules/rules.go:77-77 | "rule_%03d" gives different identifiers for different numbers |
| Rules.FormatIdMeaning | lynxdns-core/internal/rules/rules.go:77-77 | "rule_", then the decimal number, filled up with zeros to three digits and no further |
| Rules.ReorderKeepsAll | lynxdns-core/internal/rules/rules.go:171-196 | for any list, identifiers repeated or not: Reorder keeps exactly the same rules if and only if no listed identifier belongs to two of them, and otherwise the list gets shorter |
| Rules.ReorderDrops | lynxdns-core/internal/rules/rules.go:175-186 | two rules under one identifier, which is listed: only the second is left |
| Rules.ReorderedIsPermutation | lynxdns-core/internal/rules/rules.go:171-196 | with distinct identifiers the result is a permutation with distinct identifiers |
| Rules.MentionsInOrder | lynxdns-core/internal/rules/rules.go:180-186 | the listed rules come in the order of their first mention |
| Rules.FilterInOrder | lynxdns-core/internal/rules/rules.go:188-192 | the rules not listed keep their relative order |
| Rules.ReorderedOrder | lynxdns-core/internal/rules/rules.go:171-196 | the order of any two rules after Reorder: listed ones first, by first mention, the others behind in their old order |
| RuleEngine.Engine.Add | lynxdns-core/internal/rules/rules.go:75-96 | one call: a rule that compiles is appended under a fresh identifier, one that does not changes nothing; identifiers stay distinct |
| RuleIds.DifferentIffNoClash | lynxdns-core/internal/rules/rules.go:75-140 | with overlapping Adds and Deletes the identifiers in the list differ in every state of a run if and only if no append finds a rule with the number it has read |
| RuleIds.ClashIsStale | lynxdns-core/internal/rules/rules.go:75-92 | such an append comes after another one since its read, so calls that do not overlap never clash |
| RuleIds.FirstStaleClashes | lynxdns-core/internal/rules/rules.go:75-92 | without Deletes the first append that comes after another one since its read does clash |
| RuleIds.OverlappingAdds | lynxdns-core/internal/rules/rules.go:77-140 | two calls that both read before either appends get one identifier, unless the first rule is deleted in between |
| RuleEngine.Engine.Update | lynxdns-core/internal/rules/rules.go:98-126 | one rule is edited in place and recompiled; on failure the edit stays beside the old compiled form |
| RuleEngine.Engine.Delete | lynxdns-core/internal/rules/rules.go:128-140 | exactly the rule with that identifier goes |
| RuleEngine.Engine.Reorder | lynxdns-core/internal/rules/rules.go:171-195 | the two loops over map and list compute the specified permutation |
| RuleEngine.Engine.Match | lynxdns-core/internal/rules/rules.go:198-218 | the first enabled rule that matches |
| Rules.Rule.DoCompile | lynxdns-core/internal/rules/rules.go:220-250 | the mode of the prefix is chosen and only its own field changes; an invalid expression changes nothing |
| Routing.IsLocalDomain | lynxdns-core/internal/resolver/resolver.go:802-820 | the two loops decide exactly: one label, or last label in the local list |
| Routing.LocalMeaning | lynxdns-core/internal/resolver/resolver.go:802-820 | a name is local if it has no dot or ends, in any case, in one of the ten listed domains |
| Routing.VerdictIgnoresCase | lynxdns-core/internal/resolver/resolver.go:210-328 | the verdict is the same for all spellings of a name |
| Routing.StrictIsLeakFree | lynxdns-core/internal/resolver/resolver.go:277-468 | with strict protection and both lists loaded, in Resolve and in Lookup, exactly which undecided names go to domestic servers, to remote servers, and nowhere |
| Routing.StandardIsLeakFree | lynxdns-core/internal/resolver/resolver.go:277-468 | the same for standard protection, where unlisted names only go to remote servers |
| Routing.LookupAgrees | lynxdns-core/internal/resolver/resolver.go:210-477 | the two cascades, written separately, decide alike except exactly when domestic lists come first and an undecided name is in lists of both kinds |
| Resolver.AskedDomain | lynxdns-core/internal/resolver/resolver.go:165-166 | the domain of a query is its name without one final dot |
| ResolverMeaning.QueryMeaning | lynxdns-core/internal/resolver/resolver.go:160-208 | a query for "d." or "d" looks under the key of d; a hit replies that message, otherwise everything it does (addresses asked, reply, entry stored, each counter) is the effect of the verdict on d |
| ResolverMeaning.RuleDecides | lynxdns-core/internal/resolver/resolver.go:215-250 | the first enabled matching rule blocks, redirects, or asks the remote or the domestic addresses, by its type |
| ResolverMeaning.AdListDecides | lynxdns-core/internal/resolver/resolver.go:252-263 | then the ad list blocks |
| ResolverMeaning.StrictEffects | lynxdns-core/internal/resolver/resolver.go:265-328 | under strict protection the domestic addresses are asked exactly about names on the domestic list and not on the remote one, the remote addresses exactly about names on the remote list, and unlisted names get a name error |
| ResolverMeaning.StandardEffects | lynxdns-core/internal/resolver/resolver.go:265-328 | under standard protection unlisted names are asked of the remote addresses |
| ResolverMeaning.UnprotectedEffects | lynxdns-core/internal/resolver/resolver.go:265-384 | for local names, missing lists and unknown modes, unlisted names go to the default addresses |
| ResolverMeaning.LooseEffects | lynxdns-core/internal/resolver/resolver.go:265-384 | without protection, or in loose mode, the domestic list is asked first |
| ResolverService.Service.Decide | lynxdns-core/internal/resolver/resolver.go:210-328 | the branches compute the verdict of the specification |
| ResolverService.Service.ForwardToGroup | lynxdns-core/internal/resolver/resolver.go:330-369 | only an answer is cached, under the question's key; a failure counts as timeout and failed |
| ResolverService.Service.Resolve | lynxdns-core/internal/resolver/resolver.go:160-208 | one query moves cache and counters as one step of the specification and replies accordingly |
| ResolverService.Service.ResolveMessage | lynxdns-core/internal/resolver/resolver.go:160-163 | a message without a question is refused and counted nowhere |
| ResolverService.Service.Lookup | lynxdns-core/internal/resolver/resolver.go:387-477 | Lookup's own branches compute its own verdict function, the one LookupAgrees and the leak theorems speak of |
| ResolverRuns.CountersAreExact | lynxdns-core/internal/resolver/resolver.go:160-369 | in every state of every interleaving of queries each counter is exactly the number of queries that have passed it with that outcome |
| ResolverRuns.BalancesInFlight | lynxdns-core/internal/resolver/resolver.go:160-369 | in every reachable state total = actions + queries counted but not yet acted on, total = success + failed + queries without a status yet, and likewise for timeouts, blocked, redirected and hits against their actions |
| ResolverRuns.BalancedAtRest | lynxdns-core/internal/resolver/resolver.go:160-369 | with no query in flight everything adds up, and the total is the number of queries |
| ResolverRuns.CellsAreARun | lynxdns-core/internal/cache/cache.go:52-125 | the cache cells of every run of overlapping queries are a run of CacheInterleaving, so its theorems hold there |
| ResolverAlone.NoRaceIsWhole | lynxdns-core/internal/cache/cache.go:52-125 | as long as that run has no race, map, list and entries fit together as in the sequential cache |
| ResolverAlone.AloneIsStep | lynxdns-core/internal/resolver/resolver.go:160-208 | from every such state a query that nothing interferes with does in the machine what the sequential step, and so Service.Resolve, does |
| Resolver.SameKeySameVerdict | lynxdns-core/internal/resolver/resolver.go:160-174 | queries have one cache key exactly when name (case aside) and named type agree, and then they have one verdict |
| ResolverRuns.EntriesWereFetched | lynxdns-core/internal/resolver/resolver.go:330-352 | in every state of every interleaving, with Get in its three parts, each entry an element holds was fetched by a query past its exchange, from the servers the cascade picks for it |
| ResolverRuns.CacheRespectsRouting | lynxdns-core/internal/resolver/resolver.go:245-352 | in every interleaving the entry a question's key leads to is what the servers the cascade picks for that name answered to a query for the same name and, if it has a name, type; blocked, redirected and refused names are never cached in any spelling |
| ResolverRuns.CacheHitsRespectRouting | lynxdns-core/internal/resolver/resolver.go:174-194 | every query the cache answers, in every interleaving of the parts of Get and of Sets, gets what the servers the cascade picks for its own name have answered |
| Counters.NoIncrementLost | lynxdns-core/internal/resolver/resolver.go:828-839 | in every interleaving the stored value is the initial one plus the number of finished increments |
| Counters.FailedSwapMeansProgress | lynxdns-core/internal/resolver/resolver.go:834-837 | a failed swap means another increment has finished meanwhile |
| CivilTime.Timestamp | luci-app-lynxdns/luasrc/controller/lynxdns.lua:461-485 | the year and month loops compute the "Seconds Since the Epoch" formula (section 4.16 of IEEE Std 1003.1-2017) from 1970 on |
| CivilTime.BeforeEpochDiffers | luci-app-lynxdns/luasrc/controller/lynxdns.lua:462-469 | before 1970 the result never equals that formula |
| CivilTime.TimestampsOrdered | luci-app-lynxdns/luasrc/controller/lynxdns.lua:453-485 | valid dates from 1970 on compare exactly as their timestamps do |

## Left out

- Network, TLS, HTTP, the DNS codec and the API, UI and shell plumbing: an exchange with a group of servers is an argument of a query.
- Configuration and file handling, downloads and hot reload: configuration, rules and geo data are fixed during the runs of the routing theorems.
- ResolverRuns.CountersAreExact: a query decides and makes its exchange in one step of that machine; the increments of the counter maps are taken apart in Counters. Deletes and Clears from outside are not among its moves.
- GeoIP: no modelled matcher reads its data.
- Entries, Stats and the list views of cache and rules: paging and copies for display.
- Log output, query history and subscribers: no bearing on routing, cache or counters.
- Case folding is that of ASCII, white space likewise; Unicode and invalid UTF-8 are not modelled.
- Cache.Fqdn: written after the documented behaviour of dns.Fqdn; miekg/dns is not part of this model.
- ResolverRuns.CacheRespectsRouting: asks that names do not end in an empty label, as names in DNS messages do, and that the library's type names are distinct, not empty and without a slash.
- Machine integers are those of a 64-bit build; the end positions of the decoders wrap around explicitly, counters and clock differences are unbounded.
- LatencyWindow.PercentileFromSorted: sort.Slice is replaced by its result, and the rank is computed on exact rationals instead of floating point; averages and hit rates are left as sums and counts.
- Regular expressions: whether an expression compiles and what it matches are unknown functions.
- RuleEngine.Engine.Add: one call is atomic there; RuleIds splits it, for rules that compile.
- CacheInterleaving.ReachableInv: Clear is not among the interleaved steps, because it leaves unlinked elements that still believe they are in the list; that an entry has expired is left open instead of following a clock.
- CivilTime.Timestamp: starts from the parsed fields; the pattern match on the log line is not modelled.
- Client: RemoveUpstream, address parsing and the goroutines of QueryGroup; the replies of a group are taken in their order of arrival.
