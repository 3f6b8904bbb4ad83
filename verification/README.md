# Chromulate, modelled and proved in Dafny

Chromulate is an HTTP client whose difficult logic lives in small stateful stores and control laws:
a cookie jar, an adaptive concurrency limiter, an HTTP cache, a single-flight DNS cache, a guarded
chain of decoders, and the code that lays out and fingerprints a TLS hello.  This project models that
logic and proves what it is for.  `dafny verify dfyconfig.toml` checks all of it.

## How the model is laid out

- `AdaptiveLaw`, `AdaptiveRuns`, `AdaptivePromises`, `SlotProtocol`, `SlotPromises`, `OriginStore`: one origin's
  control law, every history of it, every interleaving of callers taking, waiting for and returning slots, and
  the bounded map of origins.
- `Cookies`, `CookieReading`, `CookieDates`, `JarModel`, `JarBuckets`, `JarTotals`, `JarRuns`, `JarSafety`,
  `JarPromises`, `JarRoundTrip`: the cookie parser and the jar on values, every run through both doors, and the
  snapshot.  `Bucket`, `SiteStore` and `Jar` are the mutable structures, proved against those values.
- `Dates`, `HttpDates`, `DateSpellings`: civil-date arithmetic and the two date parsers.
- `Headers`, `CacheEntries`, `CachePolicy`, `CacheReading`, `CacheStore`, `CacheStoreRuns`, `MemoryStore`: entries,
  the storing and freshness rules of RFC 9111, and the sharded store against an ideal one that never forgets.
  `CacheStreams`, `HttpCaching`, `HttpCacheRuns`, `CachePromises`, `HttpCacheService`, `HttpCacheHistories`, `HttpCacheExhibits`,
  `HttpCacheOverStore`, `HttpCache`: the cache itself, every interleaving of exchanges over it, what it gives back
  for what it was given, where what it holds came from, and the same over the bounded store.
- `DnsCache`, `DnsRuns`, `DnsPromises`: the resolver cache and every interleaving of its callers.
- `ContentCodings`, `DecoderChain`: reading `Content-Encoding`, and the chain it builds.
- `ExtensionOrders`, `Ja3`: extension orders and the JA3 string.
- `Options`, `Arithmetic`, `Sets`, `Folds`, `Lowest`, `Text`, `Octets`: shared vocabulary.

Code that changes things in place is modelled by classes and loops whose contracts tie the new state to
a function of the old one; what the code promises over whole runs is then proved of that function.  The
modules named `Promises` and `Reading` say it once more without that function: in terms of the messages,
the clocks and the entries alone.
A section under a lock is one atomic step.  What the program takes from outside is a parameter: clock
readings, random permutations and draws, the public suffix list, hashing, URL resolution, the codecs,
the size estimate of a cache entry, and scaling a duration by a floating-point factor.

## Results that differ from the obvious statement

- A cached entry can carry a false `Content-Length`: only the first line is compared with the body.
  `HttpCacheExhibits.FalseLengthIsStored` is a run that stores one.  In every run the lines are all true
  exactly when they agree with each other (`HttpCacheRuns.StoredLengthIsTrueIff`).
- A stored entry can have a field that its 304's own `Connection` line names
  (`HttpCacheExhibits.NamedFieldIsStored`).  In every run a stored entry has exactly the fields its fetch
  left and those a 304 carried (`HttpCacheHistories.StoredFieldIff`); the fixed hop-by-hop names never get in.
- An invalidated target can be filled again by an exchange that was under way
  (`HttpCacheExhibits.InvalidatedIsRefilled`).  It stays empty exactly as long as nothing writes under it
  (`HttpCacheHistories.StaysEmptyIff`), and with no exchange under way until it is asked for again
  (`HttpCacheHistories.EmptiedStaysEmpty`).
- A late 304 can put an older body back over a newer one (`HttpCacheExhibits.OlderBodyComesBack`): exactly
  when a variant with that selector, written while its request was out, is still held
  (`HttpCacheHistories.RefreshReplacesIff`).
- A record just put into the cache store can be purged by its own put (`CacheStoreRuns.JustPutCanBePurged`).
  `CacheStore.JustPutSurvivesIff` says exactly when it is there afterwards.
- The decoding ratio is not checked before a wire byte was read.  A decoder that produced before it read
  would escape it (`DecoderChain.OutputBeforeInput`); the four decoders built here are taken not to, and
  then the ratio holds without exception (`DecoderChain.RatioHoldsThroughout`).
- A hold or recovery interval too long for any instant to represent ends where it began: the hold holds off
  nothing (`AdaptiveRuns.CutHoldsIff`, `AdaptiveRuns.HoldCanVanish`) and recovery is due at once
  (`AdaptiveRuns.RecoveryIsDueIff`, `AdaptiveRuns.RecoveryCanBeImmediate`).  The source's comment on its
  deadline says no input reaches this; its clamps leave the hold and the interval out.
- The pinned order of extensions is a permutation of the set only when the pins are in it
  (`ExtensionOrders.OrderIsAPermutation`), though it is a valid order either way.
- The cookie parser reads the year `0094` as 1994, where the cache's parser refuses it
  (`DateSpellings.FourDigitYearsAreExact`).

## Model

| member | source | states |
|---|---|---|
| `AdaptiveLaw.Config.Sanitised` | crates/chromulate-concurrency/src/adaptive.rs:237-260 | every configuration comes out usable, min, max and probe are never lowered, an unusable degradation factor becomes 2, and a usable configuration is untouched |
| `AdaptiveLaw.OriginState.constructor` | crates/chromulate-concurrency/src/adaptive.rs:427-444 | a new origin starts at the floor with nothing learned |
| `AdaptiveLaw.OriginState.Abandon` | crates/chromulate-concurrency/src/adaptive.rs:456-460 | the probe in progress and the run of clean probes are thrown away, and nothing else |
| `AdaptiveLaw.OriginState.LimitMoved` | crates/chromulate-concurrency/src/adaptive.rs:467-470 | a change of limit throws the probe, the run of clean probes and the saturation away |
| `AdaptiveLaw.OriginState.Relax` | crates/chromulate-concurrency/src/adaptive.rs:927-945 | the ceiling recovers exactly as the value-level law says, an interval no instant can represent included |
| `AdaptiveLaw.OriginState.RecordHealthy` | crates/chromulate-concurrency/src/adaptive.rs:819-907 | a healthy report moves the whole state as the value-level law says, a hold no instant can represent included |
| `AdaptiveLaw.OriginState.CreditProbe` | crates/chromulate-concurrency/src/adaptive.rs:865-907 | the tail of a clean probe: the hold, the run of clean probes and the remaining conditions, as the law says |
| `AdaptiveLaw.OriginState.Refuse` | crates/chromulate-concurrency/src/adaptive.rs:954-993 | a 429 or 503 lowers the ceiling to half the limit and the limit to the ceiling, throws away what was learned, and pauses, as the law says; a pause or hold no instant can represent ends at once |
| `AdaptiveLaw.OriginState.Apply` | crates/chromulate-concurrency/src/adaptive.rs:798-816 | each signal is dispatched to its own part of the law; a 403 freezes |
| `AdaptiveLaw.OriginState.Release` | crates/chromulate-concurrency/src/adaptive.rs:750-766 | one slot comes back and the signal is applied |
| `AdaptiveLaw.OriginState.TryTakeSlot` | crates/chromulate-concurrency/src/adaptive.rs:545-556 | a slot is taken exactly when fewer than the limit are out, one more is then out, and the entry is marked saturated exactly if it was or a caller that had waited got the slot |
| `AdaptiveRuns.LimitsHold` | crates/chromulate-concurrency/src/adaptive.rs:798-993 | in every history, min <= limit <= ceiling <= max and slots out never exceed max |
| `AdaptiveRuns.IncreaseIffRule` | crates/chromulate-concurrency/src/adaptive.rs:1080-1118 | the limit rises exactly under the documented conditions together, and then by one |
| `AdaptiveRuns.DecreaseIffRule` | crates/chromulate-concurrency/src/adaptive.rs:1080-1118 | the limit falls exactly on a slow probe or a 429/503, to half or the floor |
| `AdaptiveRuns.CeilingRatchet` | crates/chromulate-concurrency/src/adaptive.rs:954-993 | with recovery off, k refusals leave the ceiling at most max / 2^k, or the floor |
| `AdaptiveRuns.CeilingNeverRises` | crates/chromulate-concurrency/src/adaptive.rs:927-945 | with recovery off the ceiling never rises between any two points of a history |
| `AdaptiveRuns.RecoveryIsOneSlot` | crates/chromulate-concurrency/src/adaptive.rs:927-945 | recovery gives back at most one slot a step, only below max, only on a clean probe, and only when it is due |
| `AdaptiveRuns.RecoveryIsDueIff` | crates/chromulate-concurrency/src/adaptive.rs:927-945 | recovery is due exactly when its interval has passed, or when no instant can represent its end: then at once |
| `AdaptiveRuns.CutHoldsIff` | crates/chromulate-concurrency/src/adaptive.rs:781-862 | a cut holds the limit down until the asked-for time exactly when some instant can represent that time, and otherwise not at all |
| `AdaptiveRuns.HeldLimitStaysDown` | crates/chromulate-concurrency/src/adaptive.rs:865-907 | while a hold stands no report raises the limit |
| `AdaptiveRuns.RecoveryCanBeImmediate` | crates/chromulate-concurrency/src/adaptive.rs:927-945 | with an interval past the last instant, a history whose ceiling recovers at the instant of the refusal |
| `AdaptiveRuns.HoldCanVanish` | crates/chromulate-concurrency/src/adaptive.rs:854-862 | with a hold past the last instant, a history whose limit rises again at the instant of the cut |
| `AdaptiveRuns.FrozenAfterRefusal` | crates/chromulate-concurrency/src/adaptive.rs:798-816 | after a 403 the limit never rises again, in any continuation |
| `AdaptiveRuns.EvidenceCleared` | crates/chromulate-concurrency/src/adaptive.rs:456-470 | a change of limit, or any report that is not healthy, clears all evidence |
| `AdaptiveRuns.SpentIsEarned` | crates/chromulate-concurrency/src/adaptive.rs:819-907 | all the evidence a history spent on slots it received as healthy reports |
| `AdaptiveRuns.LimitIsBought` | crates/chromulate-concurrency/src/adaptive.rs:819-907 | after n healthy reports the limit is at most min + n / (clean_probes * probe) |
| `AdaptiveRuns.EvidenceIsConsecutive` | crates/chromulate-concurrency/src/adaptive.rs:819-907 | the evidence in hand was gathered by one unbroken stretch of healthy reports ending now |
| `AdaptiveRuns.IncreaseNeedsEvidence` | crates/chromulate-concurrency/src/adaptive.rs:819-907 | each increase is paid for by clean_probes * probe healthy reports, unbroken, and shared with no other increase |
| `AdaptiveRuns.BaselinePaidSince` | crates/chromulate-concurrency/src/adaptive.rs:819-907 | from any point where nothing is learned, the baseline costs one whole probe first |
| `AdaptiveRuns.FirstIncreaseNeedsABaseline` | crates/chromulate-concurrency/src/adaptive.rs:819-993 | the first increase, and the first after any 429/503, needs (clean_probes + 1) * probe healthy reports |
| `AdaptivePromises.StepSaturates` | crates/chromulate-concurrency/src/adaptive.rs:467-556 | only a waiting caller that gets a slot marks the entry saturated, and no step that leaves it marked changes the limit |
| `AdaptivePromises.IncreaseNeedsAQueue` | crates/chromulate-concurrency/src/adaptive.rs:545-907 | in every history, whenever the limit rises some caller had waited for a slot and got it since the limit last moved |
| `AdaptivePromises.FirstProbeIsTheBaseline` | crates/chromulate-concurrency/src/adaptive.rs:819-845 | the first probe an entry completes sets the baseline to the mean of its reports and decides nothing |
| `AdaptivePromises.ProbeIsJudged` | crates/chromulate-concurrency/src/adaptive.rs:819-907 | a probe whose mean exceeds both the baseline times the degradation factor and the baseline plus 5 ms halves the limit, any other never lowers it, and the baseline becomes the mean, rising by at most a twentieth |
| `AdaptivePromises.CleanProbeCounts` | crates/chromulate-concurrency/src/adaptive.rs:865-907 | a probe that is not slow adds one to the clean run or buys a slot, unless a hold stands: then it earns nothing and costs nothing |
| `AdaptivePromises.OtherReportsAbandon` | crates/chromulate-concurrency/src/adaptive.rs:798-816 | a neutral, failed or 403 report throws the probe and the clean run away, a 403 refuses besides, and everything else stays |
| `AdaptivePromises.RefusalsAreCounted` | crates/chromulate-concurrency/src/adaptive.rs:954-993 | in every history the entry counts exactly the refusals so far, up to its largest count |
| `AdaptivePromises.RefusalPauses` | crates/chromulate-concurrency/src/adaptive.rs:781-993 | in every history a 429 or 503 sets the entry to resume after the Retry-After it names, up to the longest allowed, or after the cooldown doubled once per earlier refusal; a pause no instant can represent ends at once |
| `AdaptivePromises.PauseStands` | crates/chromulate-concurrency/src/adaptive.rs:954-993 | nothing but another refusal moves the instant of resuming or forgets the Retry-After it named |
| `SlotProtocol.EntryFollowsTheLaw` | crates/chromulate-concurrency/src/adaptive.rs:750-766 | every atomic step of the protocol leaves the entry alone or moves it by exactly one event of the law, and which event is said; either way it stays within its limits |
| `SlotProtocol.EveryInterleavingKeepsInv` | crates/chromulate-concurrency/src/adaptive.rs:521-556 | in every interleaving, slots out equal permits outstanding and stay within max, and a parked caller not yet woken implies no free slot or a release still owing its wake-up |
| `SlotProtocol.SleepersHaveARescuer` | crates/chromulate-concurrency/src/adaptive.rs:521-766 | whenever a caller sleeps unwoken, some other task holds a permit it will return or is about to wake everybody |
| `SlotProtocol.AWakeUpReachesEveryone` | crates/chromulate-concurrency/src/adaptive.rs:750-766 | when a release sends its wake-up nobody parked is left asleep, and a caller about to park either gets a slot or is woken at once |
| `SlotProtocol.EntryIsAHistory` | crates/chromulate-concurrency/src/adaptive.rs:521-766 | every reachable entry is the end of a history of the law, so all its theorems apply |
| `SlotPromises.WaiterWasTurnedAway` | crates/chromulate-concurrency/src/adaptive.rs:521-543 | in every interleaving, whoever goes round the waiting loop had found no slot free on its first look |
| `SlotPromises.RiseNeedsAWaiter` | crates/chromulate-concurrency/src/adaptive.rs:521-907 | in every interleaving, when the limit rises some caller had found no slot on its first look and has since been given one, and the limit has not moved since |
| `OriginStores.PurgeTarget` | crates/chromulate-concurrency/src/adaptive.rs:268-274 | the purge target is at least one and never above the capacity |
| `OriginStores.RankIsTotal` | crates/chromulate-concurrency/src/adaptive.rs:1027-1031 | the eviction ranking never ties |
| `OriginStores.EvictionSparesWhatIsInUse` | crates/chromulate-concurrency/src/adaptive.rs:1039-1065 | the entry just asked for, a locked one and one with a request in flight survive every purge unchanged |
| `OriginStores.PurgeTargetIs` | crates/chromulate-concurrency/src/adaptive.rs:268-274 | the target is the capacity less a sixteenth of it, at least one entry less, and never below one |
| `OriginStores.EvictionIsExact` | crates/chromulate-concurrency/src/adaptive.rs:1033-1043 | a purge reaches exactly the capacity less a sixteenth, or stops at what was asked for, is locked or has a request in flight if that is more |
| `OriginStores.LessonsOutliveTheRest` | crates/chromulate-concurrency/src/adaptive.rs:1027-1031 | an idle entry that has learned a ceiling or a refusal outlives every idle one that has not, and recency decides the rest |
| `OriginStores.OriginStore.constructor` | crates/chromulate-concurrency/src/adaptive.rs:1017-1020 | a new store is empty |
| `OriginStores.OriginStore.ChooseVictims` | crates/chromulate-concurrency/src/adaptive.rs:1045-1071 | one pass through the bounded heap chooses exactly the lowest-ranked idle entries |
| `OriginStores.OriginStore.Evict` | crates/chromulate-concurrency/src/adaptive.rs:1039-1077 | the map becomes what the specified purge makes of it |
| `OriginStores.OriginStore.StateFor` | crates/chromulate-concurrency/src/adaptive.rs:1303-1320 | finds and stamps the entry, or makes one and purges around it; the map then holds at most its capacity or, if that is more, what is in use and the new entry |
| `Cookies.ReadSegments` | crates/chromulate-cookie/src/cookie.rs:60-249 | the attribute loop computes the fold over the segments |
| `Cookies.ParseSetCookie` | crates/chromulate-cookie/src/cookie.rs:60-249 | the parser computes the specified cookie, or refuses exactly when the specification does |
| `Cookies.PairIsRepresentable` | crates/chromulate-cookie/src/jar.rs:842-853 | a parsed name and value can always go in a header |
| `Cookies.ParsedIsSound` | crates/chromulate-cookie/src/cookie.rs:60-249 | every cookie the parser yields is representable and keeps its name prefix's promise |
| `Cookies.DefaultPathIsRooted` | crates/chromulate-cookie/src/path.rs:8-17 | the default path always starts with a slash |
| `Cookies.ResolvedIsBounded` | crates/chromulate-cookie/src/cookie.rs:60-249 | a cookie that is let through is scoped by its request and its expiry lies within 400 days |
| `CookieReading.DefaultPathIsTheDirectory` | crates/chromulate-cookie/src/path.rs:8-17 | the default path is everything before the last slash of the request path, or the root |
| `CookieReading.PathIsGivenOrDefault` | crates/chromulate-cookie/src/cookie.rs:60-249 | the cookie path is the one given if it is rooted, and otherwise the default |
| `CookieReading.ExpiryIs` | crates/chromulate-cookie/src/cookie.rs:60-249 | Max-Age decides if present, a non-positive one by expiring at once, Expires otherwise, and neither reaches past 400 days |
| `CookieReading.DomainIsRead` | crates/chromulate-cookie/src/cookie.rs:60-249 | a Domain is read without its one leading dot and in lower case, and an empty one is none |
| `CookieReading.ResolvedIff` | crates/chromulate-cookie/src/cookie.rs:60-249 | exactly which attributes make a cookie, written out, and every field of the cookie they make |
| `CookieReading.BlanksDoNotMatter` | crates/chromulate-cookie/src/cookie.rs:60-249 | blanks around the name and the value of an attribute, and the case of its name, make no difference |
| `CookieReading.AttributeReadsBack` | crates/chromulate-cookie/src/cookie.rs:60-249 | each kind of attribute, spelled out, is read as itself |
| `CookieReading.FieldReadsBack` | crates/chromulate-cookie/src/cookie.rs:60-249 | a Set-Cookie field written from a name, a value and attributes in any order and number is read back as written, the last of each kind counting |
| `JarBucket.Bucket.Position` | crates/chromulate-cookie/src/jar.rs:156-161 | the hash lookup answers what a scan of the bucket would |
| `JarBucket.Bucket.Push` | crates/chromulate-cookie/src/jar.rs:163-167 | appends the entry; the index stays the exact inverse of the list |
| `JarBucket.Bucket.Replace` | crates/chromulate-cookie/src/jar.rs:171-178 | replaces in place an entry of the same identity; the index stays exact |
| `JarBucket.Bucket.Remove` | crates/chromulate-cookie/src/jar.rs:182-189 | removes by moving the last entry into the gap, and repairs the index for it |
| `JarBucket.Bucket.Reindex` | crates/chromulate-cookie/src/jar.rs:244-249 | rebuilds the index as the exact inverse of the list |
| `JarBucket.Bucket.RemoveAll` | crates/chromulate-cookie/src/jar.rs:223-241 | keeps exactly the entries outside the given positions, in order |
| `JarBucket.Bucket.RemoveExpired` | crates/chromulate-cookie/src/jar.rs:192-199 | keeps exactly the unexpired entries, in order |
| `JarBucket.Bucket.SelectOldest` | crates/chromulate-cookie/src/jar.rs:206-220 | picks exactly as many positions as asked, none more recently accessed than one left |
| `JarBucket.Bucket.TrimTo` | crates/chromulate-cookie/src/jar.rs:206-220 | trims to the given size by dropping the least recently accessed |
| `JarBucket.Bucket.HoldDown` | crates/chromulate-cookie/src/jar.rs:744-747 | past the cap, expired entries go first and the rest is trimmed |
| `JarBucket.Bucket.Supersede` | crates/chromulate-cookie/src/jar.rs:563-573 | the imported entry stands in place of whatever had its identity |
| `JarBucket.Bucket.Stamp` | crates/chromulate-cookie/src/jar.rs:653-656 | every entry the request may see, and no other, gets the access number |
| `JarBuckets.KeptEntries` | crates/chromulate-cookie/src/jar.rs:223-241 | what stays is exactly what was not doomed |
| `JarBuckets.TrimKeepsTheRecent` | crates/chromulate-cookie/src/jar.rs:206-220 | for every entry that stays after a trim and every one that goes, the one that goes was not used later |
| `JarBuckets.HeldDownKeepsTheNewest` | crates/chromulate-cookie/src/jar.rs:206-220 | a live entry used after every other survives being held down to at least one entry |
| `Lowest.Offer` | crates/chromulate-cookie/src/jar.rs:313-344 | the bounded heap holds the k lowest of everything seen |
| `Lowest.LowestIsUnique` | crates/chromulate-cookie/src/jar.rs:313-344 | which k are lowest does not depend on the order they were seen in |
| `Lowest.SortAndDrop` | crates/chromulate-cookie/src/jar.rs:313-344 | one pass through the bounded heap selects what sorting everything and taking the front would |
| `JarTotals.EvictionOrderIsTotal` | crates/chromulate-cookie/src/jar.rs:351-356 | the eviction ranking never ties |
| `JarTotals.PurgeIsExact` | crates/chromulate-cookie/src/jar.rs:313-344 | an overflowing jar is purged to exactly a tenth below its cap, and a jar within its cap keeps its size |
| `JarTotals.PurgeIsSortAndDrop` | crates/chromulate-cookie/src/jar.rs:313-356 | the purge drops the front of any ranked listing: expired before live, and no live victim was used after a survivor |
| `JarTotals.PurgeKeepsTheNewest` | crates/chromulate-cookie/src/jar.rs:313-356 | a live entry used after every other survives any purge that leaves something |
| `JarSites.SiteStore.constructor` | crates/chromulate-cookie/src/jar.rs:258-262 | a new store is empty |
| `JarSites.SiteStore.TakeOut` | crates/chromulate-cookie/src/jar.rs:269-279 | hands out the site's bucket, or an empty one |
| `JarSites.SiteStore.PutBack` | crates/chromulate-cookie/src/jar.rs:269-279 | the changed bucket is in place, the running total is right, and an empty bucket is dropped |
| `JarSites.SiteStore.ChooseVictims` | crates/chromulate-cookie/src/jar.rs:313-344 | one pass chooses exactly the k lowest-ranked entries of the whole jar |
| `JarSites.SiteStore.EvictVictims` | crates/chromulate-cookie/src/jar.rs:313-344 | exactly the chosen entries leave, and the total and every index stay exact |
| `JarSites.SiteStore.EnforceTotal` | crates/chromulate-cookie/src/jar.rs:313-344 | the jar ends as the specified purge would leave it |
| `JarSites.SiteStore.Recount` | crates/chromulate-cookie/src/jar.rs:296-299 | the total is the sum of the buckets' lengths |
| `JarSites.SiteStore.TidyEverySite` | crates/chromulate-cookie/src/jar.rs:286-294 | every bucket loses its expired entries and its overflow, and empty buckets go |
| `CookieJar.Jar.constructor` | crates/chromulate-cookie/src/jar.rs:432-440 | a new jar is empty |
| `CookieJar.Jar.Apply` | crates/chromulate-cookie/src/jar.rs:782-831 | one parsed cookie leaves exactly the entries it should: a Secure entry met over plaintext stays, a deletion removes the cookie, anything else replaces it or adds it, keeping the creation number of what it replaces |
| `CookieJar.Jar.ApplyAtSite` | crates/chromulate-cookie/src/jar.rs:724-748 | the cookie is applied to its own site's bucket, held down at twice its cap |
| `CookieJar.Jar.ApplyHeader` | crates/chromulate-cookie/src/jar.rs:704-749 | one header is parsed and applied, or refused without effect |
| `CookieJar.Jar.Tidy` | crates/chromulate-cookie/src/jar.rs:758-767 | a touched bucket past its cap is trimmed one purge batch below it |
| `CookieJar.Jar.ApplyHeaders` | crates/chromulate-cookie/src/jar.rs:704-749 | the headers are applied in order, and the touched sites are those that accepted one |
| `CookieJar.Jar.StoreCookies` | crates/chromulate-cookie/src/jar.rs:688-769 | the whole response is applied, the touched sites tidied and the total enforced |
| `CookieJar.Jar.Absorb` | crates/chromulate-cookie/src/jar.rs:508-574 | one record is refused, or takes the place of whatever has its identity |
| `CookieJar.Jar.Import` | crates/chromulate-cookie/src/jar.rs:504-578 | every admissible record is absorbed in order, then the jar is tidied and purged |
| `CookieJar.Jar.Export` | crates/chromulate-cookie/src/jar.rs:447-471 | the snapshot lists the sites in some order and under each its live cookies, in the bucket's own order |
| `CookieJar.Jar.CookiesFor` | crates/chromulate-cookie/src/jar.rs:614-686 | the header lists exactly the cookies the request may see, in sending order, and only what was sent is stamped |
| `CookieJar.CollectMatches` | crates/chromulate-cookie/src/jar.rs:625-634 | collects exactly the eligible entries of the bucket, in bucket order |
| `CookieJar.SortForSending` | crates/chromulate-cookie/src/jar.rs:641-647 | sorts by longer path, then by earlier creation |
| `JarRuns.StoreKeepsTheJar` | crates/chromulate-cookie/src/jar.rs:688-769 | storing any response keeps the jar coherent and within its caps |
| `JarRuns.ImportKeepsTheJar` | crates/chromulate-cookie/src/jar.rs:504-578 | importing any snapshot, however malformed, keeps the jar coherent and within its caps |
| `JarRuns.LookupKeepsTheJar` | crates/chromulate-cookie/src/jar.rs:614-686 | a lookup keeps the jar coherent and within its caps |
| `JarRuns.EveryRunKeepsTheJar` | crates/chromulate-cookie/src/jar.rs:504-769 | after every operation of every run, no identity repeats, every entry is under its own site, no bucket is empty or over its cap, and the total is within the cap; without imports no two cookies of a bucket share a creation number |
| `JarRuns.IdentitiesAreUnique` | crates/chromulate-cookie/src/jar.rs:108-115 | no identity occurs twice anywhere in a coherent jar |
| `JarSafety.HeaderIsExact` | crates/chromulate-cookie/src/jar.rs:614-686 | the header is every eligible cookie of the host's bucket, once each, in sending order, ties as they stand in the bucket; the fallback for unrepresentable text is never taken |
| `JarSafety.PrefixedCookiesStayHome` | crates/chromulate-cookie/src/cookie.rs:310-323 | in every run a __Secure- or __Host- cookie is sent only to a secure request, and a __Host- one only to its own host |
| `JarSafety.FreshCookieSurvives` | crates/chromulate-cookie/src/jar.rs:688-769 | with room for one cookie, a live cookie stored by a one-header response outlives its own purges |
| `JarSafety.StoredWithoutPurging` | crates/chromulate-cookie/src/jar.rs:688-769 | while no cap overflows, which a caller can work out beforehand, a response is applied header by header and nothing at all is purged |
| `JarSafety.PlaintextCannotTouchSecure` | crates/chromulate-cookie/src/jar.rs:782-831 | while no cap overflows, a plaintext response leaves every Secure entry unchanged, a full bucket or jar included |
| `JarPromises.ApplyIsExact` | crates/chromulate-cookie/src/jar.rs:782-831 | membership after one parsed cookie, as an if-and-only-if for every entry |
| `JarPromises.StoredOneIsExact` | crates/chromulate-cookie/src/jar.rs:688-831 | the same for a whole one-header response and every bucket, while no cap overflows |
| `JarPromises.TidiedSize` | crates/chromulate-cookie/src/jar.rs:758-767 | a touched bucket past its cap sheds what has expired and is cut to a sixth below the cap |
| `JarPromises.DeletedIsGone` | crates/chromulate-cookie/src/jar.rs:688-831 | a cookie a response deletes is in no bucket afterwards, whatever else the response sets and whatever is trimmed or purged |
| `JarPromises.DeletedIsNotSent` | crates/chromulate-cookie/src/jar.rs:614-831 | in every run, from the response that deletes a cookie until one sets it or a snapshot brings it back, no lookup sends it |
| `JarPromises.AbsorbIsExact` | crates/chromulate-cookie/src/jar.rs:508-574 | membership after one snapshot record, as an if-and-only-if for every entry and every bucket |
| `JarPromises.OneSiteIff` | crates/chromulate-cookie/src/jar.rs:614-634 | two hosts share a bucket exactly when they are the same host, or neither is an address and both register one domain |
| `JarPromises.SentIff` | crates/chromulate-cookie/src/cookie.rs:253-291 | an entry of the host's bucket is sent exactly when it has not expired and its Secure, domain, path and SameSite rules, written out, allow the request |
| `JarPromises.LookupStampsWhatItSends` | crates/chromulate-cookie/src/jar.rs:649-656 | a lookup stamps exactly what it sends, all with one number, and changes nothing else |
| `JarPromises.HeaderReadsBack` | crates/chromulate-cookie/src/jar.rs:658-686 | a server that cuts the header at semicolons and each part at its first equals sign reads exactly the names and values sent, in order |
| `JarRoundTrip.SnapshotIsExact` | crates/chromulate-cookie/src/jar.rs:447-471 | a snapshot lists every live cookie exactly once and nothing else |
| `JarRoundTrip.ImportedIsTheLivePart` | crates/chromulate-cookie/src/jar.rs:447-578 | import into an empty jar rebuilds every bucket as a list: the exported one without its expired entries |
| `JarRoundTrip.SnapshotRoundTrip` | crates/chromulate-cookie/src/jar.rs:447-686 | for a jar built by any run, imports and equal creation numbers included, export then import into an empty jar gives the identical header for every request and context, then and later |
| `JarRoundTrip.SnapshotComesBack` | crates/chromulate-cookie/src/jar.rs:447-578 | the imported jar exports as the very snapshot it came from |
| `CivilDates.EpochIsDayZero` | crates/chromulate-cookie/src/date.rs:70-78 | 1970-01-01 is day zero |
| `CivilDates.MarchYearLength` | crates/chromulate-cookie/src/date.rs:70-78 | a March year has 366 days exactly when the February that ends it has 29 |
| `CivilDates.TomorrowIsOneDayLater` | crates/chromulate-cookie/src/date.rs:70-78 | each valid date's successor is exactly one day later, in every year, negative years included |
| `CivilDates.LaterDateIsLater` | crates/chromulate-cookie/src/date.rs:70-78 | a later date has a larger day number |
| `CivilDates.DaysIsInjective` | crates/chromulate-cookie/src/date.rs:70-78 | two valid dates share a day number only if they are the same date |
| `CookieDates.ParseCookieDate` | crates/chromulate-cookie/src/date.rs:104-163 | the token loop computes the specified date |
| `DateSpellings.ClockIsATime` | crates/chromulate-cookie/src/date.rs:45-63 | a clock is read as its own time, leap second included, by both parsers |
| `DateSpellings.TwoDigitYear` | crates/chromulate-cache/src/date.rs:79-95 | both parsers read two digits as the year of 1970 to 2069 that ends in them |
| `DateSpellings.FourDigitYearsAreExact` | crates/chromulate-cache/src/date.rs:98-151 | for every valid date-time a four-digit year can write, both parsers read the IMF-fixdate and asctime spellings as that instant from 1601 on and as nothing before, except that the cookie parser takes a year below 100 for a two-digit one |
| `DateSpellings.TwoDigitYearsAreExactIff` | crates/chromulate-cache/src/date.rs:79-151 | both parsers read the RFC 850 spelling into 1970 to 2069, and it names its own instant exactly for dates of those years |
| `DateSpellings.EverySpellingNamesTheInstant` | crates/chromulate-cookie/src/date.rs:104-163 | so for every valid date-time of 1970 to 2069 and any weekday, all three spellings are read as that instant by both parsers |
| `CacheEntries.SelectorOf` | crates/chromulate-cache/src/entry.rs:77-89 | a selector matches the request it was taken from and names exactly the given fields |
| `CacheEntries.MatchesIffEqualValues` | crates/chromulate-cache/src/entry.rs:77-105 | a request matches exactly when it gives every named field the recorded values, absence included |
| `CacheEntries.SelectorMatches` | crates/chromulate-cache/src/entry.rs:93-105 | the field-by-field comparison decides matching |
| `CacheEntries.DeltaSeconds` | crates/chromulate-cache/src/directive.rs:151-156 | digits alone are read, as their value up to 64 bits and as the largest 64-bit value beyond |
| `CacheEntries.StripHopByHop` | crates/chromulate-cache/src/entry.rs:376-395 | the loop removes the hop-by-hop fields and those Connection names, and nothing else |
| `CacheEntries.StrippedField` | crates/chromulate-cache/src/entry.rs:376-395 | stripping removes whole fields and changes none that stay |
| `CacheEntries.Refresh` | crates/chromulate-cache/src/entry.rs:282-314 | the loop over the 304's fields computes the merged entry |
| `CacheEntries.MergedField` | crates/chromulate-cache/src/entry.rs:282-304 | a merged field has the 304's values when it carries them and they speak of the stored response, and the stored ones otherwise |
| `CacheEntries.ReadVaryNames` | crates/chromulate-cache/src/entry.rs:327-352 | the nested loops collect, sort and deduplicate the names, or give up on * or an unreadable name |
| `CacheEntries.TidiedIsTheSameSet` | crates/chromulate-cache/src/entry.rs:349-351 | sorting and deduplicating loses no name, invents none, and leaves them in order |
| `CacheEntries.TidiedIsCanonical` | crates/chromulate-cache/src/cache.rs:535-543 | two Vary lists compare equal exactly when they name the same fields |
| `CacheReading.DirectiveIffListed` | crates/chromulate-cache/src/directive.rs:66-134 | each of the six bare directives holds exactly when some readable line lists it |
| `CacheReading.SecondsAreTheLast` | crates/chromulate-cache/src/directive.rs:66-157 | max-age and s-maxage are the last argument that can be read, quoted or not, the largest count standing for anything larger |
| `CacheReading.InsistsIff` | crates/chromulate-cache/src/directive.rs:83-101 | a request insists on the origin exactly by no-cache, or by Pragma where it has no Cache-Control |
| `CacheReading.VaryIsRead` | crates/chromulate-cache/src/entry.rs:327-355 | the fields a response is selected by are exactly those its Vary names, whenever it names only fields |
| `CacheReading.StrippedIff` | crates/chromulate-cache/src/entry.rs:360-395 | stripping removes exactly the nine fixed hop-by-hop fields and those some readable Connection line names |
| `CacheReading.TwoLinesAreOne` | crates/chromulate-cache/src/directive.rs:60-74 | two Cache-Control lines mean what their comma-joined value means |
| `CachePolicy.StaleStaysStale` | crates/chromulate-cache/src/policy.rs:267-341 | once stale, an entry is stale at every later moment |
| `CachePolicy.AgeCoversResidence` | crates/chromulate-cache/src/policy.rs:267-289 | an entry is never younger than its residence here or its Age field, up to the largest duration |
| `CachePolicy.GuessIsATenth` | crates/chromulate-cache/src/policy.rs:314-323 | a guessed lifetime is within the cap and a tenth of the time since the last change, and only for the statuses that allow it |
| `CachePolicy.AdmittedIff` | crates/chromulate-cache/src/policy.rs:186-258 | the rules tried in order admit exactly what all of them together allow |
| `CacheReading.LengthIff` | crates/chromulate-cache/src/cache.rs:552-561 | a Content-Length value declares a length exactly when it is visible text that, trimmed, is digits after at most one plus sign, within 64 bits |
| `CacheReading.LengthIsRead` | crates/chromulate-cache/src/cache.rs:552-561 | a declared length is read whatever blanks stand around it |
| `CachePolicy.LengthIsTrueIff` | crates/chromulate-cache/src/cache.rs:552-561 | every Content-Length line is true of the body exactly when the first is and the lines agree |
| `CachePolicy.SecondLengthIsUnchecked` | crates/chromulate-cache/src/cache.rs:552-561 | with lines 1 and 2 a one-byte body passes the length check |
| `CachePolicy.AdmittedIsKeepable` | crates/chromulate-cache/src/policy.rs:186-258 | an admitted response, stripped, with a body that fits and declares its length, satisfies the stored-entry policy |
| `CachePolicy.RefreshedIsKeepable` | crates/chromulate-cache/src/cache.rs:228-245 | a 304 merged into such an entry and admitted again still satisfies it |
| `CacheStore.MemoryLimits.PurgeTarget` | crates/chromulate-cache/src/storage.rs:139-143 | the purge target never exceeds the shard's cap |
| `CacheStore.MergedIsApart` | crates/chromulate-cache/src/storage.rs:85-96 | merging keeps the selectors pairwise distinct and keeps only the entry and what it does not supersede |
| `CacheStore.KeptIsTheLongestRecentRun` | crates/chromulate-cache/src/storage.rs:290-321 | a purge keeps a most-recently-used run that fits the target and contains every other one that fits |
| `CacheStore.PurgeLeavesSevenEighths` | crates/chromulate-cache/src/storage.rs:139-321 | an overflowing shard is left with at most seven eighths of its share, and with every most-recently-used run that fits that |
| `CacheStore.InsertedCounts` | crates/chromulate-cache/src/storage.rs:379-387 | the running byte count stays the sum of the records, whatever the key held before |
| `CacheStore.PutIsOk` | crates/chromulate-cache/src/storage.rs:354-391 | a put leaves the shard counted exactly and within its cap |
| `CacheStore.RemovedIsOk` | crates/chromulate-cache/src/storage.rs:393-399 | a removal leaves the shard counted exactly |
| `CacheStore.TouchedIsOk` | crates/chromulate-cache/src/storage.rs:342-352 | a lookup changes no count |
| `CacheStore.JustPutSurvivesIff` | crates/chromulate-cache/src/storage.rs:290-391 | a just-put record is still there exactly when it fits the shard and either the shard did not overflow or the record fits the purge target together with whatever was stamped after it |
| `CacheStore.RefusedPutDropsOnlyItsKey` | crates/chromulate-cache/src/storage.rs:360-377 | an oversize put drops the copy it supersedes and no other key |
| `CacheStoreRuns.MergeRefines` | crates/chromulate-cache/src/storage.rs:85-96 | merging into a part of a list gives a part of merging into the list |
| `CacheStoreRuns.EveryRunKeepsTheStore` | crates/chromulate-cache/src/storage.rs:204-399 | after any calls every shard is counted exactly, within its cap, holds only its own keys, and lies within the ideal store |
| `CacheStoreRuns.LookupRefinesTheIdeal` | crates/chromulate-cache/src/storage.rs:342-391 | after any calls a lookup returns a subsequence of what a store that never forgets would, with distinct selectors |
| `CacheStoreRuns.GoneStaysGone` | crates/chromulate-cache/src/storage.rs:354-399 | a superseded or removed entry never reappears unless that very entry is put again |
| `CacheStoreRuns.SupersededIsGone` | crates/chromulate-cache/src/storage.rs:85-96 | a removal, or a put with the same selector, takes an entry out of the ideal store |
| `CacheStoreRuns.PutOnlyForgets` | crates/chromulate-cache/src/storage.rs:354-391 | a put leaves each key merged, unchanged or empty, and nothing else |
| `CacheStoreRuns.EveryStampIsTrue` | crates/chromulate-cache/src/storage.rs:275-282 | every record held is stamped with the last lookup or store of its key |
| `CacheStoreRuns.EvictionIsLeastRecentlyUsed` | crates/chromulate-cache/src/storage.rs:290-321 | whatever a put pushes out was last used before everything of that shard that stays |
| `CacheStoreRuns.SecondPutPurgesItself` | crates/chromulate-cache/src/storage.rs:290-391 | of two puts into one shard, one too large for the purge target, the two too large for the shard, the second drops its own record |
| `CacheStoreRuns.JustPutCanBePurged` | crates/chromulate-cache/src/storage.rs:290-391 | a run of two puts, with the sizes written out, after which the second record is gone |
| `CacheStoreRuns.BudgetHolds` | crates/chromulate-cache/src/storage.rs:129-144 | the shards together hold at most max_bytes, for every budget and shard count |
| `CacheStoreRuns.EveryRunStaysInBudget` | crates/chromulate-cache/src/storage.rs:129-391 | that holds after any calls |
| `MemoryStores.FindCutoff` | crates/chromulate-cache/src/storage.rs:304-314 | the walk up the ages stops at the one stamp that separates what is kept from what goes |
| `MemoryStores.MemoryStore.constructor` | crates/chromulate-cache/src/storage.rs:237-247 | a new store is empty and has counted nothing |
| `MemoryStores.MemoryStore.NextTick` | crates/chromulate-cache/src/storage.rs:275-282 | each stamp is one more than the last |
| `MemoryStores.MemoryStore.Purge` | crates/chromulate-cache/src/storage.rs:290-321 | the shard is purged as specified, and evictions and scans are counted |
| `MemoryStores.MemoryStore.Get` | crates/chromulate-cache/src/storage.rs:342-352 | returns the variants held and stamps the record; contents are unchanged |
| `MemoryStores.MemoryStore.Put` | crates/chromulate-cache/src/storage.rs:354-391 | the store becomes what the specified put makes of it |
| `MemoryStores.MemoryStore.Remove` | crates/chromulate-cache/src/storage.rs:393-399 | everything under the key is dropped and nothing else |
| `CacheStreams.CommitIsExact` | crates/chromulate-cache/src/cache.rs:663-730 | for every frame sequence: one commit of the whole body when it ends cleanly, fits and declares its length, and otherwise none |
| `CacheStreams.AbandonedBodyIsNotStored` | crates/chromulate-cache/src/cache.rs:638-644 | a body whose end is never reached leaves nothing stored |
| `CacheStreams.Recording.constructor` | crates/chromulate-cache/src/cache.rs:300-317 | a recording starts with nothing buffered |
| `CacheStreams.Recording.PollNext` | crates/chromulate-cache/src/cache.rs:666-729 | one poll skips trailers, answers the next frame unchanged, and stores at most the entry that frame commits |
| `CacheStreams.StoredBodyComesOnce` | crates/chromulate-cache/src/cache.rs:615-636 | however often it is polled: nothing until the 304 is drained, then the stored body once, then the end |
| `CacheStreams.Draining.constructor` | crates/chromulate-cache/src/cache.rs:589-597 | a draining body holds the 304 and the stored bytes |
| `CacheStreams.Draining.PollNext` | crates/chromulate-cache/src/cache.rs:623-635 | one poll drains and answers as specified |
| `HttpCaching.FirstMatch` | crates/chromulate-cache/src/cache.rs:338-341 | the variant chosen is stored and matches; none chosen means none matches |
| `HttpCaching.PendingShape` | crates/chromulate-cache/src/cache.rs:128-187 | what is remembered is the request itself and at most the variant it matched |
| `HttpCaching.SentHeadersAreConditional` | crates/chromulate-cache/src/cache.rs:167-186 | the headers sent carry the remembered entry's validators and are otherwise the caller's |
| `HttpCaches.SelectVariant` | crates/chromulate-cache/src/cache.rs:328-342 | the loop finds the first matching variant |
| `HttpCaches.HttpCache.constructor` | crates/chromulate-cache/src/cache.rs:430-441 | a cache over a given store |
| `HttpCaches.HttpCache.Before` | crates/chromulate-cache/src/cache.rs:128-187 | the decision is the specified one; something is served exactly when the first matching variant is within its lifetime, lists no no-cache, and the request is plain and does not insist; a request set aside does not touch the store |
| `HttpCaches.HttpCache.After` | crates/chromulate-cache/src/cache.rs:196-320 | the verdict is the specified one, the store sees exactly its calls, and the right body wrapper is handed out |
| `HttpCacheRuns.RefreshIsSound` | crates/chromulate-cache/src/entry.rs:282-314 | a refreshed entry keeps the body and selector of the fetch behind it |
| `HttpCacheRuns.CommitIsSound` | crates/chromulate-cache/src/cache.rs:696-716 | a committed entry is backed by the body just read and satisfies the policy |
| `HttpCacheRuns.EveryRunIsSound` | crates/chromulate-cache/src/cache.rs:128-320 | at every moment of every interleaving, each stored entry is backed by one whole fetch of its own GET key and satisfies the stored-entry policy |
| `HttpCacheRuns.StoredLengthIsTrueIff` | crates/chromulate-cache/src/cache.rs:552-561 | in every run, all Content-Length lines of a stored entry are true of its body exactly when they agree |
| `HttpCacheRuns.HitIsSound` | crates/chromulate-cache/src/cache.rs:128-187 | each hit is byte for byte the whole body of an earlier fetch of the same GET key by a request agreeing on every field it varied on; and it is fresh |
| `HttpCacheRuns.RevalidatedIsSound` | crates/chromulate-cache/src/cache.rs:218-258 | each revalidated response is, too, for the request that was sent |
| `HttpCacheRuns.DroppingIsExact` | crates/chromulate-cache/src/cache.rs:350-354 | removals drop exactly the named keys |
| `HttpCacheRuns.TargetIsInvalidated` | crates/chromulate-cache/src/cache.rs:201-207 | a successful unsafe request empties its own target |
| `HttpCacheRuns.OtherOriginsAreKept` | crates/chromulate-cache/src/cache.rs:357-372 | no key of another origin is ever invalidated |
| `HttpCacheRuns.SupersededCopyIsDropped` | crates/chromulate-cache/src/cache.rs:272-284 | an answer that may not be kept drops the earlier copy when it says no-store or answers a revalidation |
| `HttpCacheRuns.UnkeepableRefreshIsDropped` | crates/chromulate-cache/src/cache.rs:247-258 | a 304 that merges into something that may not be kept is served and not kept |
| `CachePromises.StorableStatusIff` | crates/chromulate-cache/src/policy.rs:119-145 | the statuses that may be stored are those whose lifetime may be guessed and the two temporary redirects |
| `CachePromises.FreshIff` | crates/chromulate-cache/src/policy.rs:267-341 | an entry is fresh exactly when it lists no no-cache and both reckonings of its age are below max-age, else Expires less Date, else a tenth of the time since Last-Modified and the cap |
| `CachePromises.HitIff` | crates/chromulate-cache/src/cache.rs:128-187 | in every state, the first matching variant is given out exactly to a plain GET that does not insist, while the variant lists no no-cache and is within its lifetime |
| `CachePromises.HitIsWithinMaxAge` | crates/chromulate-cache/src/policy.rs:267-341 | in every run, a hit on a response whose max-age is n comes less than n seconds after it was received |
| `CachePromises.HitExactlyWithinMaxAge` | crates/chromulate-cache/src/policy.rs:267-341 | a response that arrived new is a hit exactly while fewer than max-age seconds have passed |
| `CachePromises.HitExactlyUntilExpiry` | crates/chromulate-cache/src/policy.rs:295-341 | without a max-age, it is a hit exactly while less time has passed than Expires lies after Date |
| `CachePromises.AskedAboutIff` | crates/chromulate-cache/src/cache.rs:155-187 | a variant that may not be given out is asked about exactly when it has an ETag or a Last-Modified |
| `CachePromises.HitGivesOut` | crates/chromulate-cache/src/cache.rs:572-620 | a hit carries the stored status, body and fields, and an Age of its age in whole seconds |
| `CachePromises.ReuseIff` | crates/chromulate-cache/src/cache.rs:218-258 | the stored body is used again exactly when a revalidation is answered by a 304 whose tag, weak or strong, is not another one and whose Vary names the same fields |
| `CachePromises.RevalidatedGivesOut` | crates/chromulate-cache/src/cache.rs:218-258 | the refreshed entry has the 304's fields over its own, apart from those about the connection and the length, and a clock started again; it is served with its age, and kept exactly when it may be stored |
| `CachePromises.RecordedIff` | crates/chromulate-cache/src/cache.rs:260-320 | any other answer is recorded exactly when it may be stored and is not declared too long |
| `CachePromises.RecordedAs` | crates/chromulate-cache/src/cache.rs:286-320 | what is recorded is the answer without its hop-by-hop fields, the selector its Vary makes of the request, and the two clock readings |
| `CachePromises.AsideEmpties` | crates/chromulate-cache/src/cache.rs:196-216 | a request the cache stands aside from empties exactly its target and the same-origin targets its answer names, if its method is unsafe and its status below 400, and otherwise nothing |
| `CachePromises.PassedOnDrops` | crates/chromulate-cache/src/cache.rs:260-284 | an answer neither reused nor recorded drops its own target exactly when it may not be stored and says no-store or answers a revalidation, and touches no other |
| `HttpCacheService.ChunksAreRecorded` | crates/chromulate-cache/src/cache.rs:672-688 | reading a body fills the recorder with exactly what the caller was given, whatever other exchanges do in between |
| `HttpCacheService.FetchedIsStored` | crates/chromulate-cache/src/cache.rs:128-320 | however it is interleaved with others, an exchange that may be stored and is read to its end puts exactly that response under its target, in place of what had its selector |
| `HttpCacheService.NewestIsSelectedIff` | crates/chromulate-cache/src/cache.rs:328-342 | the variant just merged is the one selected exactly when no stored variant with another selector matches the request |
| `HttpCacheService.FetchedIsSelected` | crates/chromulate-cache/src/cache.rs:328-342 | the same request then selects that response exactly when no rival variant was there |
| `HttpCacheService.FreshCopyIsServed` | crates/chromulate-cache/src/cache.rs:153-165 | with no rival and while fresh, the same request gets the whole body back without the origin, whatever chunks it arrived in and whatever ran in between |
| `HttpCacheService.StaleCopyIsRevalidated` | crates/chromulate-cache/src/cache.rs:167-258 | once stale it is asked about, and a confirming 304 gives the same body back |
| `HttpCacheHistories.EventAt` | crates/chromulate-cache/src/cache.rs:196-320 | every event merges one entry under a key, empties it, or leaves it, and which is said |
| `HttpCacheHistories.StaysEmptyIff` | crates/chromulate-cache/src/cache.rs:201-207 | an emptied target stays empty exactly as long as no event writes under it |
| `HttpCacheHistories.EmptiedStaysEmpty` | crates/chromulate-cache/src/cache.rs:201-207 | a target emptied while no exchange for it is under way stays empty, whatever else happens, until it is asked for again |
| `HttpCacheHistories.EveryRunKeepsApart` | crates/chromulate-cache/src/storage.rs:85-96 | in every run no two variants of a target share a selector |
| `HttpCacheHistories.RefreshReplacesIff` | crates/chromulate-cache/src/cache.rs:218-258 | in every run, a kept 304 brings back the body held when its request went out, in place of exactly the variant with that selector, which is that one or one written while the request was out |
| `HttpCacheHistories.StoredFieldIff` | crates/chromulate-cache/src/entry.rs:282-304 | in every run, a stored entry has exactly the fields of one fetched response that were neither hop-by-hop nor named by its Connection, and those some 304 since carried |
| `HttpCacheExhibits.FalseLengthIsStored` | crates/chromulate-cache/src/cache.rs:552-561 | a run that stores a one-byte body under a Content-Length of 1 and one of 2 |
| `HttpCacheExhibits.NamedFieldIsStored` | crates/chromulate-cache/src/entry.rs:282-304 | a run after which the stored entry has a field that the 304's own Connection names |
| `HttpCacheExhibits.InvalidatedIsRefilled` | crates/chromulate-cache/src/cache.rs:201-207 | a run in which a POST empties a target and an answer that had already arrived fills it again |
| `HttpCacheExhibits.OlderBodyComesBack` | crates/chromulate-cache/src/cache.rs:218-258 | a run in which a late 304 puts an older body in the place of a newer one |
| `HttpCacheOverStore.CallOnlyForgets` | crates/chromulate-cache/src/storage.rs:342-399 | any call does to the bounded store what it does to the ideal one, and then forgets some keys |
| `HttpCacheOverStore.EventIsSimulated` | crates/chromulate-cache/src/cache.rs:128-320 | each event of the cache over the bounded store is that event over the ideal one, and then some forgetting |
| `HttpCacheOverStore.RunIsSimulated` | crates/chromulate-cache/src/cache.rs:128-320 | so every run over the bounded store is a run over the ideal one with forgetting in between |
| `HttpCacheOverStore.HitOverStoreIsSound` | crates/chromulate-cache/src/cache.rs:128-187 | each hit out of the bounded store is byte for byte the whole body of an earlier fetch of the same target by a request agreeing on everything it varied on |
| `HttpCacheOverStore.RevalidatedOverStoreIsSound` | crates/chromulate-cache/src/cache.rs:218-258 | each revalidated response over the bounded store is, too |
| `HttpCacheOverStore.HeldEntriesAreKeepable` | crates/chromulate-cache/src/cache.rs:128-320 | every entry the bounded store ever holds satisfies the stored-entry policy and is backed by a fetch |
| `DnsCache.ResolverCache.constructor` | crates/chromulate-dns/src/caching.rs:231-247 | a new cache is empty and sweeps at 64 |
| `DnsCache.ResolverCache.Sweep` | crates/chromulate-dns/src/caching.rs:173-179 | exactly the expired entries and the markers of dead lookups go, and the next sweep is set |
| `DnsCache.ResolverCache.Settle` | crates/chromulate-dns/src/caching.rs:151-169 | the marker is replaced by the outcome, which every clock reading within the TTL of its kind finds unexpired and no later one does, and the map is swept |
| `DnsCache.ResolverCache.Decide` | crates/chromulate-dns/src/caching.rs:271-318 | uses what is unexpired, joins what is alive, or registers a new lookup, sweeping first when due |
| `DnsRuns.NoLiveLookup` | crates/chromulate-dns/src/caching.rs:263-324 | where a caller starts a lookup, no unsettled lookup of that target has anybody waiting |
| `DnsRuns.EveryRunKeepsInv` | crates/chromulate-dns/src/caching.rs:117-179 | in every interleaving: markers name the live lookups, handles and callers agree, the map is bounded, and answers belong to their targets |
| `DnsRuns.SingleFlight` | crates/chromulate-dns/src/caching.rs:249-262 | at most one unsettled live lookup exists per target |
| `DnsRuns.StartsIff` | crates/chromulate-dns/src/caching.rs:271-318 | a resolution starts exactly when there is no live unsettled lookup and no entry unexpired at the caller's clock reading |
| `DnsRuns.MapStaysSmall` | crates/chromulate-dns/src/caching.rs:124-179 | the map never exceeds max(64, twice what the last sweep left) |
| `DnsPromises.CachedAnswerIsTimely` | crates/chromulate-dns/src/caching.rs:151-278 | in every run a cached answer was resolved for the target asked, and at the caller's reading less than the TTL of its kind has passed, or that end is past the last instant |
| `DnsPromises.AnswerStands` | crates/chromulate-dns/src/caching.rs:151-324 | once settled, an answer is what every later caller for its target is handed, and no new lookup starts, for as long as no clock reading that is acted on makes it untimely |
| `DnsPromises.SettledHoldsIff` | crates/chromulate-dns/src/caching.rs:151-169 | a settled answer is held at all exactly when its TTL is not nothing |
| `DnsPromises.SettlingSweeps` | crates/chromulate-dns/src/caching.rs:124-169 | settling drops every other target that has expired or whose lookup nobody waits for, and no other |
| `DnsPromises.StartingSweepsIff` | crates/chromulate-dns/src/caching.rs:117-179 | starting a lookup does so too once the map has doubled, and before that drops nothing |
| `DnsRuns.CollectedAnswerIsOwn` | crates/chromulate-dns/src/caching.rs:320-323 | an awaited answer was resolved for the target its caller asked |
| `ContentCodings.ParseContentEncoding` | crates/chromulate-compression/src/guard.rs:214-244 | the nested loops compute the specified list or error |
| `ContentCodings.AcceptedIff` | crates/chromulate-compression/src/guard.rs:202-244 | a header is accepted exactly when every line is readable, every token known, and there are at most eight in all; it then means its tokens in order |
| `ContentCodings.NamedIff` | crates/chromulate-compression/src/coding.rs:47-58 | a token means a coding exactly when, trimmed and in any case, it is one of that coding's names |
| `ContentCodings.RefusedFor` | crates/chromulate-compression/src/guard.rs:202-244 | a header is refused for the first thing in the way: an unknown token among the first eight, a ninth token, or a line that cannot be read |
| `ContentCodings.BuildLayers` | crates/chromulate-compression/src/guard.rs:178-193 | walking backwards gives one stage per real coding, the first alone counting wire bytes |
| `ContentCodings.StagesReverseTheCodings` | crates/chromulate-compression/src/guard.rs:178-193 | the stages undo the codings other than identity, each once, in the reverse of the order they were applied |
| `ContentCodings.OnlyTheLastCodingCounts` | crates/chromulate-compression/src/guard.rs:178-193 | stage 0, the only one that counts wire bytes, undoes the last coding other than identity: every later one is identity |
| `ContentCodings.DecodeResponse` | crates/chromulate-compression/src/guard.rs:169-199 | the plan is the specified one; on success both length and coding fields are gone |
| `ContentCodings.PlanIs` | crates/chromulate-compression/src/guard.rs:169-199 | a decoded response keeps every field but the coding and the length, and one stage stands for each coding other than identity, the last applied first; without the field nothing changes |
| `DecoderChain.WithinLimitsIff` | crates/chromulate-compression/src/stream.rs:142-160 | a 64-bit count passes exactly when it is within the size and, once a byte was read, within the unsaturated ratio |
| `DecoderChain.WireTotal.constructor` | crates/chromulate-compression/src/stream.rs:53-58 | a fresh total is zero |
| `DecoderChain.CountingStream.constructor` | crates/chromulate-compression/src/stream.rs:70-73 | a stage counts into the total it was given, or into none |
| `DecoderChain.CountingStream.Pull` | crates/chromulate-compression/src/stream.rs:78-85 | a chunk passes unchanged and is counted only where the stage counts |
| `DecoderChain.GuardedStream.constructor` | crates/chromulate-compression/src/stream.rs:91-98 | a stage starts with nothing decoded |
| `DecoderChain.GuardedStream.CheckLimits` | crates/chromulate-compression/src/stream.rs:142-160 | reports the limit broken, size before ratio |
| `DecoderChain.GuardedStream.Emit` | crates/chromulate-compression/src/stream.rs:103-119 | the chunk is counted first and handed on only if no limit is broken |
| `DecoderChain.EveryRunIsOk` | crates/chromulate-compression/src/stream.rs:45-86 | whatever the decoders do, the shared count is exactly what arrived on the wire |
| `DecoderChain.EndToEndBound` | crates/chromulate-compression/src/stream.rs:100-160 | when any stage hands on a chunk, all it ever handed on is within the size and within the ratio times the wire bytes, at any depth |
| `DecoderChain.RatioHoldsIff` | crates/chromulate-compression/src/stream.rs:142-160 | at each delivery all that was handed on is within the ratio of the wire bytes exactly when a byte was read or nothing was handed on |
| `DecoderChain.RatioHoldsThroughout` | crates/chromulate-compression/src/stream.rs:142-160 | with decoders that read before they produce, at every delivery of every run, at any depth, all that was handed on is within the ratio times the wire bytes |
| `DecoderChain.OutputBeforeInput` | crates/chromulate-compression/src/stream.rs:142-160 | why that is asked of the decoders: one that produced before it read would escape the ratio |
| `DecoderChain.DecodedUndoesEncoded` | crates/chromulate-compression/src/guard.rs:154-160 | decoding in reverse order undoes encoding in order |
| `DecoderChain.ChainRestoresTheBody` | crates/chromulate-compression/src/guard.rs:169-199 | once every decoder has produced the decoding of all its input and no limit has withheld anything, the last stage has handed on the original body |
| `DecoderChain.FittingBodyIsDecoded` | crates/chromulate-compression/src/guard.rs:169-199 | when every intermediate decoding fits both limits, the chain can be run to its end and hands on the original body |
| `ExtensionOrders.DrawnPairDiffers` | crates/chromulate-fingerprint/src/grease.rs:85-89 | the two GREASE values drawn always differ and are GREASE |
| `ExtensionOrders.GreaseIff` | crates/chromulate-fingerprint/src/grease.rs:23-46 | the sixteen reserved points are exactly the GREASE values |
| `ExtensionOrders.BinarySearch` | crates/chromulate-fingerprint/src/client_hello.rs:49-51 | finds the element, or the one place it belongs |
| `ExtensionOrders.ExtensionSet.constructor` | crates/chromulate-fingerprint/src/client_hello.rs:29-34 | the set is ascending, without repeats or GREASE, and has exactly the other members offered |
| `ExtensionOrders.ExtensionSet.Insert` | crates/chromulate-fingerprint/src/client_hello.rs:69-80 | adds exactly the extension, unless it is GREASE or present, and keeps the order |
| `ExtensionOrders.ExtensionSet.Remove` | crates/chromulate-fingerprint/src/client_hello.rs:83-91 | removes exactly the extension and keeps the order |
| `ExtensionOrders.ValidateOrder` | crates/chromulate-fingerprint/src/client_hello.rs:138-162 | the two loops compute the first fault or accept |
| `ExtensionOrders.ValidatedIff` | crates/chromulate-fingerprint/src/client_hello.rs:121-162 | accepted exactly when there are no repeats, pre_shared_key is last, and GREASE is at the edges |
| `ExtensionOrders.RefusalIsReal` | crates/chromulate-fingerprint/src/client_hello.rs:138-162 | an order is refused with a repeat, a misplaced key or a misplaced GREASE that is in it |
| `ExtensionOrders.NewPins` | crates/chromulate-fingerprint/src/client_hello.rs:270-298 | accepted exactly when the two lists together have no repeat, no GREASE and no pre_shared_key |
| `ExtensionOrders.UnpinnableIsReal` | crates/chromulate-fingerprint/src/client_hello.rs:270-298 | pins are refused with an extension that is in them and is a repeat, GREASE or the key |
| `ExtensionOrders.Assemble` | crates/chromulate-fingerprint/src/client_hello.rs:606-626 | the pushes lay the pieces out in the specified order |
| `ExtensionOrders.GeneratorMeetsValidator` | crates/chromulate-fingerprint/src/client_hello.rs:536-626 | for every set, pins, permutation and GREASE pair, the validator accepts the assembled order |
| `ExtensionOrders.EdgesStayPut` | crates/chromulate-fingerprint/src/client_hello.rs:606-626 | one GREASE value comes first and the other after the pins and the permuted extensions, and the key at the very end |
| `ExtensionOrders.PinsStayPut` | crates/chromulate-fingerprint/src/client_hello.rs:606-626 | the first pins come right after the first GREASE, the last pins right before the second, and the permuted extensions between them, each list in its own order |
| `ExtensionOrders.OrderIsAPermutation` | crates/chromulate-fingerprint/src/client_hello.rs:536-626 | the order without GREASE is a permutation of the set exactly when every pin is in the set |
| `ExtensionOrders.KeyKeepsOrderValid` | crates/chromulate-fingerprint/src/client_hello.rs:486-513 | adding or removing pre_shared_key keeps every valid fixed order valid |
| `Ja3.SplitUndoesJoin` | crates/chromulate-fingerprint/src/ja3.rs:47-52 | joining and splitting again gives the same pieces |
| `Ja3.DashedComesBack` | crates/chromulate-fingerprint/src/capture.rs:296-304 | a dashed list reads back as itself, the empty list included |
| `Ja3.PrintedOrderComesBack` | crates/chromulate-fingerprint/src/capture.rs:113-125 | the extension field of the printed string reads back as the order without GREASE |
| `Ja3.EveryFieldComesBack` | crates/chromulate-fingerprint/src/ja3.rs:23-37 | each of the five fields, read by itself, gives back the version, ciphers, extensions, groups or point formats |
| `Ja3.ReadIff` | crates/chromulate-fingerprint/src/capture.rs:113-125 | a string is read exactly when it has five fields and the third is empty or dashed code points, and the error names what is wrong |
| `Ja3.PrintsAlikeIff` | crates/chromulate-fingerprint/src/ja3.rs:23-37 | two hellos print alike exactly when they agree on everything JA3 keeps |

## Left out

- Command line, benchmarks, loopback servers, proxy dialling, the system resolver and everything that performs I/O.
- The real gzip, deflate, brotli and zstd decoders, MD5 and SHA-256, random number quality, URL parsing, serialisation, and the contents of the public suffix list.
- Detection of challenge pages, header priority, timings, error classification, address preference, the HTTP/2 fingerprint and JA4: tables and single branches.
- The table from status codes to signals, `Retry-After` parsing and the caller's own rate ceiling: they would add only easy members.
- CookieJar.Jar.CookiesFor: lookups share a read lock in the source; here one finishes before the next begins.
- OriginStores.OriginStore.StateFor: the second look under the write lock is one step with the first; `forget` is not modelled.
- In-flight bounds per authority: `forget` and eviction can leave two entries for one authority, so bounds are per entry.
- The order of the pause and the slot wait: the pause is looked at before the rate ceiling and the slot, so nothing is claimed about permits granted after it.
- Counter wrap-around: jar sequence numbers, store stamps, wire-byte and eviction counts are unbounded here; the source's are 64 bits wide.
- Sub-second cookie expiries: cookie time is whole seconds, as a snapshot keeps it.
- Other cache backends and failing ones: the cache is proved over the in-memory store (`HttpCacheOverStore`), and over any store that only forgets whole keys (`HttpCacheRuns`).
- Clock jumps: an instant is whatever the caller read; nothing assumes clocks agree or advance.
- MemoryStores.MemoryStore.Get: the stamp is drawn and the shard changed in one call; `CacheStoreRuns` covers stamps that arrive out of order.
- DecoderChain.RatioHoldsThroughout: that a decoder reads before it produces is assumed; the decoder library is not part of this model.
- DecoderChain.GuardedStream.Emit: the reclassification of upstream errors is not modelled.
- CookieJar.SortForSending: the sort itself is an insertion sort, where the source calls the library's.
- MemoryStores.FindCutoff: the ages are ordered by repeated selection, where the source calls the library's sort.
- CacheEntries.ReadVaryNames: names are the tokens of section 5.6.2 of RFC 9110; the HTTP library's own table is not part of this model.
- Trailers, extensions and HTTP versions of responses are carried or dropped as the cache does, and nothing more is said of them.
