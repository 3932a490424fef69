# IPRS record system: a verified model

This project models the record system of go-iprs and proves properties of it: resolving names over
DNS, IPRS and IPNS, the caches in front of the lookups, record selection, and the way a signed
record takes from signing and publishing to lookup and verification.

How it is laid out:

- `Wrappers`, `Text`, `Library`: result types; strings, segment splitting and path cleaning; the
  system's values. Code from outside the repository (CIDs, multihashes, domain syntax, timestamps,
  keys, certificates) is a record of functions, `Lib`, and what the theorems need of it is written
  out as laws. `LawsHold` builds a library that obeys all laws at once, with a domain and an IPNS name
  that resolve, so no theorem holds because the laws contradict each other.
- `IprsPaths`, `Targets`, `Dispatch`, `Resolution`: IPRS paths, CID targets, which sub-resolver takes
  a name, and the depth-bounded walk with its path accumulator.
- `Sources`, `Depth`, `EndToEnd`: what the three lookups find in a world of TXT records, value store
  and block store, with signature verification; how deep a walk in a world has to go; and names
  resolved end to end.
- `Cache`, `CacheRuns`, `CacheOrder`, `CachedResolver`, `SharedCaches`: the time-limited cache over an
  LRU store as mutable classes; its steps under any number of concurrent callers, and the order in
  which it serves values; the resolver object whose walk goes through three caches; and any number of
  resolutions at once over shared caches in front of changing stores.
- `Records`, `Selection`, `Eol`, `Range`, `Validation`, `WrittenSelection`: parsing of validation data,
  the scans that pick the best record, and what they pick among records as they are written.
- `SigPrep`, `Signers`, `Publisher`, `RoundTrip`, `PublishRuns`, `Integrity`, `Readings`: the signed
  bytes, signers and records, publishing with failures, publish then look up, many publishers at once,
  what a verified lookup says about its author, and which records a signature covers.
- `ForkJoin`, `DnsRace`: the goroutines and channels of the certificate, IPNS and DNS fetches, as
  steps taken in any order.

Code that updates state in place is a class or a method proved against a function; code that only
computes is functions and lemmas. An index out of range, which stops the Go program, is a value of
its own: `None` in the path projections, `Panic` and `Crashed` in resolution, `Panicked` in the
master selector.

## What the proofs found

- `/iprs/<cid>/..` is an accepted path, and taking its base path indexes out of range. Exactly the
  paths that net out to fewer than three segments do this (`IprsPaths.ProjectionsDefined`). Suffix
  extension of names fails for exactly these names (`Resolution.SuffixExtension`).
- A record is stored under the text of its path and looked up under the base path. The two are the
  same only for paths of four parts (`IprsPaths.StoredWhereLookedUp`; a fifth part shows it,
  `IprsPaths.LongerPathIsLookedUpElsewhere`).
- The range selector compares the `*time.Time` pointers of two separate parses, so it treats two equal
  finite bounds as different. Which lists this affects is stated exactly, for the maximum meant
  (`Range.IntendedExactly`) and for independence of the list's order (`Range.OrderIndependentExactly`);
  the third case of the repository's own ordering test (`record/range_test.go:108`) is such a list,
  and there the record listed first wins (`Range.EqualEndsKeepFirst`).
- The master selector returns an index into the filtered list. It is right for the given list exactly
  when no record of the first one's type stands after a record of another type
  (`Validation.IndexPointsExactly`, with a failing list in `Validation.MixedListMisleads`).
- A cache can serve a value older than one it already returned for the same key
  (`CacheRuns.OlderValueAfterNewer`). It cannot when calls for a key start one at a time, and any call
  that starts while another is under way can break the order (`CacheOrder.StartKeepsOrderExactly`).
- Signed bytes carry no lengths, so a signature over one record can verify for a record with another
  value (`Readings.DigitsInTime`, and through a lookup `Readings.AnotherValueIsFound`). Which values a
  signature covers, and when it covers one only, is stated exactly (`Readings.FindsExactly`,
  `Readings.OneValueExactly`).
- An uncached IPRS lookup returns the value of an expired record (`RoundTrip.ExpiredIsStillFound`).
- `UnlimitedDepth` is 0 and documented as no limit, but depth 0 stops at the first name a
  sub-resolver accepts (`resolver/resolver.go:24` and `93`). The model follows the code.

## Model

| member | source | states |
|---|---|---|
| IprsPaths.ProjectionsDefined | path/path.go:83-103 | Id, BasePath and RelativePath are defined exactly for paths whose segments net out to at least three, with `.` and empty segments counting nothing and `..` taking one back |
| IprsPaths.AcceptedPathPanics | path/path.go:55-90 | for every CID, `/iprs/<cid>/..` is accepted by FromString and has no base path |
| IprsPaths.SegmentsAreCleaned | path/path.go:24-34 | Segments gives exactly the segments path cleaning keeps, all plain and slash-free, or one empty segment when none is left |
| Text.CleanDropsDots | path/path.go:24-26 | cleaning drops an empty or `.` segment wherever it stands |
| Text.CleanTakesBack | path/path.go:24-26 | in cleaning, `..` takes back the plain segment in front of it, wherever the two stand, and nothing at the root |
| IprsPaths.PlainParts | path/path.go:24-34 | an accepted path without `.` and `..` is left as it is by cleaning, and its segments are the parts of its text |
| IprsPaths.RoundTrip | path/path.go:55-103 | for every accepted path without `.` and `..`, the base path joined with the relative path is the path's text, and the id is the fourth part of it |
| IprsPaths.BasePathReparses | path/path.go:55-90 | the base path of any accepted path parses exactly when its second cleaned segment is a CID, and then has the same id, no relative path, and itself as base path |
| IprsPaths.BasePathKeepsCidAndId | path/path.go:79-90 | without `.` and `..`, the base path parses to a path with the same CID and id, and taking it twice is taking it once |
| IprsPaths.StoredWhereLookedUp | publisher/publisher.go:61-64 | the text a reference is stored under is the base path a lookup uses if and only if the path has four parts and its CID and id are plain |
| IprsPaths.LongerPathIsLookedUpElsewhere | resolver/iprs.go:50 | for every CID, a path with one segment behind its id is accepted, and its base path is another text than its own |
| IprsPaths.PathOfTwo | path/path.go:55-77 | the path of a CID text and an id is accepted exactly when the text decodes, and keeps the decoded CID |
| IprsPaths.AcceptedExactly | path/path.go:55-77 | a text of slash-free parts is accepted if and only if it starts with an empty part and `iprs`, has two more parts, none of them empty, and the first is a CID |
| IprsPaths.TrailingSlashRejected | path/path.go:65-69 | no text that ends in a slash is accepted |
| Targets.TargetFormats | path/target.go:20-41 | a CID comes back from its bytes, from an `/ipfs/` path and from CID text, with the subpath that was given, unless the text casts to a CID itself |
| Targets.MultihashTarget | path/target.go:43-50 | bytes that are no CID, no readable `/ipfs/` path and no CID text in front of a slash are a target if and only if they are a multihash, and then the version 0 CID with codec 0x70 and that multihash, without a subpath |
| Targets.CanonicalKeepsMeaning | path/target.go:11-51 | rewriting a target with a well-formed CID to the form `/ipfs/<cid>/<subpath>` keeps its meaning: the rewritten text parses to the same CID and subpath |
| Dispatch.GetResolverCases | resolver/resolver.go:108-115 | sub-resolvers are tried in the order DNS, IPRS, IPNS and the first that accepts the name gets it |
| Dispatch.NoResolverExactly | resolver/resolver.go:108-132 | a name is not hopped from exactly when no sub-resolver accepts it |
| Dispatch.HopRejoins | resolver/iprs.go:41-59 | the key a name is looked up under and the rest left over make up the whole name again, for all three kinds; for IPRS when the path has no `.` and no `..` |
| Dispatch.ExtendedHop | resolver/ipns.go:48-66 | plain segments added to an accepted name change neither the sub-resolver nor the key and come out at the end of the rest |
| Dispatch.SlashedHop | resolver/dns.go:41-63 | a slash at the end of a domain or an IPNS name changes neither the sub-resolver nor the key and leaves one empty segment behind the rest |
| Dispatch.ExtendedPanicHops | resolver/iprs.go:50 | a name whose base path is undefined becomes a name that is looked up when three plain segments are added |
| Resolution.AccumulatorIsSuffix | resolver/resolver.go:75-106 | the walk with an accumulator answers what plain recursion without one answers, with the accumulated non-empty segments behind the path, for every accumulator and depth |
| Resolution.ResolveFollowsWalk | resolver/resolver.go:71-106 | resolution follows successful hops until the budget is used up or there is no further hop, and answers what the name reached gives |
| Resolution.ResolvedExactly | resolver/resolver.go:75-106 | a name resolves to a CID and path if and only if some walk of at most depth hops ends at an unaccepted target with that CID, the path being the non-empty segments of the target's rest, then of the hops' rests, last hop first |
| Resolution.LimitExactly | resolver/resolver.go:92-96 | the recursion error is returned if and only if the first depth hops succeed and the name reached is still accepted by a sub-resolver |
| Resolution.PathHasNoEmptySegment | resolver/resolver.go:134-146 | no resolved path has an empty segment |
| Resolution.PathIsAllNonEmpty | resolver/resolver.go:75-106 | a resolved path is the list of exactly the non-empty segments, in order, of the final target's rest and of the hops' rests, the last hop's first: each stands at a place of its own there, in rising order, and every non-empty place is one of these |
| Resolution.AllNonEmptyOnce | resolver/resolver.go:134-146 | that list is uniquely determined |
| Resolution.TrailingSlashIsDropped | resolver/resolver.go:134-146 | a slash at the end of a domain or an IPNS name changes no answer, at any depth |
| Resolution.FailedExactly | resolver/resolver.go:98-102 | a lookup error is the answer if and only if some hop within the budget gets that error |
| Resolution.CrashedExactly | resolver/iprs.go:50 | resolution panics if and only if some hop within the budget reaches an IPRS name without a base path |
| Resolution.MoreDepth | resolver/resolver.go:75-106 | an answer other than the recursion error is unchanged at every larger depth |
| Resolution.SameEntrySameWay | resolver/resolver.go:98-105 | two hops of a walk that look up the same entry lead to the same names from there on |
| Resolution.EntriesDiffer | resolver/resolver.go:75-106 | a walk that ends never looks up the same entry twice |
| Resolution.EnoughDepth | resolver/resolver.go:75-106 | over at most N entries, a name that resolves at any depth resolves the same at depth N, and every answer other than the recursion error is the answer at depth N+1, so that a longer chain never ends; keys that share an entry count once |
| Depth.WorldBoundsDepth | resolver/resolver.go:75-106 | over the three lookups in a world with T names with TXT records and V stored values, depth 2T + V is enough for every name that resolves at all, and one more for every answer other than the recursion error |
| Resolution.UnchangingIsPlain | resolver/resolver.go:75-106 | resolution over lookups that may differ from hop to hop is plain resolution when they do not |
| Resolution.NoDeadEnds | resolver/resolver.go:80-89 | with lookups that may differ at every hop and return resolvable names only, an unrecognized format is reported if and only if the starting name is not resolvable itself |
| Resolution.SuffixCarries | resolver/resolver.go:75-106 | for a name that is looked up, resolving it with plain segments added gives the same answer at every depth, with the segments at the end of a resolved path |
| Resolution.SuffixExtension | resolver/resolver.go:75-106 | for an accepted name, suffix extension holds for all plain suffixes and depths if and only if the name's base path is defined |
| Sources.WorkDomain | resolver/dns.go:98-116 | the loop over the TXT entries returns what the recursive specification of the first parsed entry gives, and an error for a failed lookup |
| Sources.FirstParsedExactly | resolver/dns.go:107-115 | the lookup fails exactly when no entry parses, and otherwise gives the first that does |
| Sources.EntryGivesExactly | resolver/dns.go:118-140 | CID text gives the `/ipfs/` path of its CID, whatever else it could be read as; another resolvable entry gives itself, also with `dnslink=` in front; any other gives the text behind `dnslink=` if and only if it starts so and that text is resolvable |
| Sources.DnsLinkEntry | resolver/dns.go:131-140 | a `dnslink=` entry that is no name itself gives everything behind its first `=`, exactly when that is resolvable |
| Sources.ParsedIsResolvable | resolver/dns.go:118-140 | every entry that parses gives a resolvable name |
| Sources.ValuesAreResolvable | resolver/iprs.go:103-109 | every value any of the three sub-resolvers returns is resolvable, whatever the stores hold |
| Sources.ResolutionHasNoDeadEnds | resolver/resolver.go:71-106 | whatever DNS, the value store and the block store hold, and however they change between hops, resolution reports an unrecognized format exactly for a starting name that is not resolvable |
| Integrity.KeyPathIsAuthentic | record/key.go:77-93 | when no stored signature is forged, whoever wrote the stores, the record found at a key's path has the signed bytes of a record the key's holder made; its value is the one made exactly when it is as long, and then, for bounds in UTC, the expiry is too |
| Integrity.CertPathIsAuthentic | record/cert.go:108-138 | the same at a certificate's path: the record has the signed bytes of one made by the holder of a certificate that the path's certificate issued |
| Integrity.SameBytesSameContent | record/sigprep.go:35-52 | an arbitrary stored record with the signed bytes of a made record of the same value length has its value, verification data, validation type and validation bytes |
| Integrity.SameBytesSameExpiry | record/range.go:145-173 | an arbitrary stored record with the validation bytes of a made record, and bounds in UTC, has its expiry |
| Readings.ReadingsExactly | record/sigprep.go:35-52 | for keys and for certificates, a value has a record that names the signer and has given signed bytes if and only if it can be cut off their front, with the digits, and the certificate's CID, of a record behind it |
| Readings.OneValueExactly | record/sigprep.go:35-52 | a signature over a made record is good for no other value if and only if those digits, for a key `00` or `01`, stand nowhere in the signed bytes but behind the value |
| Readings.DigitsInTime | record/eol.go:36-46 | a key record whose end of life has `01` in its text has the signed bytes of a time range record with a longer value |
| Readings.FindsExactly | resolver/iprs.go:61-110 | over all stores, the values that a lookup at a signer's or its issuer's path finds with a given signature are exactly the resolvable ones that can be cut off the bytes it was made over |
| Readings.AnotherValueIsFound | resolver/iprs.go:95-110 | for a key record whose end of life has `01` in its text there are stores over which a lookup finds, with its signature, a longer value |
| EndToEnd.DomainHop | resolver/dns.go:41-63 | a domain is looked up as a domain under every name space |
| EndToEnd.IpnsHop | resolver/ipns.go:36-66 | an IPNS name of a CID goes to the IPNS sub-resolver under its own text |
| EndToEnd.CidTextTakenExactly | resolver/dns.go:41-44 | CID text with a subpath goes to a sub-resolver instead of being read as a target if and only if its second subpath segment is a domain, or is a CID behind `ipns` |
| EndToEnd.CanonicalNotTaken | resolver/resolver.go:78-83 | no sub-resolver takes a target in its canonical `/ipfs/` form |
| EndToEnd.OneHopResolves | resolver/resolver.go:75-106 | a name whose key gives a CID target resolves, at every depth but zero and with any plain suffix, to the CID, the target's rest and the suffix |
| EndToEnd.IpnsEntryExactly | resolver/ipns.go:68-151 | an IPNS name with a stored entry and key gives the entry's value if and only if the key verifies value, validity and validity type, and the value is resolvable; the expiry is the entry's end of life |
| EndToEnd.IpnsNeedsBoth | resolver/ipns.go:77-117 | an IPNS lookup finds nothing unless a readable entry for the CID's hash and a readable public key for the CID are stored |
| EndToEnd.IpnsResolves | resolver/ipns.go:68-139 | an IPNS name whose entry its key signed resolves to the entry's target with any plain suffix behind it |
| EndToEnd.IpnsMultihashResolves | path/target.go:43-47 | an IPNS name whose signed entry holds the bytes of a multihash resolves to the version 0 CID with codec 0x70 and that multihash |
| EndToEnd.DomainResolves | resolver/dns.go:65-140 | a domain whose first readable TXT entry is a `dnslink=` entry, on the `_dnslink.` subdomain or, that failing, on itself, resolves to the linked target with any plain suffix behind it |
| EndToEnd.CidDomainResolves | resolver/dns.go:118-122 | a domain whose first readable TXT entry is CID text resolves to that CID with any plain suffix behind it |
| EndToEnd.TargetDomainResolves | resolver/dns.go:124-126 | a domain whose first readable TXT entry is a target in canonical form resolves to its CID, its subpath and any plain suffix |
| Cache.TouchAndRemoveKeep | resolver/cache.go:54-75 | looking up and removing keep the store's keys distinct, its two parts in step and its size within bounds |
| Cache.AddKeeps | resolver/cache.go:90-93 | adding to a store of positive size keeps the same, eviction included |
| Cache.EvictsOldestOnly | resolver/cache.go:90-93 | after an add the key is first with its entry, and another key is gone if and only if the store was full, the key was new and the other was used longest ago |
| Cache.AddMakesLatest | resolver/cache.go:90-93 | adding puts a key first and keeps the order of the others: one that is there moves, a new one takes a free place or that of the key used longest ago |
| Cache.HitMakesLatest | resolver/cache.go:54-70 | a live hit makes its key the latest, keeps the order of the others and changes no entry |
| Cache.ExpiredIsRemoved | resolver/cache.go:72-75 | looking up an expired entry removes it, keeps the order of the others and finds nothing |
| Cache.OtherCallKeeps | resolver/cache.go:96-112 | a call for another key, hit, miss or error, moves a key back by one place at most and leaves its entry as it is while it is not the last |
| Cache.ResolverCache.constructor | resolver/cache.go:34-47 | a cache of a positive size starts empty with that size; any other size switches it off |
| Cache.ResolverCache.CacheGet | resolver/cache.go:49-76 | the new store and the answer: a live entry is served and becomes the latest, an expired one is removed |
| Cache.ResolverCache.CacheSet | resolver/cache.go:78-94 | the new store, in which the value is kept for its key until the earlier of its expiry and the end of a lifetime counted from now |
| Cache.ResolverCache.GetValue | resolver/cache.go:96-112 | the new store and the result are those of one call of the specification: the live entry, or the source's answer, stored unless it is an error |
| Cache.FetchThenAsk | resolver/cache.go:96-112 | a value fetched with an expiry and stored at some time is, after fewer calls for other keys than the cache has places, served again whatever the source has by then if and only if neither its lifetime nor its expiry is over; otherwise the source's answer is returned |
| Cache.CallIsTransparent | resolver/cache.go:96-112 | one call returns what an unchanging source returns and keeps every entry equal to the source's value |
| Cache.RunIsTransparent | resolver/cache.go:96-112 | in front of an unchanging source every sequence of calls at any times returns what the source returns, errors included, for every size, lifetime and expiry; the store never outgrows its size or holds a key whose lookup fails |
| CacheRuns.StepKeepsInvariant | resolver/cache.go:49-112 | every step of every caller, of the store and of the clock keeps the invariant on entries, callers and served values |
| CacheRuns.EveryRunIsFresh | resolver/cache.go:49-112 | in every interleaving with any evictions, each value returned for a key was given by the source for that key: to the same call, or earlier with neither its lifetime nor its expiry over when served |
| CacheRuns.ServedAreResolvable | resolver/resolver.go:117-132 | in every run in front of any of the three lookups, with the stores changing in between, a served value is what the lookup found for the key in the world of the call that asked for it, and is resolvable |
| CacheRuns.HitsAreUnexpired | resolver/iprs.go:103-131 | in every run in front of the IPRS lookup, the record that a cached value came from, in the world in which it was looked up, has that value and is not rejected as expired at the instant of the hit, for both validation types |
| CacheRuns.NoLifetimeNoHits | resolver/cache.go:83-88 | with a lifetime of zero or less nothing is ever served from the store |
| CacheRuns.OlderValueAfterNewer | resolver/cache.go:96-112 | a run in which the store serves a value older than one already returned for the key |
| CacheOrder.OneAtATimeIsInOrder | resolver/cache.go:96-112 | in every run in which calls for a key start one at a time, each value served for the key, hits included, is at least as new as all served before |
| CacheOrder.StartKeepsOrderExactly | resolver/cache.go:96-112 | after such a run, starting a call for the key keeps this order in all such continuations if and only if no call for the key is under way |
| CacheOrder.StartInFrontOfLookupExactly | resolver/cache.go:96-112 | the same with the lookup's own answers only, for a key that always has an entry: a start keeps the order in all such continuations if and only if no call for the key is under way |
| CacheOrder.CanBeOvertaken | resolver/cache.go:96-112 | a call under way at any of its steps can still return an older answer after a call started later has returned a newer one, whatever the source has for the two |
| CacheRuns.AnswerIsStored | resolver/cache.go:78-94 | a call with an answer, left alone, returns it and stores it in place of whatever entry the key has by then, kept until the earlier of its expiry and the end of a lifetime counted from now |
| CacheRuns.EntryIsServedExactly | resolver/cache.go:67-75 | in every run, a call that checks an entry is served its value if and only if neither the lifetime nor the expiry is over; otherwise the entry is removed and the call asks the source |
| CacheRuns.StoredIsServed | resolver/cache.go:96-112 | after a call has stored its answer, the next call for the key is served it, whatever the source has by then, at every time at which neither the lifetime nor the expiry is over |
| CacheRuns.MissAsks | resolver/cache.go:104-108 | a new call for a key without an entry asks the source; an error is returned and nothing stored |
| CacheRuns.LiveEntryIsServed | resolver/cache.go:49-70 | a new call, left alone, is served the live entry of its key, and the store is unchanged |
| CachedResolver.Resolver.AppendParts | resolver/resolver.go:134-146 | the two loops produce the list of exactly the non-empty segments of both lists, in order, each with its place |
| CachedResolver.Resolver.Ask | resolver/cache.go:96-112 | asking one cache gives what its source has, and keeps the cache's entries the source's values |
| CachedResolver.Resolver.ResolveWithAppendage | resolver/resolver.go:75-106 | the walk through the three caches answers what the walk without caches answers, at every depth, for all sizes, lifetimes and clocks, and keeps the caches valid |
| CachedResolver.Resolver.Resolve | resolver/resolver.go:71-73 | the same for a resolution from the start |
| CachedResolver.Resolver.ResolveIn | resolver/resolver.go:54-73 | with the three lookups over a world as the source, the cached resolver answers the uncached resolution in that world |
| SharedCaches.StepKeeps | resolver/resolver.go:75-106 | every step of a cache, of another caller or of a resolution keeps each resolution on the way of plain resolution over any lookups that give its hops' keys what the hops were given, and each result, error or value, one that a cache gave for the hop's key |
| SharedCaches.EveryResolution | resolver/resolver.go:75-106 | in every interleaving of resolutions over three shared caches, with evictions, other callers and stores that change in between, each resolution answers, errors included, what plain resolution answers that looks up each hop's key in the world in which some call of the run for it asked |
| SharedCaches.NoDeadEndsInAnyRun | resolver/resolver.go:80-89 | in every such run a resolution ends with an unrecognized format if and only if its starting name is not resolvable itself |
| SharedCaches.HopsOn | resolver/resolver.go:98-105 | a resolution at a name that is looked up, with depth left and no entry cached, can go on: to the name its source finds with one hop less left, or to the end with the source's error |
| Records.AllTextsExactly | record/range.go:72-79 | a list is read as texts exactly when all its items are texts, and the texts are its items in order |
| Records.TupleExactly | record/range.go:65-84 | data is a tuple of two texts if and only if it is a `[]string` of the two or the list they are decoded to |
| Records.RangeParsesExactly | record/range.go:145-173 | range data parses to bounds if and only if they are in order and it is a tuple of texts that stand for them, `-∞` and `∞` for none |
| Records.InterfaceToStringTuple | record/range.go:65-84 | the array-filling loop gives the two texts of a tuple in either representation, and an error for anything else |
| Records.EolIsLastUnexpired | record/range.go:175-188 | a record is rejected as expired at a time if and only if it has an expiry and the time is after it, for both validation types; the expiry is the one handed to the cache (resolver/iprs.go:112-131) |
| Records.RangeErrors | record/range.go:145-173 | a parsed range never ends before it starts, and parsing never fails as expired |
| Selection.SelectStep | record/eol.go:73-107 | one step of a scan keeps its choice the selected entry, for any strict weak order |
| Selection.ScanSelects | record/eol.go:70-113 | a scan with any strict weak order finds nothing exactly in a list without entries, and otherwise the selected entry |
| Selection.SelectedOnce | record/eol.go:70-113 | at most one index is selected |
| Selection.FirstUnparsableKept | record/eol.go:78-91 | a first record that does not parse is never displaced, in either scan |
| Selection.ArrangementsAgree | record/eol.go:98-106 | two arrangements of the same entries select entries of which neither is better |
| Eol.SelectRecord | record/eol.go:70-113 | the loop computes the scan of the specification; it fails exactly when there is no record, selects the first record when it does not parse, and otherwise the first maximum of end of life and CID bytes among the records that parse |
| Eol.BetterOrders | record/eol.go:93-106 | the comparison by end of life and then CID bytes is a strict weak order |
| Eol.UnbeatenExactly | record/eol.go:93-106 | a parseable record is unbeaten if and only if none has a later end of life, and none with the same one has greater CID bytes |
| Text.BytesLessExactly | record/eol.go:101-105 | one byte string is less than another if and only if, behind a common front, it ends or has the smaller byte |
| WrittenSelection.LatestWrittenEol | record/eol.go:70-113 | among records as end-of-life validations wrote them, before or after storing, the selected one has the latest written end of life, and of those with it the greatest CID bytes |
| Eol.OrderIndependent | record/eol.go:98-106 | when all records parse, every two arrangements of a list make the scan select records with the same CID and end of life |
| Range.SelectRecord | record/range.go:90-143 | the loop computes the scan of the specification; it fails exactly when there is no record, selects the first record when it does not parse, and otherwise the first parseable record that none is better than |
| Range.BetterOrders | record/range.go:114-136 | the comparison as coded, pointer comparisons included, is a strict weak order |
| Range.UnbeatenExactly | record/range.go:114-136 | a parseable record is unbeaten if and only if it has the latest end, without an end also the earliest start, and unbounded on both sides also the greatest CID bytes |
| WrittenSelection.LatestWrittenRange | record/range.go:90-143 | among records as range validations wrote them, before or after storing, the selected one has the latest written end, among those without an end the earliest written start, and among those without either the greatest CID bytes |
| Range.IntendedOrders | record/range.go:114-136 | the order the comments describe, with ties compared by instant, is a strict weak order and decides every two different keys |
| Range.IntendedIsMaximum | record/range.go:90-143 | with ties compared by instant, the scan selects the full maximum of latest end, earliest start and greatest CID bytes among all parseable records when the first parses |
| Range.IntendedOrderIndependent | record/range.go:90-143 | with ties compared by instant, every two arrangements of a list that select parseable records select the same bounds and CID bytes |
| Range.IntendedExactly | record/range.go:114-136 | the selection is the full maximum of end, start and CID bytes in every order of the list if and only if no two different records at the top share a finite end, or have no end and share a finite start |
| Range.OrderIndependentExactly | record/range.go:120-136 | the selection as coded is the same, bounds and CID bytes, in every order of the list if and only if no two different records at the top share a finite end, or have no end and share a finite start |
| Range.EqualEndsKeepFirst | record/range_test.go:107-108 | of two records with one end, the scan selects the one listed first, either way round, where the described order selects the earlier-starting one both times |
| Validation.SelectRecord | record/validation.go:35-78 | selection stops at a nil record, gives up exactly on an empty list or an unrecognized first type, and otherwise returns the index its type's scan selects in the list of the records of that type |
| Validation.UniformSelection | record/validation.go:18-24 | a list of one type is selected from by that type's checker, for types 0 and 1, and gives nothing usable for any other type |
| Validation.OfTypeOnly | record/validation.go:60-65 | the filter keeps only records of the list that have the type |
| Validation.OfTypeConcat | record/validation.go:60-65 | the filter keeps list order: filtering two lists in a row is filtering each |
| Validation.OfTypeCount | record/validation.go:60-65 | the filter drops nothing exactly when all records have the type |
| Validation.IndexPointsExactly | record/validation.go:77 | the index the selector returns points at the selected record in the given list, for every list of records of given types, if and only if no record of the first type stands after one of another type |
| Validation.GroupedPoints | record/validation.go:77 | on a list in which no record of the first type stands after one of another type, the returned index is the selected record's own |
| Validation.MixedListMisleads | record/validation.go:60-77 | of an early end-of-life record, a time range record and a late end-of-life record, the last is selected and the index of the time range record is returned |
| Validation.UniformListIsUsable | record/validation.go:60-77 | a list of one type is its own filtered list, so the index is valid for it |
| Validation.SelectedUnexpired | record/validation.go:71-77 | when the first usable record parses and any parseable usable one is unexpired at a time, the selected one parses and is unexpired at that time |
| SigPrep.TupleSurvives | record/range.go:65-84 | storing and reading back range data changes neither its two texts nor whether it is a tuple |
| SigPrep.SignedBytesSurvive | record/sigprep.go:35-52 | the signed bytes, or the error, are the same before a record is stored and after it is read back, for all verification and validation data |
| SigPrep.SignableExactly | record/sigprep.go:35-52 | there are signed bytes if and only if both types are known, certificate data is a CID or a link, end-of-life data a text and range data a tuple of two texts |
| Signers.RecordSigner.GetNode | record/cert.go:35-48 | the memoised node is the signer's own node on every call |
| Signers.RecordSigner.BasePath | record/key.go:49-55 | the base path is the path of the signer's node and the id, memoised node or not |
| Signers.RecordSigner.GetVerification | record/cert.go:70-76 | the verification data is nil for a key and the certificate's CID for a certificate |
| Signers.NewSignedRecord | record/record.go:57-102 | building a record through a signer object gives the record of the specification and leaves the signer valid |
| Signers.NodeRoundTrip | ipld/iprs.go:70-158 | decoding the node of a record gives back its version, value, types and signature, and its verification and validation data in the stored representation |
| Signers.SignableIsDataForSig | record/sigprep.go:35-52 | signing never fails on validity that signers and validations build, and the signed bytes are value, type, verification, type and validation in this order |
| Signers.BoundsSplit | record/range.go:57-63 | the start and end of a range can be read back from their concatenation |
| Signers.SignedBytesIdentify | record/sigprep.go:35-52 | for values of equal length and validity that signers and validations build, equal signed bytes mean equal values, types, verification and validation data |
| Publisher.AddBlocksGrows | publisher/publisher.go:46-56 | adding blocks removes and changes none, and stores something under every added CID |
| Publisher.AddBlocksStores | publisher/publisher.go:46-56 | without a collision every added block is stored with its content |
| Publisher.IprsPublisher.Publish | publisher/publisher.go:30-64 | success exactly when no step fails; then the reference to the record's CID is written at the path's text and all nodes are stored; a call that fails leaves the value store as it was |
| Publisher.IprsPublisher.PublishRecord | publisher/publisher.go:46-59 | the batch loop writes dependencies and then the record, or, on a failure, only blocks of the batch so far |
| PublishRuns.StepKeeps | publisher/publisher.go:30-64 | every step of every publisher, failing or not, keeps all nodes of committed and referenced records in the block store |
| PublishRuns.NoDanglingReference | publisher/publisher.go:30-64 | in every interleaving of publishers with any step failing, every reference a Publish wrote is the CID of a record whose node and dependencies are all stored, and stored blocks never change |
| PublishRuns.FailedPublishesLeaveNothing | publisher/publisher.go:36-43 | in every run each value in the value store is an initial one or the reference of a Publish that succeeded |
| PublishRuns.AloneIsPublished | publisher/publisher.go:30-64 | a Publish whose steps all succeed adds the dependencies and the record's node and then writes the reference, and changes nothing else |
| PublishRuns.LastPublishIsFound | publisher/publisher.go:30-64 | in every run, a path whose last reference is that of a record new for it gives exactly that record's value and expiry |
| RoundTrip.SignerPath | record/key.go:49-55 | a single plain id gives an accepted path with the signer's CID that is its own base path |
| RoundTrip.ValidationReads | record/range.go:45-55 | parsing what a validation wrote, before and after it is stored, gives back exactly its end of life, or its start and its end, and the expiry is the end |
| RoundTrip.WrittenIsValidated | record/range.go:175-188 | a written range record is pending exactly before its start and expired exactly after its end, a written end-of-life record expired exactly after its end of life, and each is valid otherwise |
| RoundTrip.StoredSignatureVerifies | record/cert.go:108-138 | the signature of a new record verifies on the record as read back, for key signers, self-signed certificates and certificates under their issuer's path |
| RoundTrip.KeySignatureVerifies | record/key.go:77-93 | a key-signed record verifies when the key's node is stored at the path's CID |
| RoundTrip.CertSignatureVerifies | record/cert.go:108-138 | a certificate-signed record verifies when the certificate and its issuer's certificate at the path's CID are stored |
| RoundTrip.PublishedIsFound | resolver/iprs.go:61-110 | over stores that hold a published record, an uncached lookup gives exactly the published value and the expiry of its validation |
| RoundTrip.PublishThenLookUp | publisher/publisher.go:30-64 | after a successful Publish at a single plain id, and as long as nothing else is written there, a lookup gives exactly the published value and expiry |
| RoundTrip.PublishUnderOwnPath | record/record.go:57-102 | signing and publishing through the signer and publisher objects leaves stores in which a lookup at the signer's path gives exactly the value and expiry |
| RoundTrip.PublishedResolves | resolver/resolver.go:75-106 | resolving a published path with any plain suffix at every depth but zero gives the target's CID, its rest and the suffix |
| RoundTrip.PublishedTargetResolves | resolver/resolver.go:75-106 | every target published in its canonical form resolves, at every depth but zero and with any plain suffix, to its CID, its subpath and the suffix |
| RoundTrip.ExpiredIsStillFound | resolver/iprs.go:95-110 | a lookup gives the published value at every time, and validation would reject the stored record as expired if and only if the time is after its expiry |
| ForkJoin.RunKeeps | record/cert.go:151-176 | every schedule keeps the invariant that ties the captured variables, the channel and the messages received to what the fetches came back with |
| ForkJoin.EverySchedule | record/cert.go:151-178 | under every schedule a returned pair holds the two fetched values in their places and a returned error is one of the fetches' own; no sender ever waits; when nobody can move, the caller has returned, with the pair if and only if both fetches succeeded, and both goroutines are finished; every move brings that nearer |
| ForkJoin.GetCertsUnderEverySchedule | record/cert.go:140-179 | under every schedule the certificate fetch returns both certificates in the right places if both can be fetched, and an error otherwise |
| ForkJoin.IpnsUnderEverySchedule | resolver/ipns.go:74-131 | under every schedule the IPNS lookup checks the fetched entry with the fetched key, and fails when either fetch fails |
| DnsRace.RunKeeps | resolver/dns.go:68-95 | every schedule, cancelled or not, keeps the invariant on the two workers, their channels and the caller |
| DnsRace.EverySchedule | resolver/dns.go:65-96 | under every schedule the subdomain's answer is preferred, then the domain's own, then the failure, or the cancellation if there was one; no sender ever waits; when nobody can move, all are done, and every move brings that nearer |
| DnsRace.DnsUnderEverySchedule | resolver/dns.go:65-116 | without cancellation the returned value is the first parsed entry of `_dnslink.`, else of the domain, else the resolve failure |

## Left out

- Resolution.LimitExactly: depth is a natural number. A negative depth, which never reaches 0 in the Go code, is not modelled.
- Signers.SignedBytesIdentify: values of equal length only, because the signed bytes carry no length; `Readings.OneValueExactly` says when the value is fixed without that.
- CachedResolver.Resolver.Resolve: one caller at a time and a source that does not change while it runs; concurrent callers and changing stores are in `SharedCaches`.
- Integrity.KeyPathIsAuthentic: a forged signature is one in the block store that verifies and that the holder did not make; for a value of another length only what `Readings` states, and the expiry only for stored bounds in UTC.
- Integrity.CertPathIsAuthentic: the same, and certificates are stored under their own CIDs.
- Cache.FetchThenAsk: fewer calls in between than places; with more, the key may have been evicted.
- Sources.FetchedExactly: a CBOR block under a key's or a certificate's codec is no key and no certificate.
- Readings.FindsExactly: assumes that the signer's and the issuer's certificate, when different, have different CIDs.
- CacheRuns.EveryRunIsFresh: the LRU store is a map from which any entry may vanish at any time, which covers every capacity and eviction order.
- ForkJoin.GetCertsUnderEverySchedule: which of two errors is returned depends on the schedule; `Sources.GetCerts` and `Sources.IpnsGetValue` name one of them.
- ForkJoin.EverySchedule: two different CIDs; for equal CIDs the Go code makes one fetch, which `Sources.GetCerts` gives the same result for.
- PublishRuns.FailedPublishesLeaveNothing: the value store is written by publishers only; other writers of blocks are modelled.
- RoundTrip.PublishThenLookUp: assumes that no stored block has the CID of a new one with other content, instead of a hash function without collisions.
- Records.EolIsLastUnexpired: the two readings of the clock in range validation are one instant.
- Eol.SelectRecord: times are compared by instant; the Go code compares `time.Time` values, which agree for two parsed UTC times.
- DNS, value store and block store as network services: they are maps, a missing key is a failed lookup, and timeouts are not modelled. Cancellation is an event of the DNS race only.
- Certificate verification, keys and signatures: abstract, with the law that what is signed verifies; issuing is an arbitrary relation.
- CID, multihash, base58 and CBOR bytes: abstract functions, with the laws that the text and bytes of a well-formed CID decode back to it, that CID text is one plain path segment, that no text that decodes is a domain, and that digests have one length and make well-formed CIDs. A block's content is a value tree that carries the change of representation from encoding (a CID becomes a link, a text list a list of values). Encoding never fails.
- RFC 3339 text: instants are integers, with the law that the text of a representable instant parses back and ends in its only `Z`.
- `ParseCidToPath`, `routing.GetPublicKey`, the LRU package, `ParseRFC3339` and the protobuf decoding of IPNS entries are not part of this repository; the first three are modelled from their use, the others are abstract functions.
- The panic of the IPNS lookup on a key that is no IPNS path: no caller passes one; the model returns an error.
- Default sizes and lifetimes of the caches, `Pretty`, `Loggable`, logging, `pb`, `iprs.go` and `interface.go`: display, defaults and delegation.
- Publishing of public keys and certificates outside a record's own dependency nodes: commented out in the Go code.
