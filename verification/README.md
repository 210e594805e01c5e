# homedns, verified

A Dafny 4.11 model of the logic of homedns, three CoreDNS plugins for a home
network, with proofs of what it promises:

- **blocklist** answers NXDOMAIN for names on downloaded lists. `ListParser` reads
  a list, `NameSet` and `NameOrder` are the sorted, pruned matcher, `Blocking` the
  path from list text to a client's query, `Reload` the refresh with last-good
  fallback, `Readiness` its goroutines interleaved statement by statement.
- **peercache** races sibling replicas against the upstream. `StoreModel` is the
  probe store as a value, `PeerStore` the same store on the heap and the probe
  listener, `StoreRefinement` its concurrent use against an unbounded reference
  map, `Spread` any number of replicas passing answers on.
- **race** asks all upstreams at once. `RaceMachine` is the race of concurrent legs
  over a buffered channel, shared with peercache; `RaceVerdicts` what holds on every
  schedule; `Drain` one leg's retries over a pool of dead connections.
- `Chain` puts them together: peercache's race above race's, above the exchanges.
- `Directives` splices the plugins into the chain. `Text`, `Dns` and `Wrappers` hold
  what the others share.

`dafny verify dfyconfig.toml` checks everything.

## How to read it

Code that changes things in place is a class or a method with loops, proved against
a specification function; the theorems are lemmas about that function. Concurrent
code is a state machine whose runs are sequences of steps, and the theorems are
about every run. Parameters stand for what the model does not look into: `isIP` for
the address parser, `cacheable` for the message classification, `hash` for the cache
hash, `moments` for the connection pool, responses for the network. Times are
integers in nanoseconds. `Dns.Retarget` follows `SetRcode` of the miekg/dns library,
which is not part of this model: it sets identifier, response bit, opcode and
question, and for a plain query RD and CD.

The main theorems:

1. `Spread.StoredLifetime`, `Spread.HitsBeforeDeadline`, `Spread.HopBound`,
   `Spread.AnswersLeave`: over every run of any number of replicas with arbitrary
   clock offsets, an answer outlives its upstream expiry only by the time it spent
   between replicas, says what the upstream said at TTLs no larger, and makes at most
   T - 5 hops on moving clocks; with deliveries of bounded delay it has expired
   everywhere by a fixed time.
   `Spread.TransitIsAdded` attains the lifetime bound for every delay,
   `Spread.HopsAttained` the hop bound for every T and `Spread.LeavingTimeAttained`
   that time for every T and delay; `Spread.MinimumAdvance` says exactly when there is
   a hop bound.
2. `NameSet.NewNameSet`, `NameSet.CoverageKept`, `NameSet.CanonicalForm`: the fast
   matcher is the one-line rule, and the set it builds is a canonical form.
3. `ListParser.AcceptedExactly`, `Blocking.BlockedExactly`, `Blocking.DeniedExactly`:
   which entries of a list name what, character by character, and that a query is
   denied exactly when it is spelt at or below a listed name and no allow entry.
4. `StoreRefinement.HitsAreSoundExactly`: concurrent puts, gets, evictions and
   removals only ever lose hits, if and only if no two questions share a hash.
5. `RaceVerdicts.WonByACompleteAnswer`, `RaceVerdicts.VerdictIgnoresSchedule`, `RaceVerdicts.FailureIsTheUpstreams`,
   `RaceVerdicts.NoLegBlocks`, `RaceVerdicts.OneReply`: all schedules of a race;
   `Chain.TransparentOverRace`: a failure of the two races on top of each other.
6. `Reload.PublishedIsUnionOfLastGood` and `Reload.InStepExactly`: any history of
   failing, succeeding and cancelled reloads; `Readiness.LoadedMeansReady`,
   `Readiness.GaugeExactly` and `Readiness.ShutdownEnds`: any interleaving of reload,
   timer and shutdown.

The machines of `Spread` and `StoreRefinement` are tied to the store they interleave:
`Spread.UndisturbedGet`, `Spread.DeliveryIsAPut` and their like say that steps nothing
comes between are the store's own operations. The definitions at the bottom (case,
white space, names, questions, codes, constants) are stated once more in characters
and numbers by the lemmas named `...Exactly`.

## Findings

- The published list is not always the union of the sources' last good contents. A
  URL listed twice is merged both times, and a reload cancelled past a good fetch, as
  happens at shutdown, changes contents without publishing. `Reload.InStepExactly` shows that these are the
  only ways: however far each reload got, the two agree on every outcome if and only
  if nothing can have been published, or no URL is listed twice and none was asked
  since the last reload that asked them all. `Reload.ExactIffDistinct` is the same for
  the merge of one complete reload.
- The fail-open gauge can be set with a list loaded: for a moment in every recovery,
  between publishing and clearing it (`Readiness.GaugeSetWhileRecovering`), and until
  the next reload that publishes, if the timer fires between clearing it and reporting
  ready (`Readiness.GaugeSetWithListLoaded`). `Readiness.GaugeExactly` says of every
  moment of every run whether it is set, `Readiness.GaugeMisleadsExactly` when the
  second case is the one.
- peercache promises that a failure looks as it would without the plugin. Its reply
  rewrites the header of the upstream's message and returns the success code whatever
  was returned beside it. `RaceVerdicts.TransparentExactly` gives the exact condition,
  `RaceVerdicts.ReturnedCodeIsLost` and `RaceVerdicts.HeaderBitIsLost` runs that break
  the promise, and `Chain.TransparentOverRace` shows that it is kept with race below.
- The store documentation says a stale or wrong entry never becomes a wrong answer.
  An entry is found by the hash of its question alone, so this rests on the hash:
  `StoreRefinement.CollisionServesWrongQuestion`.
- The TTL floor alone does not bound how often an answer bounces: passed on in the
  instant it is stored, it keeps its TTL (`Spread.BouncesWithoutTime`). A least time d
  between storing and serving bounds the hops if and only if d is not zero
  (`Spread.MinimumAdvance`).
- The block list documentation speaks of twelve local names; the code lists eleven.
  The model has the eleven.

## Model

| member | source | states |
|---|---|---|
| `NameOrder.SortStrings` | plugin/blocklist/matcher.go:48-50 | the array is sorted in place into an ordered permutation of itself |
| `NameOrder.SearchStrings` | plugin/blocklist/matcher.go:98 | binary search: everything before the position is smaller, everything from it on is not |
| `NameOrder.LessExactly` | plugin/blocklist/matcher.go:48-50 | names are ordered bytewise: by the first difference, or else by length |
| `NameSet.Has` | plugin/blocklist/matcher.go:97-100 | true exactly for members of the sorted set |
| `NameSet.CoversName` | plugin/blocklist/matcher.go:75-87 | the suffix walk agrees with the declarative rule (some non-empty listed name is the query or a label-boundary ancestor) on every string |
| `NameSet.HasAncestor` | plugin/blocklist/matcher.go:89-95 | true exactly when some other non-empty member is a proper ancestor |
| `NameSet.DedupInPlace` | plugin/blocklist/matcher.go:52-61 | deduplicates within the aliased storage; the names still to be read are never overwritten |
| `NameSet.DedupSorted` | plugin/blocklist/matcher.go:52-61 | on sorted input the result is strictly sorted with the same elements |
| `NameSet.NewNameSet` | plugin/blocklist/matcher.go:43-72 | for every list: strictly sorted, and a member exactly if listed and below no other listed name |
| `NameSet.CoverageKept` | plugin/blocklist/matcher.go:63-71 | pruning changes no answer on any query: every pruned name keeps a surviving ancestor |
| `NameSet.MembersAreIncomparable` | plugin/blocklist/matcher.go:63-71 | no member of the set covers another |
| `NameSet.MembersAreNecessary` | plugin/blocklist/matcher.go:43-72 | the set is minimal: any list answering alike spells out each of its members |
| `NameSet.CanonicalForm` | plugin/blocklist/matcher.go:43-72 | two lists build the same set exactly when they cover the same queries and agree on listing the empty name |
| `NameSet.UnderIsLabelSuffix` | plugin/blocklist/matcher.go:75-87 | the label-boundary rule: q is under e exactly when the labels of e end the labels of q |
| `ListParser.IsDomainName` | plugin/blocklist/parse.go:90-113 | the one-pass scanner accepts exactly dot-separated labels of 1 to 63 permitted characters, 253 in all |
| `ListParser.ValidNamesFitTheWire` | plugin/blocklist/parse.go:90-94 | every accepted name takes at most 255 octets on the wire (section 2.3.4 of RFC 1035) |
| `ListParser.NormalizeEntry` | plugin/blocklist/parse.go:70-85 | what is accepted is a multi-label valid name, no address and no local name |
| `ListParser.SpellingsOfOneName` | plugin/blocklist/parse.go:70-85 | any letter case, surrounding white space, trailing dot, leading "*.", dot or both of a blockable name is accepted as that name; so normalising is idempotent |
| `ListParser.AcceptedExactly` | plugin/blocklist/parse.go:70-85 | nothing else is: an entry is read as a name if and only if it is one of these spellings of it and the name is blockable |
| `ListParser.EntryCaseIsIrrelevant` | plugin/blocklist/parse.go:71 | entries that differ in ASCII letter case alone are read alike |
| `ListParser.BlockableExactly` | plugin/blocklist/parse.go:79-113 | blockable names in the terms of RFC 1035: two or more labels of 1 to 63 octets, 255 on the wire, the permitted characters listed, no address, not localhost.localdomain |
| `Text.LowerExactly` | plugin/blocklist/parse.go:71 | lower-casing identifies exactly the texts that differ in ASCII letter case, and yields the one without capitals |
| `ListParser.ParseList` | plugin/blocklist/parse.go:29-66 | the scanner loop computes the parse of the text, or fails if a line overflows the buffer |
| `ListParser.RefusedExactly` | plugin/blocklist/parse.go:32-33 | a list fails exactly if one of its lines has a mebibyte or more |
| `ListParser.ScanLine` | plugin/blocklist/parse.go:35-61 | comment stripping, trimming, fields and candidates of one line |
| `ListParser.ParseConcat` | plugin/blocklist/parse.go:29-66 | texts joined by a newline parse to the concatenation of their parses, and fail exactly if one does |
| `ListParser.ListedAreBlockable` | plugin/blocklist/parse.go:56-60 | every name a list yields is blockable |
| `ListParser.FieldsOfALine` | plugin/blocklist/parse.go:45-54 | with any white space around and between the words: a lone field is an entry; of several, all but the first are if the first is an address, and the line is ignored otherwise |
| `ListParser.CommentIgnored` | plugin/blocklist/parse.go:36-40 | a comment or a carriage return at the end of a line leaves its candidate entries as they were |
| `ListParser.PrintedListParsesBack` | plugin/blocklist/parse.go:29-66 | names written one to a line parse back to themselves, in order |
| `Blocking.NewMatcher` | plugin/blocklist/blocklist.go:164 | the matcher holds the name sets of the merged list and the allow entries |
| `Blocking.Blocked` | plugin/blocklist/matcher.go:17-25 | blocked exactly when the block set covers the name and the allow set does not; never without a matcher |
| `Blocking.BlockedExactly` | plugin/blocklist/blocklist.go:47-66 | end to end from list text: denied exactly when the labels of a listed name end the query's and those of no allow entry do |
| `Blocking.DeniedExactly` | plugin/blocklist/matcher.go:17-36 | in the client's spelling: denied if and only if the query is, up to letter case and a trailing dot, a listed name or ends in a dot and one, and the same of no allow entry |
| `Blocking.QueryCaseIsIrrelevant` | plugin/blocklist/matcher.go:34-36 | queries that differ in ASCII letter case alone are answered alike |
| `Blocking.ListedNameBlocksItsSubtree` | plugin/blocklist/matcher.go:17-36 | each listed name denies itself and all names below it, in any case, with or without a trailing dot, unless allowed |
| `Blocking.SourceOrderIsIrrelevant` | plugin/blocklist/matcher.go:43-72 | merging sources in either order builds the same set |
| `Reload.Fetch` | plugin/blocklist/source.go:67-94 | a fetch succeeds exactly if the response is a 200 whose body parses to at least one name, and yields that parse |
| `Reload.EventsAreValid` | plugin/blocklist/source.go:84-93 | whatever the sources send, no source contributes an empty success |
| `Reload.Blocklist.constructor` | plugin/blocklist/setup.go:42-46 | nothing loaded, nothing published, not ready |
| `Reload.Blocklist.Reload` | plugin/blocklist/blocklist.go:128-175 | one reload, cancelled before any source or not: the new last-good contents, the list published or kept, and readiness |
| `Reload.Blocklist.Denies` | plugin/blocklist/blocklist.go:47-66 | a query is denied by the whole merged list behind the matcher, though only pruned names are kept: exactly if spelt, in any case, at or below a published name and no allow entry |
| `Reload.GatherKeepsLastGood` | plugin/blocklist/blocklist.go:138-154 | a good fetch replaces a source's contents, a failed one leaves them |
| `Reload.MergedIsUnion` | plugin/blocklist/blocklist.go:132-155 | with distinct sources, the merged list is the union of their last good contents |
| `Reload.HistoryKeepsLastGood` | plugin/blocklist/blocklist.go:37-39 | after any history, each source's contents are its most recent good fetch |
| `Reload.PublishedIsUnionOfLastGood` | plugin/blocklist/blocklist.go:128-166 | after any history of reloads of distinct sources, whatever failed and when, a published list covers exactly what their last good contents cover, if no source was asked since the last reload that asked them all |
| `Reload.BlockedAfterHistory` | plugin/blocklist/blocklist.go:128-166 | the same, under the same condition, for what clients are denied, with allow entries |
| `Reload.PublishingIsUnionOfLastGood` | plugin/blocklist/blocklist.go:159-166 | a list just published covers exactly that |
| `Reload.CutShort` | plugin/blocklist/blocklist.go:133-154 | a list is out of step with the last good contents after a reload cancelled past a good fetch |
| `Reload.InStepExactly` | plugin/blocklist/blocklist.go:128-166 | for every list of sources and every pattern of how far reloads got: published list and last good contents agree on all outcomes if and only if no reload was complete, or sources are distinct and none was asked since the last complete one |
| `Reload.HistorySound` | plugin/blocklist/blocklist.go:159-166 | a published list is never empty and rests on some source's good contents |
| `Reload.NothingToPublishMeansNeverLoaded` | plugin/blocklist/blocklist.go:159-162 | a complete reload leaves the current list in place only while nothing was ever loaded |
| `Reload.RepeatedSourceIsNotExact` | plugin/blocklist/blocklist.go:132-155 | for every list of sources with a repetition, an outcome whose merged list exceeds the last good contents |
| `Reload.ExactIffDistinct` | plugin/blocklist/blocklist.go:132-155 | what one complete reload merges is exactly the last good contents on every outcome if and only if no source is repeated |
| `Readiness.InvHolds` | plugin/blocklist/blocklist.go:73-124 | the invariant of every interleaving: ready has a cause, a published matcher makes ready, shutdown returns only after the refresh loop is gone |
| `Readiness.ReadyHasACause` | plugin/blocklist/blocklist.go:111-124 | ready means a published matcher, or that the timer found it false and set it |
| `Readiness.LoadedMeansReady` | plugin/blocklist/blocklist.go:164-172 | at every moment of every run with a list published, its gauge cleared and its swap made, the plugin is ready |
| `Readiness.TimerFailsOpen` | plugin/blocklist/blocklist.go:115-123 | a timer that fires leaves the plugin ready, and sets the gauge exactly if it was not |
| `Readiness.TickReloads` | plugin/blocklist/blocklist.go:84-93 | a tick starts a reload of all sources; undisturbed it publishes, clears the gauge and is ready exactly if some source contributes, and changes nothing otherwise |
| `Readiness.PublishedWasFetched` | plugin/blocklist/blocklist.go:159-166 | however the goroutines interleave, there are no more publications than fetches that brought something |
| `Readiness.NeverTakenBack` | plugin/blocklist/blocklist.go:164-172 | over every continuation ready stays set and a published matcher is never withdrawn |
| `Readiness.AtMostOnePublishAfterCancel` | plugin/blocklist/blocklist.go:133-136 | once cancelled, only a reload past its last check can publish, at most once |
| `Readiness.NothingPublishedAfterShutdown` | plugin/blocklist/blocklist.go:102-109 | after shutdown returns no continuation publishes |
| `Readiness.ShutdownEnds` | plugin/blocklist/blocklist.go:102-109 | shutdown called at any moment of any run returns, after at most five statements of the refresh goroutine and its seeing the cancellation |
| `Readiness.GaugeSetWithListLoaded` | plugin/blocklist/blocklist.go:118-122 | a run that leaves the fail-open gauge set with a list loaded |
| `Readiness.GaugeSetWhileRecovering` | plugin/blocklist/blocklist.go:165-167 | a run with the gauge set by the timer, a list published and the gauge yet to be cleared |
| `Readiness.GaugeExactly` | plugin/blocklist/blocklist.go:118-122 | at every moment of every run the gauge is set exactly if the timer set it at some step and no reload cleared it since |
| `Readiness.GaugeMisleadsExactly` | plugin/blocklist/blocklist.go:164-172 | over every run, with a list loaded and no reload about to clear the gauge: it is set exactly if the timer set it at some step with no reload about to clear it and none published since |
| `StoreModel.MinTtlIsLeast` | plugin/peercache/store.go:123-138 | the smallest TTL among records other than OPT, none if there are only those |
| `StoreModel.ServedTtlIsMinTtl` | plugin/peercache/store.go:140-149 | the TTL a message is served at is the TTL its receiver reads off it |
| `StoreModel.NoOverflow` | plugin/peercache/store.go:94 | for every 32-bit TTL and non-negative elapsed time the 64-bit arithmetic is exact |
| `StoreModel.ServedTtlExactly` | plugin/peercache/store.go:94-104 | served exactly when five seconds are left, at the whole seconds left: within 5 and the original TTL, never past the original expiry, and unchanged exactly in the instant of storing |
| `StoreModel.ServedTtlNeverGrows` | plugin/peercache/store.go:94-104 | later probes see no larger TTL and no hit after a miss |
| `StoreModel.KeyBytesInjective` | plugin/peercache/store.go:110-118 | the bytes hashed are equal exactly for questions of one type and class whose names differ at most in ASCII letter case |
| `StoreModel.OfferedExactly` | plugin/peercache/store.go:55-78 | held exactly if cacheable, complete, neither DO nor CD, and every record of the three sections other than OPT, of which there is one, has five seconds |
| `StoreModel.PutExactly` | plugin/peercache/store.go:68-80 | key by key: the entry put, what is given up, and everything else as it was; a refused put changes nothing |
| `StoreModel.AnsweredExactly` | plugin/peercache/store.go:83-99 | a get hits exactly for a request with neither DO nor CD whose key is held with five seconds left |
| `StoreModel.FoundForItsQuestion` | plugin/peercache/store.go:68-118 | an entry put for one question is found for another exactly if type and class are the same and the names up to ASCII letter case, with five seconds left, unless the hash collides |
| `StoreModel.PutThenGet` | plugin/peercache/store.go:68-106 | round trip: any later request for the same question, in whatever case, is served from the entry put |
| `StoreModel.GetDropsExactly` | plugin/peercache/store.go:94-99 | a get drops exactly the entry asked for, when under five seconds of it are left |
| `StoreModel.ServedIsDerived` | plugin/peercache/store.go:101-105 | a hit keeps code, truncation, records and OPT, is readdressed to the request, and raises no TTL |
| `Dns.RetargetExactly` | plugin/peercache/peercache.go:137-139 | a reply always answers the request by header and question, and the messages it leaves alone are exactly those that already did |
| `PeerStore.Msg.Copy` | plugin/peercache/store.go:78 | a deep copy sharing no object with the original |
| `PeerStore.Msg.MinTtl` | plugin/peercache/store.go:123-138 | the three-section loop computes the smallest TTL |
| `PeerStore.Msg.SetTtl` | plugin/peercache/store.go:140-149 | every record but OPT is rewritten in place, also when sections share records |
| `PeerStore.Msg.Retarget` | plugin/peercache/peercache.go:137-139 | the message is readdressed in place, identifier, header bits and question, and keeps its code |
| `PeerStore.Store.Put` | plugin/peercache/store.go:68-80 | a copy is held exactly if the exchange may be held and has five seconds, evicting what the cache gives up |
| `PeerStore.Store.Get` | plugin/peercache/store.go:83-106 | the rebased answer on objects of its own, or a miss; an entry below the floor is dropped; with `StoreModel.FoundForItsQuestion`, never another type's or class's |
| `PeerStore.TtlToStore` | plugin/peercache/store.go:55-76 | what is refused: no message, truncated, DO, CD, not cacheable, no TTL, or under the floor |
| `PeerStore.GetAndOverwrite` | plugin/peercache/store.go:101-104 | a caller may overwrite what it got without disturbing the store |
| `PeerStore.RepeatedGets` | plugin/peercache/store.go:83-106 | over any later gets of one question, however the answers are overwritten, each is served from the entry as stored |
| `PeerStore.Win` | plugin/peercache/peercache.go:119-121 | the winner is stored as it arrived, then readdressed and written |
| `PeerStore.RunLeg` | internal/detached/writer.go:18-39 | whatever calls a leg makes, mixed with answers to the client and reuse of its connection: the connection fares as if there were no leg, the leg sees the addresses of its start, and its last message is captured |
| `PeerStore.IsPeer` | plugin/peercache/listener.go:116-136 | true exactly for a source address in the peer list |
| `PeerStore.ServeProbe` | plugin/peercache/listener.go:86-112 | one message per probe: the store's answer for a peer's single question, a refusal otherwise; only the asked entry can be dropped |
| `PeerStore.ProbeReplyExactly` | plugin/peercache/listener.go:86-112 | every reply answers the probe; it is the store's for a peer's single question that is held, and REFUSED without records, which can win no race, otherwise |
| `PeerStore.AnySession` | plugin/peercache/store.go:68-106 | over any sequence of gets, wins and probes for any questions, every message handed out or won being overwritten afterwards, the store and all replies are those of the store as a pure value |
| `PeerStore.HeldUntilReplaced` | plugin/peercache/store.go:68-106 | over any such sequence an entry stays as stored, unless a win for its own key replaces it or it is given up |
| `StoreRefinement.RunRefines` | plugin/peercache/store.go:68-106 | over every interleaving without collisions the cache holds only what the reference holds, and every hit is sound |
| `StoreRefinement.PutIsAPut` | plugin/peercache/store.go:68-80 | a put is the store's, and the reference's latest entry for its question exactly if accepted |
| `StoreRefinement.UndisturbedGet` | plugin/peercache/store.go:83-106 | a lookup and its finish that nothing comes between are one get |
| `StoreRefinement.FinishDropsWhatIsThere` | plugin/peercache/store.go:94-99 | whatever came between: a hit exactly if what was looked up has five seconds left, else its key is removed with what it holds by then |
| `StoreRefinement.CollisionServesWrongQuestion` | plugin/peercache/store.go:88-92 | for any two questions with one hash, a run that answers the second with the first's entry |
| `StoreRefinement.HitsAreSoundExactly` | plugin/peercache/store.go:68-118 | every hit of every interleaving is the reference's accepted put at the lookup, retargeted and rebased, if and only if no two questions in play share a hash |
| `Spread.GoodStep` | plugin/peercache/store.go:68-106 | every cache access, clock reading and delivery, in any order, keeps entries, pending gets and messages within their upstream lifetime and hop budget |
| `Spread.UndisturbedGet` | plugin/peercache/store.go:83-106 | a lookup and its finish that nothing comes between are the store's get, and a hit sets out for the sibling |
| `Spread.UpstreamIsAPut` | plugin/peercache/peercache.go:119-121 | an upstream answer is put at the reading of the replica's clock, and nothing else changes |
| `Spread.DeliveryIsAPut` | plugin/peercache/peercache.go:113-121 | a sibling's answer is put exactly if it is complete with code 0 or 3, and nothing else changes |
| `Spread.OnlyAnswersArePassedOn` | plugin/peercache/peercache.go:113-121 | over every run, what a replica holds from a sibling is a complete NOERROR or NXDOMAIN answer |
| `Spread.StoredLifetime` | plugin/peercache/peercache.go:119-121 | over every run, an entry expires by its upstream expiry plus transit time, is derived from that answer and sits under its question's key |
| `Spread.InFlightLifetime` | plugin/peercache/listener.go:104-109 | the same for answers between replicas |
| `Spread.HitsBeforeDeadline` | plugin/peercache/store.go:94-105 | a get that hits, whatever happened since its lookup, leaves at least five seconds before that deadline |
| `Spread.TransitIsAdded` | plugin/peercache/peercache.go:119-121 | the bound is tight: for every delay, a run whose entry expires exactly that much after its upstream answer |
| `Spread.HopBound` | plugin/peercache/store.go:18-21 | a held answer of TTL T loses a second on each hop served after the clock moved on, so makes at most T - 5 of them; with clocks always moving on these are all its hops |
| `Spread.InFlightHopBound` | plugin/peercache/store.go:18-21 | the same for answers between replicas |
| `Spread.HopsAttained` | plugin/peercache/store.go:18-21 | the hop bound is attained: for every n up to T - 5, a run with clocks always moving on whose answer makes n hops |
| `Spread.MinimumAdvance` | plugin/peercache/store.go:18-21 | all runs that serve each hit at least d after storing it stay within T - 5 hops, if and only if d is not zero |
| `Spread.AnswersLeave` | plugin/peercache/peercache.go:30-33 | with clocks moving on and each answer delivered within d, every copy held expires within T seconds and T - 5 times d of its upstream answer |
| `Spread.LeavingTimeAttained` | plugin/peercache/peercache.go:30-33 | that time is attained: for every T and d, a run with a copy that expires no sooner |
| `Spread.HeldForItsQuestion` | plugin/peercache/store.go:110-118 | with a collision-free hash, what any replica holds under a question is derived from an upstream answer to that name, in some letter case, type and class |
| `Spread.SentForItsQuestion` | plugin/peercache/store.go:88-105 | and so is what any get sends, addressed to its request |
| `Spread.BouncesWithoutTime` | plugin/peercache/store.go:18-21 | for any n, a run of n hops at the full TTL when no clock moves |
| `RaceMachine.ReceiveLoop` | plugin/race/race.go:104-143 | the receive loop, of race and of peercache, against the handler's specification, with cancellation at any receive: the first complete NOERROR or NXDOMAIN received wins |
| `RaceMachine.HandlerMeaning` | plugin/peercache/peercache.go:102-132 | the first useful result received ends the race; otherwise it runs to the last leg |
| `RaceMachine.RunInv` | plugin/race/race.go:90-130 | on every schedule each leg reports once and the channel holds what was sent and not received; a leg's step, by construction, has no client to write to |
| `RaceVerdicts.NoLegBlocks` | plugin/race/race.go:91-102 | a leg can always send, also after the handler returned; the channel never fills |
| `RaceVerdicts.HandlerNeverStuck` | plugin/race/race.go:108-114 | a waiting handler has a result to receive or a leg still running |
| `RaceVerdicts.SchedulesEnd` | plugin/race/race.go:90-144 | every schedule of n legs ends within 2n + 1 steps |
| `RaceVerdicts.OneReply` | plugin/race/race.go:127-143 | the client is sent exactly one message if the handler answered with one, that message addressed to the request with its code and records unchanged, and none otherwise; legs, by construction, write to detached writers only |
| `RaceVerdicts.WonExactly` | plugin/race/race.go:116-130 | an uncancelled race is won exactly if some leg's result is a complete NOERROR or NXDOMAIN, with the first such received |
| `RaceVerdicts.WonByACompleteAnswer` | plugin/race/race.go:122-130 | an uncancelled race is won if and only if some leg reports a message that is not truncated with code 0 or 3, and such a message is what the client is sent |
| `RaceVerdicts.CancelledExactly` | plugin/race/race.go:108-112 | a cancelled race has sent nothing and returns SERVFAIL with the context's error |
| `RaceVerdicts.UselessUpstreams` | plugin/race/race.go:116-143 | without a useful reply: the last reply in order of arrival, else SERVFAIL with the last error, or the synthesized one if there is none |
| `RaceVerdicts.UselessSiblings` | plugin/peercache/peercache.go:109-132 | without a useful result: the upstream's message or return, or an error if the upstream is not among the results |
| `RaceVerdicts.NotedUpstreams` | plugin/race/race.go:116-122 | the fallback is the last reply received |
| `RaceVerdicts.VerdictIgnoresSchedule` | plugin/race/race.go:104-143 | won, fallback or failed depends on the results alone; a fallback is the last reply, a failure the last error, never the synthesized one |
| `RaceVerdicts.SameResultsSameVerdict` | plugin/race/race.go:104-143 | races whose legs report the same multiset of results end with the same verdict |
| `RaceVerdicts.FailureIsTheUpstreams` | plugin/peercache/peercache.go:124-132 | without a useful leg the outcome is the upstream's own; the no-leg branch is unreachable |
| `RaceVerdicts.WrittenIsUsefulOrUpstreams` | plugin/peercache/peercache.go:111-132 | whatever is written is useful or the upstream's, never a peer's refusal or truncated reply |
| `RaceVerdicts.UsefulEndsTheRace` | plugin/peercache/peercache.go:103-122 | receiving a useful result ends the race, whoever has not reported |
| `RaceVerdicts.TransparentExactly` | plugin/peercache/peercache.go:137-144 | a failure is as without the plugin exactly if the upstream wrote nothing, or returned the success code with a message whose header and question already answer the request |
| `RaceVerdicts.ReturnedCodeIsLost` | plugin/peercache/peercache.go:137-144 | a run: an upstream that writes SERVFAIL and returns that code comes out with the success code |
| `RaceVerdicts.HeaderBitIsLost` | plugin/peercache/peercache.go:137-144 | a run: an upstream refusal returned with the success code comes out with its Recursion Desired bit changed |
| `Chain.ExchangesMakeARace` | plugin/race/race.go:149-186 | whatever the pools hold, the exchanges report as the race theorems assume of legs |
| `Chain.VerdictCarriesUp` | plugin/race/race.go:127-143 | the verdict of a race below is what the race above hears: won, a result that wins there too; failed, SERVFAIL and no message |
| `Chain.RaceAnswersTheRequest` | plugin/race/race.go:190-197 | what race writes is a response to the request, returned with the success code |
| `Chain.TransparentOver` | plugin/peercache/peercache.go:124-144 | with any finished race below, however it went, every failure is as without the plugin |
| `Chain.TransparentOverRace` | plugin/peercache/peercache.go:124-144 | with race below peercache, on any schedules and pools, every failure is as without the plugin |
| `Drain.Exchange` | plugin/race/race.go:149-186 | the retry loop, with other legs giving back and taking connections, and its classification: a message or an error, never both, and the stale count |
| `Drain.RepeatedExactly` | plugin/race/race.go:211-219 | an attempt is repeated exactly if it met one of the four errors of a dead connection and is not the last; a timeout ends the leg |
| `Drain.EndedByTheUpstream` | plugin/race/race.go:157-165 | a leg that ends before its last attempt did not end on a dead connection |
| `Drain.LastGivenBackIsUsed` | plugin/race/race.go:32-41 | a connection given back is the next one used, and leaves the pool as it was |
| `Drain.Classified` | plugin/race/race.go:167-185 | an answer is reported exactly if the last attempt brought a message matching the question, an answer to another question as a mismatch, and its own error otherwise |
| `Drain.StaleCountIsExact` | plugin/race/race.go:157-165 | stale attempts are exactly the dead connections pooled or given back, less those other legs took and those left |
| `Drain.DrainBound` | plugin/race/race.go:32-41 | at most eight pooled and one returned dead connection always drain within ten attempts |
| `Drain.ExhaustedExactly` | plugin/race/race.go:157-165 | among dead connections only, a leg fails as stale exactly if the others' gives and takes leave one to meet at every attempt |
| `Drain.KeepsUpByTotals` | plugin/race/race.go:157-165 | when the others only give back, that is: for every k, k connections were pooled or returned by the k-th attempt |
| `Directives.Server.InsertBefore` | directives.go:30-53 | the name goes directly before the first anchor; a duplicate name or a missing anchor is refused and changes nothing |
| `Directives.Server.Register` | directives.go:17-24 | the four insertions in order |
| `Directives.RegisteredExactly` | directives.go:17-53 | registration succeeds exactly if all anchors are present and none of the names is |
| `Directives.RegisteredChain` | directives.go:17-24 | blocklist directly before cache, k8s_gateway directly before kubernetes, peercache, race, forward in a row; removing the four gives the chain back |

## Left out

- Text outside ASCII: Unicode case mapping, Unicode white space and multi-byte characters.
- The address parser behind `isIP`, message classification, and the hash itself: parameters.
- StoreModel.ServedTtl: whole seconds are taken by integer division; the code goes through a float64, which can round up a TTL of about 2^24 seconds or more.
- StoreModel.ServedTtlExactly: stated for clocks that do not run backwards between storing and serving, as Go's monotonic clock ensures.
- Capacity and choice of eviction: any keys may be given up at any put, and any key at any time.
- The NXDOMAIN message a denied query is sent; denial itself is modelled.
- HTTP, TLS, dialling, the bootstrap resolver and its round robin, sockets and binding of the probe listener.
- Peer discovery: the peer list is a parameter of each probe.
- peercache with no peers discovered: the chain is called and its answer offered to the store, with no race.
- A failing write to the client's connection, which turns the return into SERVFAIL.
- Corefile parsing, metrics other than the stale count and the fail-open gauge, logging.
- Connection expiry inside the pool of the proxy package; the pool gives out the connection returned last.
- Drain.DrainBound: assumes that freshly dialled connections are not dead and that at most one dead connection is returned during the leg.
- Readiness.InvHolds: models a published matcher by its number; what it holds is the subject of the reload theorems.
- Load generation, the Helm chart, dashboards and the build.
