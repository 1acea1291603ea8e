# A verified model of the OSAC service provider

The OSAC service provider lets DCM manage clusters and virtual machines of an OSAC installation. This project
models the parts of it that have an algorithm or a protocol, and proves what they promise.

**Status reporting** (`History`, `PublisherModel`, `PublisherSafety`, `PublisherTheorems`, `PublisherDrain`,
`PublisherObject`, `StatusMapping`, `PollerModel`, `PollerObject`, `Pipeline`, `PollRefinement`, `EndToEnd`). A poller compares each listing with a cache
per service type and calls `Publish` for what changed or disappeared. The publisher keeps the latest value of
each resource in a map, and one worker delivers those values over a broker, with a backoff per resource.
`PublisherModel` is a step system: each mutex section, each use of the wake channel and each broker send is one
step, and producers, the clock and cancellation interleave freely with the worker. A send is acknowledged,
refused, or accepted with the acknowledgement lost. Three fields of its state are histories: what was
published, what the broker accepted, and the worker's attempts. `PublisherObject` is the same program as a class
with the program's control flow; between its atomic sections `Interfere` lets the other goroutines do
anything, and every method is proved to take only steps of the step system. `Pipeline` puts the poller, cut at
each shared-memory operation, in front of the publisher's step system; its main theorems say that whenever
nothing is pending, a consumer that folds the messages the broker accepted has exactly the poller's caches, which
between polls are the latest successful listings. `PollRefinement` shows that this interleaved poller publishes poll by
poll the same events as the sequential `PollerObject` class, and `EndToEnd` joins listings drained from stable backends to
what consumers see, and shows that they can always catch up.

**Pagination** (`PageDrain`, `PageTokens`, `PageWalk`). The poller drains limit/offset pages into one listing
with 32-bit offsets; the REST listings hand out offsets as opaque tokens.

**Algorithms with an order or a bound** (`Numbers`, `Backoff`, `Registration`, `SemVer`, `VersionSelection`,
`ResourceStore`, `ClusterCreate`, `VMCreate`, `Network`, `Disk`). Capped doubling with 64-bit wrap-around, and
the two loops that use it besides the publisher; the choice of a cluster version; idempotent creation against
a remote store whose calls can fail after taking effect and which other requests change in between; default network provisioning with a bounded readiness
poll; disk capacities in exact arithmetic.

`dafny verify dfyconfig.toml` checks everything.

What the environment may do is always a parameter or a nondeterministic choice: map iteration order, the clock,
the outcome of a remote call. The remote store of `ResourceStore` is taken to keep ids and names unique; that is
what OSAC answers AlreadyExists for.

## Findings

- Requirement REQ-PUBLISH-080 asks that no stale value be delivered once a newer one is recorded. The code reads a value, unlocks, and sends; a Publish in
  between makes the sent value stale. `StaleSendHappens` gives the run, `SendIsFreshExactlyWhilePending` says when
  a send is fresh, and `PerKeyOrder` is what holds always: nothing older follows something newer.
- The page loops stay within 32 bits, and end, for every server that respects the page limit exactly if the claimed
  totals leave room for one more page (`OverflowExactlyWithoutRoom`). With a claimed total of MaxInt32 and full pages
  the loop never ends (`FullPagesNeverReachMaxInt32`).
- The backoff is min(max, initial * 2^n) for every n exactly if doubling the maximum does not overflow 64 bits
  (`ClosedFormExactly`); otherwise some wait is negative.
- When another id has the name, a virtual machine's creator is told NotFound if the Get works and the id is still
  absent: only the cluster code keeps the conflict. A cluster's creator is told AlreadyExists exactly if the Create was
  not refused for another reason and the Get, later, either worked and found the id absent or failed with NotFound or
  AlreadyExists. Any other failure of that Get masks the conflict there too, and so does another request for the same
  id that is stored between the two calls: then the answer is that resource, of another name while the name is held (`Collision`,
  `NameStaysTaken`).

## Model

| member | source | states |
|---|---|---|
| Backoff.ClosedForm | internal/registration/registration.go:249-255 | from any initial value, the wait after n failures is min(max, initial * 2^n); an initial value above the maximum is used once |
| Backoff.ClosedFormExactly | internal/statuspublisher/publisher.go:303-311 | the closed form holds for all n if and only if doubling the maximum does not wrap (or initial is 0) |
| History.ViewIsLastValue | internal/statuspublisher/publisher.go:167-171 | a consumer's folded table holds exactly each resource's last value, and nothing for one last reported DELETED |
| History.InOrderAfterDelivery | internal/statuspublisher/publisher.go:325-331 | delivering the value read n-th keeps a key's deliveries a stutter of its publications, in order |
| History.SubsequencePositions | internal/statuspublisher/publisher.go:325-331 | a subsequence means strictly increasing positions carrying the same values |
| History.TracedPositions | internal/statuspublisher/publisher.go:325-331 | what the order means without helpers: each delivery traces to a publication of the same value, later ones never to earlier ones |
| PublisherSafety.ShapeStep | internal/statuspublisher/publisher.go:332-343 | every step keeps: retry history only for pending keys or the key being cleared; the rest of a round is pending, due and free of duplicates |
| PublisherSafety.UpdatesStep | internal/statuspublisher/publisher.go:284-295 | every step keeps: a pending value is the latest published, and a key with none has had its latest value accepted |
| PublisherSafety.UpdatesAfterRemove | internal/statuspublisher/publisher.go:289-295 | conditional removal by value loses nothing, also when the value was replaced and published again meanwhile |
| PublisherSafety.OrderStep | internal/statuspublisher/publisher.go:325-372 | every step keeps each key's deliveries in publication order, with failed sends and lost acknowledgements |
| PublisherSafety.WakeupsStep | internal/statuspublisher/publisher.go:216-243 | every step keeps: a worker blocked, or about to, has no unannounced work, and a timer fires on a cooled key |
| PublisherSafety.WakeupsAfterSnapshot | internal/statuspublisher/publisher.go:245-274 | nothing attempted and wait <= 0 means nothing was pending at the snapshot |
| PublisherSafety.CooldownsStep | internal/statuspublisher/publisher.go:297-323 | every step keeps each retry entry equal to what the failures since the last success earned, and all attempts spaced |
| PublisherSafety.RoundsStep | internal/statuspublisher/publisher.go:245-274 | every step keeps: the attempts of a round are the settled part of the keys due at its snapshot |
| PublisherSafety.InvRun | internal/statuspublisher/publisher.go:216-372 | all of the above after any run from any state that has it |
| PublisherTheorems.NoLostUpdate | internal/statuspublisher/publisher.go:284-295 | in every run, each key's latest value is pending, or is the last one the broker accepted for the key |
| PublisherTheorems.PerKeyOrder | internal/statuspublisher/publisher.go:325-372 | in every run, a key's deliveries without repetitions are a subsequence of its publications |
| PublisherTheorems.DeliveriesTraceForward | internal/statuspublisher/publisher.go:325-372 | in every run, a key's deliveries trace to publications of the same values at positions that never go back |
| PublisherTheorems.NoLostWakeup | internal/statuspublisher/publisher.go:227-242 | a worker blocked without a timer has nothing pending or a token is there or owed; with a timer, every uncooled key is announced |
| PublisherTheorems.AttemptFindsItsKey | internal/statuspublisher/publisher.go:332-343 | the branch documented as unreachable is: an attempt's key is pending; retry history is confined to pending keys |
| PublisherTheorems.RoundAttemptsEveryDueKeyOnce | internal/statuspublisher/publisher.go:207-215 | no head-of-line blocking: a finished round attempted each due key, and no other, exactly once; the worker blocks only after a round with no key due |
| PublisherTheorems.RetriesAreSpaced | internal/statuspublisher/publisher.go:297-314 | after n failures a key is not attempted before the n-th backoff has passed, newer values or not; unless doubling overflows that is min(max, initial * 2^(n-1)) |
| PublisherTheorems.DrainedMeansUpToDate | internal/statuspublisher/publisher.go:167-183 | with nothing pending, folding what was accepted equals folding what was published |
| PublisherTheorems.AtMostOneRoundAfterCancel | internal/statuspublisher/publisher.go:216-243 | whatever happens after cancellation, the worker begins at most one more round |
| PublisherTheorems.StaleSendHappens | internal/statuspublisher/publisher.go:339-363 | a concrete run in which a value is accepted after a newer one was published |
| PublisherTheorems.SendIsFreshExactlyWhilePending | internal/statuspublisher/publisher.go:325-331 | the value being sent is one that was published, and the latest if and only if it is, still or again, the pending one |
| PublisherDrain.DrainIsBounded | internal/statuspublisher/publisher.go:216-243 | without further Publish, the steps taken are linear in the pending keys, the failed sends and the owed tokens |
| PublisherDrain.WorkIsBoundedBy | internal/statuspublisher/publisher.go:216-274 | a measure bounds the work of any run without Publish, from any state with the invariant |
| PublisherDrain.CountsAdd | internal/statuspublisher/publisher.go:216-243 | the step counts in the bounds add up, one for each step of work and each failed send |
| PublisherDrain.CanProceed | internal/statuspublisher/publisher.go:216-274 | a worker with something pending can take a step, after some time at most |
| PublisherDrain.RestMeansDrained | internal/statuspublisher/publisher.go:216-243 | a worker that can never take another step, and was not cancelled, has nothing pending |
| PublisherDrain.CanAlwaysDrain | internal/statuspublisher/publisher.go:216-243 | from every reachable state that is not cancelled, linearly many steps without Publish or failed sends empty the queue and leave the consumer up to date |
| PublisherObject.Publisher.constructor | internal/statuspublisher/publisher.go:148-165 | a new publisher is the initial state |
| PublisherObject.Publisher.Publish | internal/statuspublisher/publisher.go:172-183 | the key's pending value is replaced, backoff history is untouched, a wake token is left |
| PublisherObject.Publisher.ScanPending | internal/statuspublisher/publisher.go:251-268 | the loop yields each due key once and the smallest remaining cooldown, or -1 |
| PublisherObject.Publisher.CurrentValue | internal/statuspublisher/publisher.go:277-282 | the pending value at that moment, as one step |
| PublisherObject.Publisher.SendToBroker | internal/statuspublisher/publisher.go:363-371 | one broker send with any of three outcomes, as one step |
| PublisherObject.Publisher.RemoveIfUnchanged | internal/statuspublisher/publisher.go:289-295 | removes exactly an unchanged value, as one step |
| PublisherObject.Publisher.BumpRetry | internal/statuspublisher/publisher.go:300-314 | starts or doubles the key's backoff with cap and 64-bit wrap, as one step |
| PublisherObject.Publisher.ClearRetry | internal/statuspublisher/publisher.go:319-323 | drops the key's history, as one step |
| PublisherObject.Publisher.AttemptOnce | internal/statuspublisher/publisher.go:332-372 | with any interference between its sections, one settled attempt of the step system |
| PublisherObject.Publisher.AttemptRound | internal/statuspublisher/publisher.go:251-274 | with any interference, one whole round; the result says whether a key was due |
| PublisherObject.Publisher.Run | internal/statuspublisher/publisher.go:216-243 | takes as many rounds as asked unless it stops or blocks; stopped only when cancelled; blocked only with no token there, no expired timer, and nothing to do that a Publish under way will not announce |
| PublisherObject.Publisher.Await | internal/statuspublisher/publisher.go:227-242 | it goes on for a token, its timer or cancellation, only for these, and stays blocked exactly if there is none |
| PublisherObject.Publisher.Promises | internal/statuspublisher/publisher.go:100-119 | no lost update, order and convergence hold of the object whenever it can be observed |
| StatusMapping.ClusterReport | internal/cluster/status.go:27-77 | a listed cluster is never reported DELETED and never without a message |
| StatusMapping.ClusterReportSays | internal/cluster/status.go:38-77 | a listed cluster is reported ACTIVE if and only if it is Ready without a true degraded condition, and each other status if and only if its states and conditions say so |
| StatusMapping.ClusterReportQuotes | internal/statuspoll/message.go:13-49 | the message is that of the first condition whose type speaks for the reported status, else its reason, else the default text |
| StatusMapping.ClusterReportDefaults | internal/statuspoll/message.go:13-49 | without such a condition the message is the status's default text, written out |
| StatusMapping.VMReport | internal/vm/status.go:36-69 | the same for a listed virtual machine |
| StatusMapping.VMReportSays | internal/vm/status.go:44-69 | each status text of a listed virtual machine if and only if its state is one that means it |
| StatusMapping.VMReportQuotes | internal/statuspoll/message.go:56-70 | the message is that of the first true restart-failed condition that says anything, else its reason |
| StatusMapping.VMReportDefaults | internal/statuspoll/message.go:56-70 | without such a condition the message is the status's default text, written out |
| StatusMapping.ErrorsSay | internal/cluster/status.go:28-37 | which status each error code means for clusters and for virtual machines |
| StatusMapping.DeletedOnlyFromNotFound | internal/cluster/status.go:27-37 | either mapping says DELETED if and only if the error is NotFound |
| StatusMapping.FirstConditionSpeaks | internal/statuspoll/message.go:32-49 | a cluster's message comes from the first condition of the status's own type, whatever surrounds it |
| StatusMapping.FirstRestartFailureSpeaks | internal/statuspoll/message.go:56-70 | a virtual machine's message comes from the first true restart-failed condition that says anything |
| PollerModel.CombinedSet | internal/statuspoll/poller.go:115-119 | equal ids of the two service types do not meet: one cache write changes one row of the combined table |
| PollerModel.PollEventsOf | internal/statuspoll/poller.go:196-228 | one poll says exactly one DELETED about a cached id missing from the listing, none about a listed id, nothing about an unknown one |
| PollerModel.MappedIsLast | internal/statuspoll/poller.go:203-210 | of several entries with one id the last is what a listing says |
| PollerModel.ResyncSaysEverything | internal/statuspoll/poller.go:221-228 | on a resync cycle every entry of a listing is published, in order |
| PollerModel.OnlyChangesAreSaid | internal/statuspoll/poller.go:221-228 | off resync cycles a listed resource is published once if its entry differs from the cache, and not at all otherwise |
| PollerModel.DeletionsAreSeparated | internal/statuspoll/poller.go:193-219 | between two DELETED events of a resource there is an event saying it was alive |
| PollerObject.Poller.constructor | internal/statuspoll/poller.go:129-152 | empty caches; a non-positive resync period becomes 1; the subjects of the two types differ |
| PollerObject.Poller.PublishIfNeeded | internal/statuspoll/poller.go:221-228 | publishes if changed or on resync, caches the new value, keeps the replay invariant |
| PollerObject.Poller.CompareItems | internal/statuspoll/poller.go:203-210 | the item loop leaves the cache overlaid with the listing (last of equal ids wins) and exactly the events of the comparison |
| PollerObject.Poller.ReportVanished | internal/statuspoll/poller.go:212-218 | the sweep reports and removes exactly the cached ids not seen, each once |
| PollerObject.Poller.Poll | internal/statuspoll/poller.go:196-254 | a failed listing changes nothing; a successful one leaves exactly the mapped listing cached |
| PollerObject.Poller.RunCycle | internal/statuspoll/poller.go:186-191 | folding all events equals the caches over any cycles; off resync cycles every event changes that fold |
| Pipeline.ReplaysStep | internal/statuspoll/poller.go:196-263 | at every shared-memory step, folding what was published equals the caches with the outstanding write |
| Pipeline.UpToDateUnlessPending | internal/statuspoll/poller.go:196-228 | at every moment, for each resource not pending, the consumer's row is what the poller last concluded |
| Pipeline.Convergence | internal/statuspublisher/publisher.go:172-183 | end to end: with nothing pending, the consumer's table equals the poller's two caches |
| Pipeline.ProgressFinish | internal/statuspoll/poller.go:196-219 | when a poll ends its cache is exactly its listing, vanished ids removed, whatever ran concurrently |
| Pipeline.ConsumersSeeTheListings | internal/statuspoll/poller.go:182-263 | end to end, in every run: between polls and with nothing pending, the consumer's table equals the latest successful listing of each type |
| PollRefinement.PollPublishesItsEvents | internal/statuspoll/poller.go:196-254 | in every interleaved run, what a poll has published by its end is the sequential poll's events for its listing against the listing before |
| PollRefinement.PollReportsEachDeletionOnce | internal/statuspoll/poller.go:203-218 | in every run, a poll reports each vanished id as DELETED exactly once and nothing else about it, no listed id as DELETED, and nothing about an unknown id |
| PollRefinement.PollReportsAllOnResync | internal/statuspoll/poller.go:186-228 | in every run, a poll on a resync cycle has published every entry of its listing, in order |
| PollRefinement.PollReportsOnlyChanges | internal/statuspoll/poller.go:221-228 | in every run, off resync cycles, a poll has published a listed resource once if its entry differs from the listing before, and not at all otherwise |
| PollRefinement.DeletionsAreSeparatedInRuns | internal/statuspoll/poller.go:193-219 | in every run, between two DELETED events of a resource one says it was alive |
| PollRefinement.RunsPublishOnlyChanges | internal/statuspoll/poller.go:221-228 | in every run, off resync cycles each published event changes the table folding the events gives |
| EndToEnd.ListedIsLatest | internal/statuspoll/poller.go:182-254 | between polls, the caches' listings are the latest successful listing of each type that the run received |
| EndToEnd.ConsumersSeeTheBackends | internal/statuspoll/poller.go:182-299 | end to end, in every run: if the latest listings were drained from backends that stably held xs and ys, then between polls and with nothing pending the consumer's table is exactly xs and ys, mapped |
| EndToEnd.ClusterRow | internal/cluster/status.go:38-77 | of such a table: a cluster the backend holds has a row, which reads ACTIVE if and only if the cluster is Ready and not degraded, and likewise for every other status |
| EndToEnd.VMRow | internal/vm/status.go:44-69 | of such a table: a virtual machine the backend holds has a row that reads each status if and only if its state means it |
| EndToEnd.NoOtherRow | internal/statuspoll/poller.go:212-218 | of such a table: nothing the backends do not hold has a row |
| EndToEnd.ConsumersCanCatchUp | internal/statuspublisher/publisher.go:216-274 | from every reachable uncancelled state the poll under way can end, and then linearly many publisher steps without a failed send make the consumer's table the latest listings |
| PageDrain.ListAll | internal/statuspoll/poller.go:274-299 | against any server, even inconsistent, for which the loop ends: it stops at the first reply that ends a listing and returns exactly what was received, or fails with that reply |
| PageDrain.OffsetCountsItems | internal/statuspoll/poller.go:293-296 | if totals leave room for a page, the 32-bit offset equals the number of items received at every call |
| PageDrain.RoomIsEnough | internal/statuspoll/poller.go:274-299 | if totals leave room for a page, the loop ends and the offset never overflows |
| PageDrain.HonestListingIsComplete | internal/statuspoll/poller.go:265-273 | a listing from a stable server that ends without failing is the whole sequence, once, in order |
| PageDrain.DrainHonest | internal/statuspoll/poller.go:304-329 | a stable server is drained completely unless it fails, in at most one call per item, or one for none |
| PageDrain.OverflowExactlyWithoutRoom | internal/statuspoll/poller.go:293-296 | some server claiming totals up to a bound makes the offset overflow, and some makes the loop endless, if and only if the bound leaves less than one page of room |
| PageDrain.FullPagesNeverReachMaxInt32 | internal/statuspoll/poller.go:293-296 | with total MaxInt32 and full pages the loop never ends |
| PageTokens.Base64RoundTrip | internal/cluster/list.go:78-89 | unpadded base64url decoding undoes encoding, for every byte string |
| PageTokens.Alphabet | internal/cluster/list.go:78-80 | the symbols are A to Z, a to z, 0 to 9, '-' and '_', in this order |
| PageTokens.GroupsKeepTheirBits | internal/cluster/list.go:78-80 | three bytes make four symbols of the same 24 bits, most significant first; one or two at the end make two or three, unpadded |
| PageTokens.DecimalRoundTrip | internal/cluster/list.go:79-93 | decimal parsing undoes printing, for every 64-bit integer |
| PageTokens.TokenRoundTrip | internal/cluster/list.go:76-102 | decoding a token gives its offset; the token of a negative offset is refused |
| PageTokens.FirstTokens | internal/vm/list.go:84-99 | the tokens for 0, 50 and 100 items are MA, NTA and MTAw |
| PageTokens.DecodedToken | internal/vm/list.go:84-99 | a token is accepted, as n, if and only if it decodes to a decimal numeral for n, with or without sign, in 0..MaxInt32 |
| PageWalk.NormalizeMaxPageSize | internal/pagination/validate.go:16-27 | fails exactly for negative values; keeps 1..100, takes the default for an omitted or zero value and 100 for a larger one |
| PageWalk.List | internal/cluster/list.go:29-74 | one request gives the page function's answer; it is InvalidArgument exactly for a negative size or an undecodable token, and a next token comes only with results |
| PageWalk.PageIsNoLongerThanAsked | internal/cluster/list.go:30-48 | from a backend that respects its limit a page has at most the items asked for, at most 100, and at most 50 if no size was asked for |
| PageWalk.FullPage | internal/vm/list.go:31-73 | from a backend that fills its pages a request gets exactly the requested number of items after its offset, or all that are left, item by item, and a token exactly if more are left |
| PageWalk.WalkSoFar | internal/vm/list.go:31-73 | following tokens yields a growing prefix in order; a token is present exactly while items are missing and stands for their number |
| PageWalk.FinishedWalkIsComplete | internal/cluster/list.go:59-73 | a walk that ends has every item once, in order, for any page sizes and short pages |
| PageWalk.UnfinishedWalkGoesOn | internal/cluster/list.go:59-73 | a token can be followed, makes progress, and its offset is exceeded by the next one |
| SemVer.CompareIsAntisymmetric | internal/cluster/service.go:166-167 | precedence is antisymmetric, and equal exactly for versions equal but for build metadata |
| SemVer.CompareIsTransitive | internal/cluster/service.go:166-167 | precedence is transitive |
| SemVer.CompareIsPrecedence | internal/cluster/service.go:166-167 | the comparison is section 11 of Semantic Versioning 2.0.0, stated by the first difference of major, minor, patch and identifiers |
| VersionSelection.ResolveVersion | internal/cluster/service.go:142-182 | fails exactly when no candidate is eligible; otherwise no eligible candidate has higher precedence, or the same and a smaller name, and none a larger major, minor and patch |
| VersionSelection.NextCandidate | internal/cluster/service.go:152-171 | keeping the better of two keeps the best of all |
| VersionSelection.EligibleVersions | internal/cluster/service.go:152-165 | a candidate serves a request if and only if it is named, parseable, and its version is the requested one or continues it with a dot |
| VersionSelection.ResolutionIsOrderFree | internal/cluster/service.go:138-141 | any order of the catalog gives the same failure or name, and the same id if names are distinct |
| ResourceStore.CreateIsIdempotent | internal/cluster/service.go:83-86 | a Create call adds at most the resource submitted, only if id and name were free and it was not refused, and overwrites nothing |
| ResourceStore.SuccessIsStored | internal/cluster/service.go:83-97 | a success describes what is stored under the requested id at that moment |
| ResourceStore.Collision | internal/cluster/service.go:83-106 | a Create that collides by id or name changes nothing, and its answer is determined by what the Get finds after any operations of others; AlreadyExists for clusters exactly if the Create was not refused for another reason and the Get found the id absent, or failed with NotFound or AlreadyExists |
| ResourceStore.UsedId | internal/vm/service.go:98-108 | for an id in use and not deleted before the Get, the answer is the resource stored at the Create exactly if the Get was reached and worked |
| ResourceStore.FreshRequest | internal/cluster/service.go:83-89 | a request with a free id and name is stored exactly if its Create was not refused, reported or not |
| ResourceStore.LostAckIsRecovered | internal/cluster/service.go:59-63 | a Create accepted with its answer lost is made good by any later retry whose calls get through: it returns the resource first asked for, whatever overlaps with it short of a Delete |
| ResourceStore.NameStaysTaken | internal/cluster/service.go:98-104 | until its holder is deleted, a request for another id under a stored name stores nothing, and a success describes a resource of another name |
| ResourceStore.RunIsWellKept | internal/cluster/service.go:59-63 | over any run of overlapping requests with any faults, ids and names stay unique |
| ResourceStore.RunKeeps | internal/cluster/service.go:59-63 | over any stretch of a run that does not delete it, a stored resource is neither lost nor rewritten |
| ResourceStore.StoredWasRequested | internal/cluster/translate.go:55-87 | everything a run stores is, labels merged, some request of the run that was not refused |
| ResourceStore.SuccessesAgree | internal/cluster/service.go:59-63 | two successes for an id, of requests that overlap in any way, describe the same resource unless it was deleted in between |
| ResourceStore.RunKeepsOwnership | internal/cluster/list.go:18-20 | after any run, whatever labels the callers sent, every stored resource satisfies the listings' filter and names its own id and service type |
| ResourceStore.Delete | internal/cluster/service.go:236-242 | the id is absent afterwards unless the call was refused, nothing else changes, and NotFound counts as success |
| ResourceStore.MergeLabels | internal/cluster/translate.go:30-41 | exactly the caller's labels and the three ownership labels; every other label of the caller is kept, the ownership labels win |
| ResourceStore.Store.Create | internal/cluster/service.go:83 | the assumed remote Create: unique ids and names, faults before or after taking effect |
| ClusterCreate.ResolveNodeSetKey | internal/cluster/service.go:117-136 | succeeds exactly for a template with one node set, and returns it; an unknown template is InvalidArgument |
| ClusterCreate.Create | internal/cluster/service.go:64-82 | refused early, in order and with the store left alone, exactly for a release image, a template without a single node set, a failed catalog or no eligible version; otherwise the translated request is one attempt in the store's run, others acting between its calls |
| ClusterCreate.CreateOrRecover | internal/cluster/service.go:83-106 | whatever others do before the Get, the answer is the attempt's, conflict kept, shown with the requested version |
| ClusterCreate.ToApiNodeSets | internal/cluster/translate.go:97-122 | absent for no node sets; otherwise each set by its key, its host type by id or else by name |
| ClusterCreate.AnswersAgree | internal/cluster/service.go:83-97 | two answers for one id agree up to what the store reports, and on the version exactly if the same was requested |
| VMCreate.Create | internal/vm/service.go:86-105 | bad disks ask nothing of network or store; then network, then the translated request with the resolved subnet is one attempt in the store's run |
| VMCreate.CreateOrRecover | internal/vm/service.go:98-110 | whatever others do before the Get, the answer is the attempt's, a failed Get reported |
| Network.ProbesAreBounded | internal/vm/network.go:145-165 | at most ceil(timeout / interval) + 1 probes |
| Network.PollResult | internal/vm/network.go:145-165 | success if and only if the last probe reported ready; otherwise a failed probe's code, DeadlineExceeded from the deadline on, or the context's own code |
| Network.Client.PollUntilReady | internal/vm/network.go:145-165 | stops at the first probe that is ready, fails, is past the deadline, or whose wait the context ends, with that result or the context's own code |
| Network.Client.ResolveDefaultSubnet | internal/vm/network.go:60-137 | exactly these remote calls in this order, and this result; the first listed subnet is reused and nothing created |
| Network.SubnetOnlyInReadyNetwork | internal/vm/network.go:93-121 | a subnet is created at most once, only if none was listed, in a network seen ready before |
| Network.NewSubnetIsReady | internal/vm/network.go:127-136 | a newly provisioned subnet is returned only after it was seen ready |
| Disk.MatchOfText | internal/vm/disk.go:14-28 | every text of the capacity pattern's form is matched into its parts |
| Disk.TextOfMatch | internal/vm/disk.go:14-28 | nothing else is matched |
| Disk.ParsedSizeCovers | internal/vm/disk.go:24-51 | such a text parses exactly when its value is positive and its unit known, to the least whole number of GiB, at least 1, covering that value |
| Disk.WrittenCapacity | internal/vm/disk.go:24-51 | a number written in decimal with any digits after the point, blanks and a unit in any case parses to the least whole GiB covering its positional value |
| Disk.WrittenWholeNumber | internal/vm/disk.go:38-50 | so n GB are n GiB, n TB are 1024n, and n MB are n / 1024 rounded up |
| Disk.UnitNames | internal/vm/disk.go:38-48 | a unit is recognized exactly by GB, GiB, TB, TiB, MB and MiB, in any case |
| Disk.PaddingDoesNotMatter | internal/vm/disk.go:24-28 | white space around a capacity does not matter |
| Disk.SizeIsLeastCover | internal/vm/disk.go:38-50 | rounding up per unit gives the least whole GiB covering the request, at least 1 |
| Disk.SizeIsMonotone | internal/vm/disk.go:38-50 | a larger request never gets a smaller disk, across units and decimals |
| Disk.UnitsAgree | internal/vm/disk.go:38-48 | n TB = 1024n GB = 1048576n MB |
| Disk.MoreDecimalsAgree | internal/vm/disk.go:24-51 | appending a decimal zero to a capacity changes neither its size nor its refusal |
| Disk.SplitDisks | internal/vm/disk.go:64-89 | fails exactly on a wrong boot count, first, or an unparseable capacity; keeps every size, the boot disk apart, the others in order |
| Disk.AdditionalInOrder | internal/vm/disk.go:72-88 | the additional disks are all disks but the boot disk, each once, in the order given |
| Disk.BootDisksAreCounted | internal/vm/disk.go:64-71 | what is counted is the disks named boot |
| Registration.RunLoop | internal/registration/registration.go:216-257 | the waits of any reply history: min(max, initial * 2^n) after a retryable failure with n earlier ones since the last success, the interval otherwise; gives up exactly at a client error other than 409 |
| Registration.ReplyKinds | internal/registration/registration.go:222-247 | which status codes mean success, conflict, the end, and a retry |
| Registration.FailuresAreCounted | internal/registration/registration.go:249-255 | what doubles the wait is the number of retryable failures since the last success, whatever lies between |
| Registration.RetryWaits | internal/registration/registration.go:249-255 | the wait after n earlier retryable failures is min(max, initial * 2^n), any other the interval |
| Registration.WhatResets | internal/registration/registration.go:223-236 | 200 and 201 reset the failures; 409 neither resets nor adds |
| Registration.Bootstrap.RefreshLoop | internal/osac/bootstrap.go:344-371 | the waits of any fetch history: min(max, initial * 2^k) for a failure right after k others; the cached token and its expiry are those of the latest success, failures leave them alone |
| Registration.RefreshWaits | internal/osac/bootstrap.go:352-367 | capped doubling after failures; otherwise the wait ends a margin before expiry, or at once |

## Left out

- PublisherObject.Publisher.Run: the worker's loop is observed for any finite number of rounds; Dafny methods end.
- Registration.RunLoop: the same, for any finite reply history, after which the context ends; so is the token loop.
- PageDrain.ListAll: requires that the loop ends, because Dafny methods do; `OverflowExactlyWithoutRoom` says for which totals that is certain. A page of 2^31 or more items is not considered.
- Disk.ParsedSizeCovers: exact decimals instead of float64 rounding; sizes are unbounded, so the conversion of an oversized value to int32 is not modelled.
- Network.Client.PollUntilReady: requires a positive interval and that each wait takes at least that long; the default interval is 500 ms, and timers do not fire early.
- Disk.SplitDisks: takes the capacity parser as a parameter; the provider's is ParseDiskCapacityGiB.
- VersionSelection.ResolveVersion: parsing a version string is a parameter; only the library's precedence is modelled, from the standard.
- Durations and times other than backoffs are unbounded integers; the backoff's closed forms are stated for nonnegative configurations.
- buildEnvelope is total: its failure branches, documented as unreachable, and the CloudEvents encoding are not modelled.
- The poller's ticker and per-call timeout: a cycle can happen at any time, and a timed-out List is a failed List.
- A listing that changes while it is being paged through: completeness is stated for a stable server.
- What the store reports of a resource beyond what was submitted is its own affair: it may change at any time.
- Concurrent first-time network provisioning: the code makes no claim, and properties are per call.
- Get and kubeconfig retrieval, the version matrix, request handlers and error tables: straight-line code.
- Transport, TLS, OIDC discovery, configuration, health, logging and generated code.
- Start and Done of the background loops.
