# api-proxy: a verified model of throttling, failover and routing

This Dafny project models the stateful core of the thin API proxy and proves what it keeps over every run.

* **Throttling** (`Throttling*.dfy`). Request handlers, one ingester and one synchroniser share a buffer of counter
  cells without locks. `Throttling` is the step relation: an explicit heap of buffers and cells, one program counter per
  goroutine, one action per atomic operation. `ThrottlingInvariants` proves the invariant of every step,
  `ThrottlingTheorems` and `ThrottlingRequests` what follows for every run, and `ThrottlingHandler` has the handler itself, with cells and buffers
  as mutable objects, each of its methods proved to be one step. Counts are traced by generation: generation g is what is
  counted between two swaps of the buffer, `made` and `lost` are its ledgers of increments.
* **Failover** (`Failover*.dfy`, `StatusMonitor.dfy`). Any number of monitors, with any zone names, share one lock node;
  Create, Get, Delete and the writes of `lockHandle`, `IsHealthy` and `FailureType` are separate events, and each call may
  fail, a failed Create or Delete applied or not. `StatusMonitors` has the monitor as an object whose calls and loop are
  proved to be runs of that protocol.
* **Control plane** (`Rules.dfy`, `Sampling.dfy`, `Router.dfy`, `Regions.dfy`, `ControlPlane.dfy`, `Loaders.dfy`,
  `Hashes.dfy`, `Snapshots.dfy`, `Agreement.dfy`). Ranking and sorting of rules, sampling by hash, first-match routing, the choice of a region, and the
  validated, hash-cached reload. `Loaders` runs the two loaders of the configuration step by step, `Snapshots` the looks
  that requests take at the live configuration while it is replaced; `Agreement` proves which configurations may replace
  each other under a request, and `Hashes` that the assumption on the configuration hash can be met.
* **Requests** (`Marshalling.dfy`, `Endpoint.dfy`). The loops that turn parameters into pairs and choose a HOB code, and
  the encoding of a path as service and endpoint.
* `Text.dfy`, `Sorting.dfy` and `Options.dfy` hold the library functions these rest on: strings.Split and Join, sort.Sort
  and the optional value.

What the code does from outside is given: the order a map is ranged over, the random draw, whether reporting is enabled,
the answers of the throttling service, of raven, of the monitoring service and of ZooKeeper, the JSON parser and the hash
functions are parameters, and every result holds for all of them. Only the configuration hash is assumed not to be blank
and to tell apart whatever can be loaded; for every parser there is such a hash (`GoodHashExists`).

## What the code does not do

Some promises hold only under a condition. Each is stated with the exact condition.

* The comment at handler/throttling.go:60-62 has an increment lost whenever one is in flight at a swap. It is lost only if
  the synchroniser has already passed that key (`LostExactlyWhen`); the loss can occur (`OneIncrementCanBeLost`), at most
  once per swap (`LossesBounded`).
* Failing over takes one zone out of the pool at a time, as `IsHealthy` shows it, exactly if there is only one zone
  (`OneZoneUnhealthyExactly`): between its Delete and its write of `IsHealthy` a monitor is still out though the lock is
  free, and in that window the lock can pass through all monitors (`EveryoneOut`). Outside the window one zone at a time
  is out exactly if there is one monitor per zone, or one zone only (`OneZoneOutExactly`).
* "Make sure the lock is removed on recovery" (statusmonitor/types.go:161) holds only if the handle is still held and the
  Delete is applied (`StatusMonitor.RecoverAZ`). With one monitor per zone, the node and the health of the monitors always
  agree at rest exactly if raven stays connected, Deletes are applied and refused Creates are not
  (`NodeMatchesExactly`); without any one of these a node can be left that nobody will ever delete (`NodeLeftBehind`).
* "We want to treat updates to loaded config as an atomic whole" (controlplane/controlplane.go:42), and each look at the
  configuration does, but a request takes several. Its rule, region and mode come from one installation exactly if none
  is made between its first look and its last (`OneInstallationExactly`); they can come from three (`MixedAnswers`).
  However configurations replace each other, one of them gives all the request's answers exactly if any two of them,
  the zero one included, differ in the answer to one of its queries at most (`OneConfigurationExactly`).
* The live configuration is always that of the usable one read last exactly if loads do not overlap, or no two
  configurations differ (`LastUsableExactly`). The first load and a reload can overlap (`StaleOverwrite`,
  `StaleOccurs`).
* The HOB code sent on depends on the order of Go's maps unless the condition of `CodeDeterminedExactly` holds.
* The repository's README.md says that the path is split into service and endpoint. A rooted path shares its service and
  endpoint with no other, up to cleaning, exactly if it has one segment, or two of which the first is not divided by a
  dot into two segments (`OwnEndpointExactly`). Among paths with no dot in the service part there are no collisions
  (`EndpointInjective`), and a dot in the last segment does no harm.
* A forced route is recognised in any case, the mode forced with it only in upper case (`ForcedRouteAndMode`).
* The repository's README.md ranks rules by specificity alone; the code puts `Weight` first, and so does the model.

## Model

| member | source | states |
|---|---|---|
| ThrottlingInvariants.StepKeeps | handler/throttling.go:63-149 | Every atomic step of a request handler, of the ingester or of the synchroniser, in any interleaving, keeps the invariant: typed heap, single-ingester facts, report so far, per-generation ledgers, flow of pushes, throttled set. |
| ThrottlingTheorems.Conservation | handler/throttling.go:63-104 | In every reachable state and for every key, accepted pushes = queued + in flight + counted live + still unread + read and held + delivered + discarded + lost. |
| ThrottlingRequests.RequestsArrived | handler/throttling.go:180-182 | Over any run the requests are exactly those that arrived, each with the buckets it arrived with. |
| ThrottlingRequests.OffersAccounted | handler/throttling.go:183-190 | For every bucket, as often as requests arrived with it in the run it was accepted, refused or is still to be offered; once all requests are decided, accepted or refused. |
| ThrottlingRequests.RefusedOnlyWhenFull | handler/throttling.go:52 | The channel never holds more than 500000 buckets, and nothing is refused before that many were accepted. |
| ThrottlingRequests.FirstInFirstOut | handler/throttling.go:69 | Buckets are received in the order in which they were queued. |
| ThrottlingRequests.LookedUpOnce | handler/throttling.go:79-99 | Every key received is looked up once, however often the compare-and-swap fails. |
| ThrottlingTheorems.LossesBounded | handler/throttling.go:60-62 | At most one increment is lost per generation, and in all no more than there were swaps. |
| ThrottlingTheorems.ReportExact | handler/throttlesync.go:23-31 | What a completed synchronisation collected for each key is what was incremented in its generation less what was lost, which is at most one increment over all keys. |
| ThrottlingTheorems.LostExactlyWhen | handler/throttling.go:76-101 | An increment is lost if and only if its buffer was swapped out and the synchroniser is past its key: it has read it, or has given up or finished that generation. |
| ThrottlingTheorems.LostIsNeverRead | handler/throttling.go:126-133 | An increment charged as lost goes to a cell that no later synchronisation of any continuation will read. |
| ThrottlingTheorems.OneIncrementCanBeLost | handler/throttling.go:60-62 | A run with one swap in which one of two accepted pushes is lost: the bound is met. |
| ThrottlingTheorems.CellsSeparated | handler/throttling.go:84-91 | Although copies share cell pointers, two keys of one buffer have different cells, and no cell of the live buffer or of a later retired one is reachable from an earlier retired one. |
| ThrottlingTheorems.BuffersImmutable | handler/throttling.go:84-91 | Over any run a buffer, once built, keeps its keys and cells. |
| ThrottlingTheorems.NeverOverwrites | handler/throttling.go:79-99 | Whenever the ingester is about to map a key to a fresh cell, also after a failed compare-and-swap, the map copied lacks that key; failed compare-and-swaps never exceed swaps. |
| ThrottlingTheorems.ThrottledIsLatest | handler/throttling.go:133-147 | The throttled set is the answer of the latest completed synchronisation, and empty if that one failed or was disabled or none has completed. |
| ThrottlingRequests.VerdictJustified | handler/throttling.go:165-192 | A request that was decided arrived before, in a step of the run, and is throttled if and only if one of the buckets it arrived with is in the answer of the synchronisation completed last before the step that decided it, whatever became of its pushes. |
| ThrottlingInvariants.IncrementCounts | handler/throttling.go:101 | An increment of the live buffer adds one to its key's count and nothing to any other key's. |
| ThrottlingInvariants.InsertCounts | handler/throttling.go:84-91 | A copy installed by compare-and-swap adds one to the new key's count and keeps every other key's. |
| ThrottlingHandler.Handler.constructor | handler/throttling.go:42-56 | The handler starts with an empty buffer, an empty throttled set and an empty channel. |
| ThrottlingHandler.Handler.Arrive | handler/throttling.go:180-182 | A request enters with its buckets: the step `Arrive`. |
| ThrottlingHandler.Handler.Send | handler/throttling.go:184-189 | The non-blocking send queues the bucket if the channel has room and drops it otherwise. |
| ThrottlingHandler.Handler.Offer | handler/throttling.go:183-190 | Offering the next bucket of a request is the step `Offer`. |
| ThrottlingHandler.Handler.AnyThrottled | handler/throttling.go:165-178 | The loop finds a bucket exactly if one of them is in the throttled set. |
| ThrottlingHandler.Handler.Decide | handler/throttling.go:192 | Deciding whether to throttle is the step `Decide` on the set as it stands. |
| ThrottlingHandler.Handler.Receive | handler/throttling.go:69 | Taking the head of the channel is the step `Receive`. |
| ThrottlingHandler.Handler.Load | handler/throttling.go:76-98 | Loading the buffer pointer, first or after a failed compare-and-swap, is the step `Load`. |
| ThrottlingHandler.Handler.Lookup | handler/throttling.go:79 | Looking the key up decides between incrementing its cell and copying: the step `Lookup`. |
| ThrottlingHandler.Handler.CopyWith | handler/throttling.go:84-89 | The copy loop yields a new buffer with the old buffer's cells and a fresh cell of count one for the key. |
| ThrottlingHandler.Handler.Copy | handler/throttling.go:83-89 | Building the copy is the step `Copy`. |
| ThrottlingHandler.Handler.CompareAndSwap | handler/throttling.go:91-94 | The compare-and-swap installs the copy exactly if the pointer loaded is still the live one: the step `CompareAndSwap`. |
| ThrottlingHandler.Handler.Add | handler/throttling.go:101 | The atomic add to a shared cell is the step `Add`. |
| ThrottlingHandler.Handler.IngestOne | handler/throttling.go:69-103 | An uninterrupted iteration of the loop takes one key off the channel, counts it once more in the live buffer, changes no other count and keeps the invariant, ready for the next. |
| ThrottlingHandler.Handler.Swap | handler/throttling.go:127-128 | The swap retires the live buffer and installs an empty one: the step `Swap`. |
| ThrottlingHandler.Handler.Consult | handler/throttlesync.go:19-21 | With reporting disabled the retired counts are dropped and nothing is throttled: the step `Consult`. |
| ThrottlingHandler.Handler.ReadCell | handler/throttlesync.go:26-31 | Reading one cell, whichever key comes up, is the step `ReadCell`. |
| ThrottlingHandler.Handler.ReadAll | handler/throttlesync.go:24-31 | The loop over the retired buffer, in any order, reports every key with its count. |
| ThrottlingHandler.Handler.Checkin | handler/throttlesync.go:45-54 | The answer's buckets, collected by a loop, or nothing after an error, are what is to be throttled: the step `Checkin`. |
| ThrottlingHandler.Handler.ReportIncrements | handler/throttlesync.go:16-55 | Uninterrupted, reporting accounts for all counts of the retired buffer, and yields the answered buckets exactly if it is enabled and accepted. |
| ThrottlingHandler.Handler.Publish | handler/throttling.go:147 | Storing the new throttled set is the step `Publish`. |
| ThrottlingHandler.Handler.SynchroniseOnce | handler/throttling.go:126-147 | An uninterrupted synchronisation collects all live counts, starts an empty buffer, and throttles exactly the buckets answered, none if disabled or failed. |
| FailoverInvariants.LocalKept | statusmonitor/types.go:102-169 | What one monitor keeps at every point of its loop: health against failure type and handle. |
| FailoverInvariants.OwnershipMoves | statusmonitor/zk.go:13-23 | Only a granted Create makes an owner of the node, and the node is taken away only by its owner, in whose zone's name it stands. |
| FailoverInvariants.OwnerKept | statusmonitor/types.go:132-165 | Every event of every monitor keeps: at most one owner, and the node names the owner's zone. |
| FailoverInvariants.ZoneKept | statusmonitor/types.go:132-169 | With one monitor per zone every event keeps: whoever is out of the pool, or about to leave it, is named by the node. |
| FailoverTheorems.HandleNamesHolder | statusmonitor/types.go:132-165 | For any number of monitors per zone, outside the window after a Delete at most one holds a handle, the node then names its zone, and no monitor ever deletes a node naming another zone. |
| FailoverTheorems.LeavesUnderOwnName | statusmonitor/types.go:132-156 | A monitor about to leave the pool was, earlier in the same call, at a point where the node named its own zone. |
| FailoverTheorems.OneMonitorOut | statusmonitor/types.go:132-169 | With one monitor per zone, in every interleaving with failing calls, at most one monitor is out of the pool outside the window between Delete and the write of IsHealthy, and the node names its zone. |
| FailoverTheorems.TwoZonesOut | statusmonitor/types.go:140-151 | Two monitors in one zone and a third in another: a run that takes both zones out. |
| FailoverTheorems.OneZoneOutExactly | statusmonitor/types.go:145-149 | Not counting monitors in the window between Delete and the write of IsHealthy, all runs keep all but one zone in the pool if and only if there is one monitor per zone or only one zone. |
| FailoverTheorems.EveryoneOut | statusmonitor/types.go:162-167 | Without any failing call, and for any zones, a run through that window that takes every monitor out of the pool at once. |
| FailoverTheorems.OneZoneUnhealthyExactly | statusmonitor/statusmonitor.go:16-20 | By IsHealthy alone, all runs keep all but one zone in the pool if and only if there is only one zone. |
| FailoverTheorems.HealthMatchesCause | statusmonitor/types.go:151-168 | Between calls a monitor is healthy exactly when its failure type is NoFailure, and a handle implies unhealthy. |
| FailoverTheorems.MonitoringFailureStays | statusmonitor/types.go:87-89 | From MonitoringFailure, with raven connected and no healthy report, health, failure type and handle stay as they are whatever other monitors do. |
| FailoverTheorems.CalmKept | statusmonitor/types.go:119-129 | With one monitor per zone, raven connected, Deletes applied and refused Creates leaving nothing, every event keeps: out of the pool outside the window only as owner of the node, and no node without an owner. |
| FailoverTheorems.NodeMeansUnhealthy | statusmonitor/types.go:119-169 | In such runs with one monitor per zone, at rest the node exists exactly when a monitor is unhealthy, which is the only one, and names its zone. |
| FailoverTheorems.OrphanStays | statusmonitor/types.go:160-166 | A node whose handle nobody holds stays through every continuation, and monitors of other zones that are in the pool stay there. |
| FailoverTheorems.NodeLeftBehind | statusmonitor/types.go:102-107 | For each of a disconnection, a failed Delete and an applied but refused Create, a run with no other failure leaves everyone healthy and a node that no continuation deletes, so that no other zone can ever fail over. |
| FailoverTheorems.NodeMatchesExactly | statusmonitor/types.go:132-169 | With one monitor per zone, node and health agree at rest in all runs exactly if no event of these three kinds is allowed. |
| StatusMonitors.LockService.Create | statusmonitor/zk.go:13-17 | Create is granted only if there is no node; a refused one returns an empty handle. |
| StatusMonitors.LockService.Get | statusmonitor/zk.go:26-29 | Get yields what the node names, or an error. |
| StatusMonitors.LockService.Delete | statusmonitor/zk.go:20-23 | Delete, if applied, removes the node. |
| StatusMonitors.StatusMonitor.FailoverAZ | statusmonitor/types.go:132-157 | The monitor leaves the pool exactly if the lock is granted or the node can be read and names its zone; the handle is overwritten either way; the call is a run of the protocol. |
| StatusMonitors.StatusMonitor.RecoverAZ | statusmonitor/types.go:160-169 | The monitor always rejoins; the node goes exactly if a handle was held and the Delete is applied; the call is a run of the protocol. |
| StatusMonitors.StatusMonitor.InterpretRavenStatus | statusmonitor/types.go:102-115 | Disconnected, the monitor leaves if the lock is granted or the node names its zone, and its handle is overwritten; connected again after a disconnection it rejoins; otherwise nothing changes; the call is a run of the protocol that begins with this news. |
| StatusMonitors.StatusMonitor.InterpretAZStatus | statusmonitor/types.go:119-129 | From healthy the monitor leaves exactly if it is reported unhealthy and the lock is granted or the node names its zone; from unhealthy it rejoins exactly if it is reported healthy; otherwise nothing changes; the call is a run of the protocol that begins with this report. |
| StatusMonitors.StatusMonitor.Monitor | statusmonitor/types.go:74-99 | The loop over any sequence of ticks is a run of the protocol in which the monitor is told what the ticks say, in order and nothing else, and ends healthy exactly without recorded failure and with a handle only if unhealthy. |
| Rules.Sort | controlplane/rules.go:14-26 | The result lists each rule of the map once and is ordered by rank. |
| Rules.SortedExactly | controlplane/rules.go:45-83 | The rules of a map are sorted exactly if weights never increase and, within one weight, neither does the number of criteria constrained, a path counting twice. |
| Sorting.Sort | controlplane/rules.go:24 | Sorting by comparison and swaps yields an ordered rearrangement. |
| Sorting.Swap | controlplane/rules.go:40-42 | Swap exchanges two positions and touches no other. |
| Rules.BeforeRanks | controlplane/rules.go:45-50 | The comparison is a strict order whose incomparability is transitive, as sorting needs. |
| Rules.MoreSpecificFirst | controlplane/rules.go:67-83 | Of two rules of the same weight one that constrains all the other does and more comes first; a path ranks with HOB and source together, and these rank the same. |
| Rules.MatchesExactly | controlplane/rules.go:61-116 | A rule matches exactly the requests whose path begins with its path, whose source is its own if it has one, whose HOB stands in its list if it has one, and which fall into its sample. |
| Rules.SamplersSticky | controlplane/rules.go:120-149 | A hashing sampler decides by one value of the request alone, so the same value is always treated alike, and a blank one is always sampled; the random sampler looks only at its draw. |
| Rules.WithinCsvExactly | controlplane/rules.go:165-173 | A value is in the list exactly if it has no comma and stands between two commas of the list put between commas. |
| Sampling.CountAccepted | controlplane/rules.go:155-161 | How many of the first n hash values are accepted, by whole rounds of buckets and the rest. |
| Sampling.SamplingAccuracy | controlplane/rules.go:120-162 | With a hashing sampler, a value and p > 0 a match samples exactly the requests whose value hashes to one of the first p million of a million buckets; for p < 1 the number N of the 2^64 hashes with which it does satisfies p 2^64 < N <= p 2^64 + q + r, q and r being quotient and remainder of 2^64 by 10^6. |
| Sampling.RandomAccuracy | controlplane/rules.go:132-137 | With the random sampler and 0 <= p < 1 the number N of n evenly spaced draws that are sampled satisfies p n < N <= p n + 1. |
| Sampling.SampleExtremes | controlplane/rules.go:141-151 | Proportion 0 accepts only blank values, proportion 1 everything. |
| Sampling.SampleMonotone | controlplane/rules.go:120-138 | A larger proportion accepts whatever a smaller one does, for every sampler with the same draw. |
| Router.Route | controlplane/router.go:37-51 | A forced route wins; otherwise the result is the first rule that matches, and none only if none matches. |
| Router.ForcedExactly | controlplane/router.go:138-152 | The header forces exactly the action it names, in any case, without criteria, payload or weight, and no other text and no missing header forces any. |
| Router.ForcedRouteAndMode | controlplane/router.go:54-65 | A header forces the mode h1 or h2 exactly if it forces that route and is in upper case, since only the route is upper-cased. |
| Router.ModeSet | controlplane/router.go:54-65 | The mode is the one forced, and unless one is, what is set for the HOB, and failing that by default, and failing that blank. |
| Router.WinnerIsFirst | controlplane/router.go:44-48 | The rule at the first matching position is the winner under its key in the configured map. |
| Router.RouteIsMaximal | controlplane/router.go:44-50 | A request is routed exactly if some configured rule matches, and no matching rule outranks the one it follows. |
| Router.HeaviestWins | controlplane/rules.go:45-83 | No matching rule is heavier than the one followed, and none of its weight constrains more, a path counting twice. |
| Router.OrderIrrelevant | controlplane/rules.go:18-24 | For any two map orders and unstable sorts both route or neither does, to rules of the same rank, and to the same rule if it is the only match of that rank. |
| Router.RaisingKeepsOrder | controlplane/rules.go:45-50 | An order sorts the rules exactly if it sorts them with one proportion changed. |
| Router.RaisingProportion | controlplane/rules.go:120-162 | Raising one rule's proportion, the order staying, leaves a routed request routed and moves it nowhere but to that rule. |
| Router.RaisingInAnyOrder | controlplane/rules.go:45-50 | Whatever the orders before and after, raising a proportion leads to the raised rule or to one of the same rank as before. |
| Regions.LeastKey | controlplane/router.go:77-83 | Collecting and sorting the ids in any map order yields the least one. |
| Text.LessLexicographic | controlplane/router.go:83 | Ids are ordered by the first character in which they differ, a prefix first. |
| Regions.FirstOnlineOf | controlplane/router.go:87-100 | The region if online, else its first online failover, else the region anyway. |
| Regions.ChooseRegion | controlplane/router.go:69-101 | The region returned is the first online one of the primary followed by its failovers, else the primary, an unresolved primary being the one with the least id; with the version of the same configuration. |
| Regions.ChoiceByStatus | controlplane/router.go:69-101 | In terms of ids and status: the region set for the HOB, or by default, or else the one with the least id, is chosen unless its status is OFFLINE, then the first failover that exists with another status, and itself only if there is none. |
| Regions.NoneStands | controlplane/router.go:75-85 | Without regions none is chosen. |
| Regions.FindsWhatIsSet | controlplane/regions.go:16-38 | What is found for a HOB is what is set for it, and failing that by default, and failing that blank. |
| Regions.ChoiceDeterministic | controlplane/router.go:69-101 | For every map order the choice is the same. |
| Regions.ChoiceExists | controlplane/router.go:75-100 | With regions and no nil entry there is a choice, offline only if the primary and all its failovers are. |
| ControlPlanes.ControlPlane.TryLoad | controlplane/controlplane.go:174-239 | A load errs exactly on unusable input, with the error that applies, and then changes nothing; otherwise the configuration becomes, or already is, the one parsed. |
| ControlPlanes.ControlPlane.Region | controlplane/router.go:69-73 | Region and version come from one look at the live configuration. |
| ControlPlanes.ShortcutIsStore | controlplane/controlplane.go:209-214 | With a hash that tells apart whatever can be loaded, skipping an unchanged configuration is the same as storing it. |
| Hashes.GoodHashExists | controlplane/controlplane.go:201-209 | For every parser there is a hash that is never blank and tells apart whatever can be loaded. |
| Hashes.StaleOccurs | controlplane/controlplane.go:66-81 | There are a parser and such a hash with which overlapping loads leave a stale configuration. |
| ControlPlanes.LiveIsLastUsable | controlplane/controlplane.go:174-239 | Over any history of loads the live configuration is the parse of the last usable input, or the zero configuration if there was none. |
| ControlPlanes.LiveIsValid | controlplane/controlplane.go:192-198 | Every configuration ever live is the zero one or has regions, and rules in order of rank. |
| ControlPlanes.LiveIsWhatWasParsed | controlplane/controlplane.go:190-233 | After any history with a usable input the live configuration is, part by part, what was parsed from the last one: rules in order, regions, regions and modes of HOBs, and the version without its fraction. |
| ControlPlanes.Truncate | controlplane/controlplane.go:190 | The version is the nearest integer towards zero. |
| ControlPlanes.RoutedByLastUsable | controlplane/router.go:44-48 | After any history with a usable input a routed request follows a rule of the last usable input that no other matching rule outranks. |
| Loaders.InvKept | controlplane/controlplane.go:174-239 | Every step of either loader, overlapping or not, keeps: whatever is live or about to be is what some usable input gives, and none is lost. |
| Loaders.LastUsableExactly | controlplane/controlplane.go:66-81 | With no load under way the live configuration is in all runs the usable one read last, exactly if loads do not overlap or no two usable inputs give different configurations. |
| Loaders.StaleOverwrite | controlplane/controlplane.go:209-230 | A run in which the first load compares, a reload then comes and goes, and the first load stores the older configuration for good. |
| Loaders.FirstReadsOnce | controlplane/controlplane.go:81-83 | The first loader reads once, whatever it meets. |
| Snapshots.LookFromOneSnapshot | controlplane/controlplane.go:88-94 | However reloads interleave, each answer to a request is that of one whole configuration live at some moment of the request; a region comes with the version of the same one and is the only one it allows. |
| Snapshots.QueriesExactly | handler/handler.go:84-90 | A request looks for its rule and its mode exactly if these are not forced, for the region of its HOB if it has one or its response bears one, and for the region to pin to. |
| Snapshots.InstalledDiffer | controlplane/controlplane.go:209-214 | Over any run no configuration is replaced by one of the same hash. |
| Snapshots.NothingAtFirst | controlplane/controlplane.go:88-94 | Before anything is installed no rule matches, there is no region, and no mode but a forced one. |
| Snapshots.OneInstallationExactly | handler/handler.go:82-90 | All looks of a request read one installation exactly if no configuration is installed between the first and the last, and then one configuration gives all the answers. |
| Snapshots.AnyMix | handler/handler.go:82-90 | The looks of one request can read any configurations that can follow each other, a different one each. |
| Snapshots.MixedAnswers | handler/handler.go:82-90 | A run in which no configuration there ever was gives a request's rule, region and mode together. |
| Agreement.OneConfigurationExactly | handler/handler.go:82-90 | A request's answers are those of one configuration live during it, in all runs over a set of configurations whose hashes tell them apart, exactly if any two of these and the zero one answer all its queries alike but at most one. |
| Agreement.AnswerExists | controlplane/router.go:37-101 | Every configuration has an answer to every query. |
| Agreement.AnswerUnique | controlplane/router.go:37-101 | No configuration has two answers to one query, the same draws given. |
| Marshalling.Collect | handler/marshaling.go:64-84 | One parameter loop yields the carried pairs and the code in hand, for the order the map came in. |
| Marshalling.HttpRequestToProto | handler/marshaling.go:62-119 | Each pair is sent exactly as often as wanted: once for each carried key with its first value, once for a code of length 3, never otherwise; unparsable parameters are an error. |
| Marshalling.PairsExact | handler/marshaling.go:79-83 | Whatever the order, the pairs are the wanted ones, each exactly once. |
| Marshalling.CodeOfLoop | handler/marshaling.go:69-77 | One loop leaves the same code for every order unless the map has a `hob` that is no code and a `city` that is one. |
| Marshalling.CodeOfUnambiguous | handler/marshaling.go:62-106 | For an unambiguous map the code a loop leaves is the `hob` if present, otherwise the `city` if it has three bytes and the code in hand has not, otherwise the code in hand. |
| Marshalling.BytesOfOne | handler/marshaling.go:74-76 | Length counts bytes of UTF-8: one to four for a character, by its code point. |
| Marshalling.BothCodes | handler/marshaling.go:69-77 | For such a map there are orders that leave either. |
| Marshalling.CodeDeterminedExactly | handler/marshaling.go:62-106 | Exactly when the chosen code does not depend on the map orders: the form is unambiguous, and the query is too or the form overrides the difference. |
| Endpoint.PartsAreSegments | handler/h2.go:118-120 | After cleaning, a path's parts are its non-blank resolved segments, or one blank or dot. |
| Endpoint.CleanSettles | handler/h2.go:118 | Cleaning a rooted path leaves no blank, `.` or `..` segment and nothing more to clean. |
| Endpoint.CleaningLaws | handler/h2.go:118 | Cleaning a rooted path drops blank and `.` segments, drops `..` with the segment before it or alone at the root, and keeps everything else in place. |
| Endpoint.EndpointOfPlain | handler/h2.go:117-122 | A path of plain segments goes to the service of all but the last, joined by dots after the prefix com.HailoOSS.api., and to the endpoint named by the last. |
| Endpoint.EndpointRoundTrip | handler/h2.go:117-122 | The parts of a path can be read back off service and endpoint if no part but the last has a dot. |
| Endpoint.EndpointInjective | handler/h2.go:117-122 | Such rooted paths share service and endpoint exactly if they clean to the same path. |
| Endpoint.DotsCollide | handler/h2.go:121 | Wherever a dot divides a segment of the service part into two, it collides with the end of a segment. |
| Endpoint.OwnEndpointExactly | handler/h2.go:117-122 | A rooted path shares service and endpoint with no other that cleans differently, exactly if it has one segment, or two whose first no dot divides into two segments. |
| Text.SplitJoin | handler/h2.go:120 | Splitting undoes joining for parts without the separator. |
| Text.JoinSplit | controlplane/rules.go:166 | Joining undoes splitting, and no part has the separator. |
| Text.JoinAppend | handler/h2.go:121 | Joining puts the separator between the parts, and nothing else, in their order. |

## Left out

- Throttling.Step: counts are unbounded, so the wrap-around of a cell after 2^64 increments within one generation is not modelled.
- ThrottlingHandler.Handler.SynchroniseOnce: with IngestOne and ReportIncrements it is stated for the case that no other goroutine takes a step meanwhile; the theorems about runs cover all interleavings.
- StatusMonitors.StatusMonitor.Monitor: the endless loop is modelled over any finite sequence of ticks, and alone; the theorems about runs cover interleavings with other monitors.
- Rules.Sort: rules are taken not to be nil, because the comparison dereferences them; the sort is insertion sort by the same comparison and swaps, and the results hold for every order such a sort may produce.
- Rules.Sampled: proportions are reals, so the rounding of float32 is not modelled, nor the conversion to an integer of products of 2^64 and more.
- ControlPlanes.ControlPlane.TryLoad: a call is stated for itself, and `LiveIsLastUsable` for calls one after the other; `Loaders` has overlapping ones. The copy on disk and the pauses between retries are not modelled.
- ControlPlanes.ShortcutIsStore: collisions of the configuration hash, under which a new configuration would be skipped, are excluded by assumption.
- ControlPlanes.Truncate: version numbers beyond 64 bits are not modelled.
- Marshalling.HttpRequestToProto: the body, the content type and the headers passed through are not modelled.
- ZooKeeper session expiry, which would remove the node of a live holder, and the shutdown of goroutines are no steps of the model.
- LastChanged, the status handlers, and the monitor of an instance that does not know its zone.
- The extractor's reading of requests, the session, the bucket made of its id, and the host map: a request is given by the values read off it.
- The comparison of hostnames in CorrectHostname, Urls, Rule.Id and Rules.Add: lookups that would add only easy members.
- HTTP serving, proxying, RPC dispatch, error bodies, statistics, tracing, health checks and CORS.
