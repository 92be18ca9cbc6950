# Verification models of Vibestudio's stateful cores

This project models the parts of Vibestudio whose guarantees hold only over
whole runs, under every interleaving, or across crashes, and proves those
guarantees with Dafny 4.11. `dafny verify dfyconfig.toml` checks everything.

How the models are built:

* Code between two awaits is one step. A component with awaits is a value
  `State`, an `Event` the environment chooses, and a function `Step`; a `class`
  with the source's fields has one method per segment, and each method's
  contract equates its new `View()` with `Step`. Theorems quantify over every
  sequence of events; `AnswersMayCome` says what an awaited call may answer.
* Files live on a disk (`CrashFs`) whose every call may fail and after whose
  every call a crash may strike. Directory changes reach the disk in order,
  file bytes only with `fsync` (`CrashFs.WrittenMayTear`,
  `CrashFs.SyncedSurvives`). Methods keep a trace of the disk after each
  call; contracts speak about every point of it.
* Hash functions, gzip, JSON, XML, version ranges and the like are function
  parameters; where a result needs them injective or invertible it says so.

| file | component |
|---|---|
| `RpmMetadata`, `FetchRpmRepodata`, `RetainRpmRepodata`, `RpmPublication`, `RpmMixedFetch` | RPM metadata carried from deployment to deployment |
| `ArtifactBodyCache` | byte-budgeted cache with single-flight loading |
| `ConnectCoalescer`, `ConnectJobQueue`, `ConnectLinkRouter` | overlapping pairing requests and incoming links |
| `ChangeSignal`, `ClientLaunchGate` | waiting for the server's next change |
| `FollowChannel` | following a channel's log across recoveries |
| `WsRpcClient` | ownership of WebSocket transports |
| `CrashFs`, `AtomicFile`, `SystemTestStore`, `SystemTestRuns`, `TerminalFiles` | files that survive crashes and faults |
| `TrajectoryPages` | paged retrieval of a stored text |
| `ApprovalPort`, `StartupSettling` | settling a system test's startup |
| `PackageRelease` | dependency closure of a package release |
| `WorkerPool`, `SourceInspection` | the two bounded worker pools |
| `HostState`, `ClientShims` | command table and command shims |
| `CommandLine`, `Strings` | the argument parser |
| `Selection`, `Results` | lists chosen by position; options and results |

Results worth knowing before reading the proofs:

* `writeFileAtomicSync` promises durable contents and a durable rename; a caller
  may expect the mode it asks for to be durable as well. The mode is set after
  the file's last sync, and syncing the directory does not sync the file:
  `AtomicFile.ModeDurableExactly` shows the mode survives every crash exactly
  when the umask strips none of its bits, and
  `AtomicFile.StrippedModeMayBeLost` gives a case where it does not.
* The fetch script takes the union of a repomd.xml and a manifest that may come
  from adjacent deployments. Whichever it gets, no fetch fails, and what a
  deployment names stays served for the retention period after that deployment
  was published (`RpmMixedFetch.MixedNamedStayServed`). It is not always served
  for the retention period after the deployment was replaced, as it is when both
  documents are fresh: `RpmMixedFetch.MixedServedExactly` says which objects
  outlive a publication and `RpmMixedFetch.StaleManifestMayDrop` gives a case.
* The source inspection joins every inspection it started before it throws, but
  an inspection awaits two git reads at once and ends with the first that fails.
  `SourceInspection.ReadsOutliveExactly` says which reads are then still running
  and `SourceInspection.ReadMayOutlive` gives a case.
* The coalescer's comment promises that one success satisfies every overlapping
  request. The coalescer's other guarantees hold in any wake-up order; this one
  rests on the first-in, first-out job queue, which `ConnectJobQueue` models:
  `ConnectJobQueue.SuccessSatisfiesOverlap` proves it for every run of the queue.
* Archival deletes a raw trajectory behind a compressed file it has read, not
  one it has synced. `SystemTestStore.RetirementSafeExactly` shows that this is
  safe exactly when the compressed file was synced; the store's own writes and
  archivals never leave one that was not (`SystemTestStore.WriteArtifact`,
  `SystemTestStore.KeptIsFitStart`).
* `syncClientIndex` does not look for the shim marker before it rewrites a file.
  `ClientShims.ForeignReplacedExactly` says exactly when a file the host did
  not write is replaced.

## Model

| member | source | states |
|---|---|---|
| RpmMetadata.ListingIsExact | scripts/publish/retain-rpm-repodata.py:80-81 | The manifest lists every kept record, nothing else, once per path, and in path order |
| RpmMetadata.PathExactly | scripts/publish/retain-rpm-repodata.py:21-21 | The paths accepted are `repodata/`, a digest in hexadecimal, a dash and a non-empty name of the characters allowed |
| FetchRpmRepodata.Fetch | scripts/publish/fetch-rpm-repodata.py:35-94 | The script's outcome, with its exits, is the specified one for the live deployment |
| FetchRpmRepodata.FetchSucceedsExactly | scripts/publish/fetch-rpm-repodata.py:35-94 | The fetch succeeds exactly if there is no repomd.xml, or it is signed, the manifest well formed, every node named in full and every unexpired object served with its checksum; a malformed manifest or repomd.xml ends it with its own error |
| FetchRpmRepodata.AppendNamed | scripts/publish/fetch-rpm-repodata.py:55-68 | The objects repomd.xml names join the manifest's candidates with a full retention; a node without checksum or location ends the script |
| FetchRpmRepodata.NodeRecordsExactly | scripts/publish/fetch-rpm-repodata.py:55-68 | Each node of repomd.xml gives one candidate, its own href and checksum, unless some node lacks one of them |
| FetchRpmRepodata.FetchUnexpired | scripts/publish/fetch-rpm-repodata.py:70-89 | The loop over the candidates computes the specified collection of files or its failure |
| FetchRpmRepodata.CollectSucceedsExactly | scripts/publish/fetch-rpm-repodata.py:70-89 | The collection fails exactly when some candidate is malformed, or unexpired and not served with its checksum |
| FetchRpmRepodata.CollectKeepsLast | scripts/publish/fetch-rpm-repodata.py:82-89 | What is kept for a path is its last unexpired candidate, and no unexpired candidate's path is dropped |
| RetainRpmRepodata.Retain | scripts/publish/retain-rpm-repodata.py:28-81 | The script's outcome is the specified new deployment or the specified failure |
| RetainRpmRepodata.MalformedEndsRetain | scripts/publish/retain-rpm-repodata.py:28-58 | The script ends over its manifest exactly if there is one and it is malformed, whatever else is wrong |
| RetainRpmRepodata.CarryRecords | scripts/publish/retain-rpm-repodata.py:36-58 | The first loop keeps each path's last unexpired record and copies its object unless it is there, or fails where the theorem on carrying says |
| RetainRpmRepodata.CarryExactly | scripts/publish/retain-rpm-repodata.py:36-58 | Carrying succeeds exactly when every record is well formed and, while unexpired, backed by the old tree and not in collision with the new one; then each unexpired object is in the tree under its checksum |
| RetainRpmRepodata.RenewNodes | scripts/publish/retain-rpm-repodata.py:62-78 | The second loop gives every object of the new metadata the new expiry, or fails where the theorem on renewal says |
| RetainRpmRepodata.RenewExactly | scripts/publish/retain-rpm-repodata.py:62-78 | Renewal succeeds exactly when every named object is content-addressed, present and matches; then each has the new expiry and no other record changed |
| RpmPublication.Publish | scripts/publish/retain-rpm-repodata.py:28-81 | One fetch-then-retain publication yields the specified next deployment |
| RpmPublication.FetchNeverMisses | scripts/publish/fetch-rpm-repodata.py:70-89 | From a sound deployment the fetch finds every object it looks for, with its checksum |
| RpmPublication.PublishSucceedsExactly | scripts/publish/retain-rpm-repodata.py:50-78 | From a sound deployment a publication fails exactly when the new build itself is at fault: it collides with a protected object or is not content-addressed |
| RpmPublication.NewDeploymentIsSound | scripts/publish/retain-rpm-repodata.py:58-81 | A publication leaves a sound deployment: every manifest path exists in the tree with its checksum |
| RpmPublication.PublishKeepsPromise | scripts/publish/fetch-rpm-repodata.py:51-68 | One publication keeps every unexpired promise of the deployment it replaces |
| RpmPublication.RunStaysSound | scripts/publish/retain-rpm-repodata.py:28-81 | Every deployment of any run of publications is sound |
| RpmPublication.EveryFetchSucceeds | scripts/publish/fetch-rpm-repodata.py:35-94 | In any run no fetch ever fails, so only a faulty build stops a publication |
| RpmPublication.PromiseLasts | scripts/publish/retain-rpm-repodata.py:48-58 | An object promised until some time stays deployed with its checksum at every publication before that time, however many come between |
| RpmPublication.NamedObjectsStayServed | scripts/publish/fetch-rpm-repodata.py:51-68 | What the repomd.xml live before a publication names stays served for the whole retention after it |
| RpmPublication.ExpiriesNeverShrink | scripts/publish/retain-rpm-repodata.py:62-78 | A manifest record not yet expired keeps its expiry, or its object gets a later one |
| RpmPublication.NextServesExactly | scripts/publish/retain-rpm-repodata.py:36-58 | A new deployment has the build's objects and those the fetched one named or recorded beyond now, and no other |
| RpmMixedFetch.ViewIsSound | scripts/publish/fetch-rpm-repodata.py:51-68 | Any mix of the documents of adjacent deployments, at most one stale, is as sound to fetch from as one deployment |
| RpmMixedFetch.MixedRunStaysSound | scripts/publish/fetch-rpm-repodata.py:51-89 | Every deployment of a run whose fetches see any such mixes is sound |
| RpmMixedFetch.EveryMixedFetchSucceeds | scripts/publish/fetch-rpm-repodata.py:51-89 | Whatever mixes they see no fetch ever fails, so only a faulty build stops a publication |
| RpmMixedFetch.MixedPublishKeeps | scripts/publish/fetch-rpm-repodata.py:51-68 | A promise that both documents of the newest deployment make, or both manifests, survives any mix and is then made by both manifests |
| RpmMixedFetch.MixedPromiseLasts | scripts/publish/fetch-rpm-repodata.py:51-68 | Such a promise lasts until it expires, through any mixed fetches |
| RpmMixedFetch.MixedNamedStayServed | scripts/publish/fetch-rpm-repodata.py:51-68 | What a publication names stays served, whatever mixes later fetches see, for the whole retention after that publication |
| RpmMixedFetch.MixedServedExactly | scripts/publish/fetch-rpm-repodata.py:42-89 | An object outlives a publication exactly if the build has it, the repomd.xml read names it or the manifest read records it beyond now |
| RpmMixedFetch.StaleManifestMayDrop | scripts/publish/fetch-rpm-repodata.py:42-68 | A case in which a stale manifest drops an object that the newest manifest still records |
| ArtifactBodyCache.RefinesRecencyList | src/server/artifactBodyCache.ts:14-33 | Every event changes the entries as a plain recency list would: a hit moves one key, an insert trims then appends, everything else changes nothing |
| ArtifactBodyCache.TrimIsShortest | src/server/artifactBodyCache.ts:26-30 | What an insert evicts is the shortest least-recently-used prefix that makes room |
| ArtifactBodyCache.MakeRoomTrims | src/server/artifactBodyCache.ts:26-30 | The eviction loop evicts that prefix, keeps the byte count right and never runs out of entries |
| ArtifactBodyCache.StepKeepsLoadingUncached | src/server/artifactBodyCache.ts:20-37 | A key whose load is unfinished is never cached, whatever event comes |
| ArtifactBodyCache.RunKeepsInv | src/server/artifactBodyCache.ts:13-39 | Byte account, distinct keys, exact `pending` and provenance hold in every reachable state |
| ArtifactBodyCache.BudgetHolds | src/server/artifactBodyCache.ts:24-33 | In every reachable state the counted bytes are the cached bytes, within budget, and the next eviction loop will end |
| ArtifactBodyCache.SingleFlight | src/server/artifactBodyCache.ts:20-37 | At most one load per key is unfinished, and a further get shares it |
| ArtifactBodyCache.LoadedByEvent | src/server/artifactBodyCache.ts:22-35 | A settled load's body is the one its own completion delivered |
| ArtifactBodyCache.GetAnswersFromItsOwnKey | src/server/artifactBodyCache.ts:13-39 | Every get yields a body that a load of that very key produced, or shares such a load |
| ArtifactBodyCache.Cache.GetBody | src/server/artifactBodyCache.ts:13-22 | The invariant of every run is kept, only the key's recency or a new flight changes, and the caller gets the cached body or the flight all callers of that key share |
| ArtifactBodyCache.Cache.LoadResolved | src/server/artifactBodyCache.ts:24-35 | The loop of deletions ends in the step the run theorems are about: shortest eviction, then the body last, under its own key, and never over budget |
| ArtifactBodyCache.Cache.LoadRejected | src/server/artifactBodyCache.ts:34-36 | A failed load leaves entries and bytes alone |
| ArtifactBodyCache.Cache.Finally | src/server/artifactBodyCache.ts:36 | The clean-up removes the key it was registered for and nothing else |
| ConnectCoalescer.RunKeepsInv | hosts/react-native/connectLinkRouter.js:64-82 | In every interleaving the active operation is the only unsettled one, its owner will clear it, and each caller's history is consistent with the operations |
| ConnectCoalescer.AtMostOneUnsettled | hosts/react-native/connectLinkRouter.js:74-75 | At most one connect operation is unsettled at any time |
| ConnectCoalescer.StartsAtMostOne | hosts/react-native/connectLinkRouter.js:67-81 | A caller starts at most one operation, ever, and no two callers share one |
| ConnectCoalescer.AwaitsNoneTwice | hosts/react-native/connectLinkRouter.js:67-81 | A caller awaits no operation twice and starts its own after all it awaited |
| ConnectCoalescer.AnswersAreWarranted | hosts/react-native/connectLinkRouter.js:67-77 | Who starts an operation saw every observed one report failure; who starts none returns what an operation it observed really settled with |
| ConnectCoalescer.QuiescentMeansAnswered | hosts/react-native/connectLinkRouter.js:67-81 | Once everything has settled and resumed, every caller has its answer and nothing is active |
| ConnectCoalescer.Coalescer.Resume | hosts/react-native/connectLinkRouter.js:69-80 | A resumed caller returns, retries behind a newer operation or becomes its owner as in the run theorems, and an owner clears only its own operation |
| ConnectCoalescer.Coalescer.Request | hosts/react-native/connectLinkRouter.js:66-76 | A request that finds an operation waits for it and starts none; otherwise its own becomes the active one |
| ConnectCoalescer.Coalescer.OperationSettled | hosts/react-native/connectLinkRouter.js:77-80 | A settlement changes nothing but the operation until somebody resumes |
| ConnectJobQueue.StepRefines | hosts/react-native/connectLinkRouter.js:66-80 | Every turn of the job queue is a step of the coalescer or none, so its results hold here too |
| ConnectJobQueue.ServedInOrder | hosts/react-native/connectLinkRouter.js:66-81 | A turn of the job queue takes its first job, and what it queues comes after all others |
| ConnectJobQueue.RunKeepsInv | hosts/react-native/connectLinkRouter.js:66-80 | In every run the queue holds exactly the callers that can resume, each once, and whoever has yet to hear of a settled operation is queued before the start of a newer one |
| ConnectJobQueue.SettlementsArePrompt | hosts/react-native/connectLinkRouter.js:69-77 | When an operation settles, every caller that awaited an earlier one has resumed |
| ConnectJobQueue.SuccessSatisfiesOverlap | hosts/react-native/connectLinkRouter.js:58-77 | One success satisfies every overlapping request: whoever starts an operation of its own saw no success since it asked |
| ConnectJobQueue.DrainedMeansAnswered | hosts/react-native/connectLinkRouter.js:66-81 | With an empty queue and no connect outstanding every caller has its answer |
| ConnectLinkRouter.ConnectsAtMostOnce | hosts/react-native/connectLinkRouter.js:15-55 | Over any deliveries and process restarts no URL is connected twice, and none before its marker is durable |
| ConnectLinkRouter.AcceptanceLasts | hosts/react-native/connectLinkRouter.js:48-54 | An accepted URL stays accepted until the process restarts, whatever fails |
| ConnectLinkRouter.AcceptedNeverPresented | hosts/react-native/connectLinkRouter.js:29-46 | After acceptance no delivery in that process shows the manual prompt for the URL |
| ConnectLinkRouter.DeliveryBegins | hosts/react-native/connectLinkRouter.js:15-28 | A delivery begins with its replay check, which may find the URL unmarked only if no marker was durable then |
| ConnectLinkRouter.MarkersExactly | hosts/react-native/connectLinkRouter.js:52-53 | The durable markers are exactly those deliveries have written, across restarts |
| ConnectLinkRouter.DeliveryGoesExactly | hosts/react-native/connectLinkRouter.js:15-55 | Where a delivery goes next in a run is decided exactly by the answer it receives and, for an unseen parsable link, by the claims |
| ConnectLinkRouter.ConnectingIsRecorded | hosts/react-native/connectLinkRouter.js:52-55 | A delivery that is connecting or reports Connected has its URL among those connected |
| ConnectLinkRouter.MarkedIsConnected | hosts/react-native/connectLinkRouter.js:52-55 | A delivery whose marking returned well has its URL connected, for good |
| ConnectLinkRouter.RestartForgets | hosts/react-native/connectLinkRouter.js:29-34 | A restart ends every delivery and forgets claims and acceptances; markers and connects stay |
| ConnectLinkRouter.ClaimsAreHeld | hosts/react-native/connectLinkRouter.js:29-50 | In every run the URL of each delivery past the claim is claimed |
| ConnectLinkRouter.RunKeepsInv | hosts/react-native/connectLinkRouter.js:34-55 | In every run one delivery at most is past the claim of a URL, and a connected URL can never pass again |
| ConnectLinkRouter.LinkHost.AfterReplayCheck | hosts/react-native/connectLinkRouter.js:15-34 | A delivery claims its URL only if no marker was seen and no other delivery holds it; an unparsable link is presented unclaimed |
| ConnectLinkRouter.LinkHost.AfterApproval | hosts/react-native/connectLinkRouter.js:36-52 | Refusal releases the claim before presenting; acceptance keeps it for the life of the process |
| ConnectLinkRouter.LinkHost.Route | hosts/react-native/connectLinkRouter.js:1-15 | A delivery starts with the replay marker as it is durable then |
| ConnectLinkRouter.LinkHost.AfterMark | hosts/react-native/connectLinkRouter.js:52-54 | Connecting begins only after the marker call returned; a failed one ends the delivery with its claim kept |
| ConnectLinkRouter.LinkHost.AfterConnect | hosts/react-native/connectLinkRouter.js:54-55 | A failed connect releases nothing |
| ConnectLinkRouter.LinkHost.RestartProcess | hosts/react-native/connectLinkRouter.js:29-34 | A restart loses claims and deliveries and keeps the durable markers |
| ChangeSignal.RunKeepsInv | hosts/terminal/clientLaunchGate.ts:22-53 | The waiters are exactly the unsettled waits, each at the current revision, and abort listeners are attached to exactly those with a signal |
| ChangeSignal.WaitSettlesOnce | hosts/terminal/clientLaunchGate.ts:36-52 | Under any order of bumps and aborts a wait settles at most once and then stays as it is |
| ChangeSignal.PendingSawEverything | hosts/terminal/clientLaunchGate.ts:30-38 | A pending wait has missed no bump |
| ChangeSignal.WaitEndsExactly | hosts/terminal/clientLaunchGate.ts:32-53 | In every run a wait throws if its signal was aborted before, resolves at once unless the revision it is given counts the bumps so far, and otherwise is pending until the first bump or abort of its signal decides it |
| ChangeSignal.Signal.BumpRevision | hosts/terminal/clientLaunchGate.ts:30-33 | A bump wakes all waiters of the moment, each once, over the copied set |
| ChangeSignal.Signal.BeginWait | hosts/terminal/clientLaunchGate.ts:36-52 | A wait throws on an aborted signal, resolves at once behind an old revision, and is registered otherwise |
| ChangeSignal.Signal.AbortWaits | hosts/terminal/clientLaunchGate.ts:45-50 | An abort rejects exactly the pending waits of its signal |
| ClientLaunchGate.NoLostWakeup | hosts/terminal/clientLaunchGate.ts:101-139 | While the gate is parked on a pending wait, no bump has happened since its latest launcher call began |
| ClientLaunchGate.ChangeWakesGate | hosts/terminal/clientLaunchGate.ts:135-138 | A change since that call always lets the gate go on |
| ClientLaunchGate.AskedAtLatest | hosts/terminal/clientLaunchGate.ts:121-137 | The revision the gate waits from is that of its latest launcher call, of either kind |
| ClientLaunchGate.AnswersDecide | hosts/terminal/clientLaunchGate.ts:104-139 | In every run the gate ends launched, ends unavailable, asks for a decision or parks exactly if the answer of the launcher, or its silence, says so; it ends denied exactly after a denied or rejected resolution |
| ClientLaunchGate.AsksExactly | hosts/terminal/clientLaunchGate.ts:101-137 | The launcher is asked to launch exactly at a start without an abort, asked again exactly after a wait no abort ended, and told a decision exactly if one was made |
| ClientLaunchGate.DecisionIsKept | hosts/terminal/clientLaunchGate.ts:120-127 | The decision made is the one resolved; a denied one is never followed by anything but Denied or Failed |
| ClientLaunchGate.ApprovalsAreCounted | hosts/terminal/clientLaunchGate.ts:122-127 | The reported count is the sum over the accepted resolutions, and a denial has a cause |
| ClientLaunchGate.Gate.AfterReply | hosts/terminal/clientLaunchGate.ts:103-137 | After a launcher call the gate ends, asks for a decision or waits from the revision that call began at |
| ClientLaunchGate.Gate.AfterWait | hosts/terminal/clientLaunchGate.ts:135-137 | After a wait the revision is read before the launcher is asked again; an aborted wait ends the gate |
| ClientLaunchGate.Gate.Run | hosts/terminal/clientLaunchGate.ts:98-103 | The first revision is read before the first launch, and an aborted owner launches nothing further |
| ClientLaunchGate.Gate.AfterDecision | hosts/terminal/clientLaunchGate.ts:120-122 | The revision is read anew before approvals are resolved |
| FollowChannel.RendersInOrder | src/cli/channelCommands.ts:321-325 | Across all recoveries and overlapping generations the rendered ids strictly increase |
| FollowChannel.SupersededNeverRenders | src/cli/channelCommands.ts:371-395 | Only the newest generation renders or settles `ended`, which settles once |
| FollowChannel.RendersWithoutGap | src/cli/channelCommands.ts:338-401 | With a server that delivers in order what follows each `sinceId`, the output is one contiguous stretch of the log |
| FollowChannel.RendersContiguously | src/cli/channelCommands.ts:338-401 | If the ids the server sends one subscription, in acknowledgements and own-channel payloads, are in order all that follow its `sinceId`, the output is one contiguous stretch of the log |
| FollowChannel.DueRecordRenders | src/cli/channelCommands.ts:371-386 | A due record of the newest generation renders each of its ids that is above all ids before it and the last rendered, and nothing else |
| FollowChannel.SubscribesExactly | src/cli/channelCommands.ts:338-364 | A subscription becomes the newest generation and asks for what follows the last rendered event; unless its call threw any record may follow |
| FollowChannel.EndedExactly | src/cli/channelCommands.ts:387-395 | `ended` resolves exactly at the end of the newest generation's acknowledged stream while not stopped, and fails exactly where that generation, not aborted, breaks its protocol or its stream fails |
| FollowChannel.StopIsFinal | src/cli/channelCommands.ts:342-418 | A stop or a new subscription aborts the generation before it; once stopped it stays stopped and `ended` never resolves |
| FollowChannel.ChannelFollow.ReceiveRecord | src/cli/channelCommands.ts:371-397 | A record extends the strictly increasing output only if it comes from the newest generation, and only that one can settle `ended`, once; a superseded, unacknowledged or twice acknowledged stream is ended as the source ends it |
| FollowChannel.ChannelFollow.SubscribeAgain | src/cli/channelCommands.ts:338-361 | A new generation aborts the previous one, becomes the active one and asks from the last rendered event, also when its subscribe call throws at once; then nothing settles, and in no case is anything rendered |
| FollowChannel.ChannelFollow.StopFollowing | src/cli/channelCommands.ts:413-418 | Stopping aborts the active generation and renders nothing |
| FollowChannel.ChannelFollow.RenderEvent | src/cli/channelCommands.ts:321-325 | An event is rendered exactly if it is newer than all rendered before, and the output stays strictly increasing |
| WsRpcClient.RunKeepsInv | src/cli/wsClient.ts:123-213 | In every interleaving the current transport is the newest, at most its own retirement is in force, and each transport's close was started at most once |
| WsRpcClient.AtMostOneConnect | src/cli/wsClient.ts:147-160 | At most one connect is unfinished, and it is the one `connected` holds |
| WsRpcClient.NoTransportAfterClose | src/cli/wsClient.ts:162-189 | Once close has begun no transport is ever created |
| WsRpcClient.CloseBegins | src/cli/wsClient.ts:123-130 | Both a call of close and an abort begin the close |
| WsRpcClient.ClosedExactly | src/cli/wsClient.ts:51-130 | In every run the client is closed exactly if there was a call of close or an abort, and aborted exactly if there was an abort or the signal was aborted from the start |
| WsRpcClient.CloseRetiresEverything | src/cli/wsClient.ts:123-140 | When close settles, every transport ever created had its close started exactly once and no connect is unfinished |
| WsRpcClient.ReplacedTransportsAreRetired | src/cli/wsClient.ts:187-203 | A transport is replaced only after its retirement settled |
| WsRpcClient.CloseIsNeverStuck | src/cli/wsClient.ts:123-140 | Until a close that has begun settles, the retirement or the attempt it joins, or the close itself, can always go on |
| WsRpcClient.CloseRunsOut | src/cli/wsClient.ts:123-213 | Once close has begun every further step of what was started brings its settling nearer, in every interleaving, and nothing new is started |
| WsRpcClient.ReadyIsAuthenticated | src/cli/wsClient.ts:189-212 | An attempt is ready in a state of a run only if an earlier event ended its own transport's handshake well on a client neither closed nor aborted |
| WsRpcClient.AuthenticatedIsReady | src/cli/wsClient.ts:189-212 | After every such event the attempt is ready with that transport, at every later time |
| WsRpcClient.FailedHandshakeFails | src/cli/wsClient.ts:191-205 | After a failed handshake, or one that ends on a closed or aborted client, the attempt is never ready; the retirement in force after a failed one targets its transport |
| WsRpcClient.ImportCreatesExactly | src/cli/wsClient.ts:166-190 | An attempt creates its transport exactly if the import succeeded on a client neither closed nor aborted, and fails otherwise |
| WsRpcClient.EnsureConnectsExactly | src/cli/wsClient.ts:147-160 | A call starts an attempt exactly if the client is open and none is held, and an open client then holds one |
| WsRpcClient.Client.AfterImport | src/cli/wsClient.ts:166-190 | A transport is created only while the client is neither aborted nor closed, and starts with no retirement in force |
| WsRpcClient.Client.AfterHandshake | src/cli/wsClient.ts:190-212 | A good handshake on an open client makes the attempt ready; a failed one retires its own transport, and a close or abort in between fails the attempt |
| WsRpcClient.Client.CloseClient | src/cli/wsClient.ts:123-140 | A first close retires the current transport and joins the attempt in flight; a further one changes nothing |
| WsRpcClient.Client.EnsureConnection | src/cli/wsClient.ts:147-160 | An attempt is started only if none is held and the client is open |
| WsRpcClient.Client.RunRetirement | src/cli/wsClient.ts:142-145 | A retirement starts its own transport's close, for the first time |
| WsRpcClient.Client.AfterRetirement | src/cli/wsClient.ts:193-202 | A failed attempt rejects only after its transport's retirement settled |
| WsRpcClient.Client.OnRejection | src/cli/wsClient.ts:154-157 | A rejected attempt makes room for the next |
| WsRpcClient.Client.AbortSignal | src/cli/wsClient.ts:123-130 | An abort of the owner's signal begins the close |
| WsRpcClient.Client.CloseJoined | src/cli/wsClient.ts:131-139 | Close settles once the retirement and the joined attempt have |
| AtomicFile.WriteFileAtomic | src/atomicFile.ts:23-71 | At every point a crash or reader finds the complete old or the complete new file; it returns normally exactly when no call failed, and then the new file is published, off Windows with its directory entry synced; no descriptor stays open unless its close failed; a temporary file stays only if removing it failed |
| AtomicFile.ShapeIsOldOrNew | src/atomicFile.ts:35-48 | On every disk the writer can leave, whatever a crash shows under any other name is old, and under the target old or complete |
| AtomicFile.RenamePublishes | src/atomicFile.ts:38-41 | Renaming the synced file keeps that, and makes it the target |
| AtomicFile.Replace | src/atomicFile.ts:35-48 | The try block succeeds exactly when no call failed, and says which descriptors are still open otherwise |
| AtomicFile.WriteTemporary | src/atomicFile.ts:36-40 | On success the temporary file holds the complete bytes, synced and closed; the target is as it was either way |
| AtomicFile.SyncDirectory | src/atomicFile.ts:43-48 | On success no earlier directory state can come back |
| AtomicFile.PublishedIsDurable | src/atomicFile.ts:41-48 | After a normal return no crash can show anything but the new content |
| AtomicFile.ModeDurableExactly | src/atomicFile.ts:36-48 | The requested mode survives every crash exactly when the umask strips none of its bits |
| AtomicFile.StrippedModeMayBeLost | src/atomicFile.ts:42 | Otherwise a crash after a normal return may lose it |
| AtomicFile.CleanUp | src/atomicFile.ts:49-69 | The catch block keeps the target and leaves nothing open or behind unless that very call failed |
| SystemTestStore.LoadAfterWrite | src/cli/systemTestStore.ts:101-149 | Loading an artifact, under either spelling of its name, gives the value last written |
| SystemTestStore.WriteLeavesOthers | src/cli/systemTestStore.ts:113-117 | Writing one artifact changes no other |
| SystemTestStore.WriteArtifact | src/cli/systemTestStore.ts:101-119 | The artifact then loads as written, at every point its file is the old or the new one, no compressed file is ever published unsynced, and the write fails only for an invalid name or a failed call |
| SystemTestStore.WritingKeepsTwinsSynced | src/cli/systemTestStore.ts:113-117 | A write leaves no unsynced compressed file beside a raw one where there was none |
| SystemTestStore.KeptLoadsTheSame | src/cli/systemTestStore.ts:124-149 | From a start with no unsynced compressed file beside its raw file: in every state a crash may leave during or after the archival, all artifacts load as in one state a crash could have left before it |
| SystemTestStore.KeptReadsTheSame | src/cli/systemTestStore.ts:124-149 | Without a crash every artifact loads exactly as before, at every step, whatever the start |
| SystemTestStore.RetiredIsRecoverable | src/cli/systemTestStore.ts:206-219 | A raw file missing from a state the archival brought about has a compressed twin that decompresses to its bytes, whatever the compressor did, unless that twin lay there unsynced at the start |
| SystemTestStore.KeptIsFitStart | src/cli/systemTestStore.ts:169-226 | An archival, also one that failed, leaves no unsynced compressed file beside a raw one where there was none |
| SystemTestStore.KeptComposes | src/cli/systemTestStore.ts:169-226 | Archivals one after the other, retries included, keep what one keeps |
| SystemTestStore.RetirementSafeExactly | src/cli/systemTestStore.ts:206-219 | Retiring a raw file behind a compressed one that decompresses to it is safe from a crash exactly when the compressed file was synced |
| SystemTestStore.KeptByLink | src/cli/systemTestStore.ts:201-205 | Publishing a synced compressed file loses nothing |
| SystemTestStore.KeptByRetirement | src/cli/systemTestStore.ts:206-219 | Removing a raw file loses nothing once its published twin decompresses to it |
| SystemTestStore.Compress | src/cli/systemTestStore.ts:190-200 | The temporary file holds the synced compressed form of the raw file, and no other name or file changed |
| SystemTestStore.LinkCompressed | src/cli/systemTestStore.ts:201-205 | Publication loses nothing and an existing compressed file is no failure |
| SystemTestStore.Verify | src/cli/systemTestStore.ts:206-209 | Agreement means the compressed file decompresses to the raw one; anything else means a failed call or a mismatch |
| SystemTestStore.MismatchIsOld | src/cli/systemTestStore.ts:201-209 | With a faithful compressor only a compressed file from before can mismatch |
| SystemTestStore.VerifyAndRetire | src/cli/systemTestStore.ts:206-219 | The raw file goes only after digest, identity and size agree, also against an existing compressed file; a refusal has a failed call or a mismatching older compressed file behind it |
| SystemTestStore.ArchiveThrough | src/cli/systemTestStore.ts:189-222 | Whatever fails in between, the temporary file stays only if it could not be removed |
| SystemTestStore.ArchiveOne | src/cli/systemTestStore.ts:182-222 | Archiving one file keeps all evidence at every point, and reports the sizes before and after |
| SystemTestStore.RawExactly | src/cli/systemTestStore.ts:181-181 | The names archived are exactly `trajectory-`, any non-empty text without line breaks, `-full.json` |
| SystemTestStore.ReportedIsArchived | src/cli/systemTestStore.ts:180-224 | A successful archival has counted every completed trajectory listed and, unless it was a dry run, archived every one |
| SystemTestStore.CompactTrajectories | src/cli/systemTestStore.ts:169-226 | From any start, archiving a run directory keeps all evidence at every step, failure or crash, as the theorems on what is kept say; a dry run changes nothing; on success every completed trajectory listed is counted and, unless it was a dry run, behind its compressed file, and the totals are the sums over these files; a failure has a failed call or a mismatching older compressed file behind it |
| SystemTestRuns.CompactRun | src/cli/systemTestStore.ts:174-223 | A run is archived, or fails with a cause, if its artifacts are in its own directory under the default root and its summary is there; any other is left as it was |
| SystemTestRuns.CompactCompletedRuns | src/cli/systemTestStore.ts:168-226 | Live and caller-supplied directories are untouched; a failing run ends the loop with a cause, earlier runs archived and later ones untouched; nothing is lost in any directory; the result is the total over the runs |
| TerminalFiles.GenuineFits | hosts/terminal/terminalFiles.ts:112-142 | No check refuses a page of a real file, whatever the page sizes, and its last page completes exactly that file |
| TerminalFiles.ReadingIsGenuine | hosts/terminal/terminalFiles.ts:46-79 | A server that answers each request with the next stretch of a file, of any size allowed, sends pages that count as genuine |
| TerminalFiles.VerdictIsRight | hosts/terminal/terminalFiles.ts:112-142 | Each page's verdict is right: continue only on contiguous, agreeing pages, succeed only on a complete verified file, refuse only what no file has |
| TerminalFiles.SpuriousIsNoFile | hosts/terminal/terminalFiles.ts:112-142 | Refused pages are no file's, whatever the file |
| TerminalFiles.TakePage | hosts/terminal/terminalFiles.ts:112-138 | One turn of the loop gives that verdict, has written exactly the accepted bytes, and is interrupted only by a failed write |
| TerminalFiles.DownloadPages | hosts/terminal/terminalFiles.ts:101-143 | Whatever the server answers, the loop ends within the total plus one pages; it succeeds only with contiguous pages of one hash covering the whole file, refuses only pages no file has, and is interrupted only by a failed write or when the answers end |
| TerminalFiles.LinkPublishes | hosts/terminal/terminalFiles.ts:56-60 | Linking a complete synced file to a free name publishes it |
| TerminalFiles.Create | hosts/terminal/terminalFiles.ts:51-53 | The temporary file is new and private, or nothing was made |
| TerminalFiles.Publish | hosts/terminal/terminalFiles.ts:54-60 | At every point the destination is untouched, or was free and is complete; it fails only for a failed call, an abort or an existing destination |
| TerminalFiles.Retire | hosts/terminal/terminalFiles.ts:65-68 | The clean-up closes the handle once and leaves the temporary file only if unlinking failed |
| TerminalFiles.Finish | hosts/terminal/terminalFiles.ts:46-79 | Success means complete bytes at a name that was free; failure has a cause and means nothing changed, unless only the clean-up failed |
| TerminalFiles.Download | hosts/terminal/terminalFiles.ts:99-145 | A download never replaces a file; under any server, fault or crash the destination is absent or the verified file; and it fails only for an abort, a failed call, an existing destination, or pages that end early or that no file has |
| TerminalFiles.SaveText | hosts/terminal/terminalFiles.ts:149-155 | The same for a saved text, which fails only for an abort, a failed call or an existing destination |
| TrajectoryPages.FetchTrajectory | src/cli/systemTestCommands.ts:820-861 | Retrieval ends within one page per character, returns only the one stored text its pages can come from, refuses only pages no text has, and otherwise has used up the answers |
| TrajectoryPages.GenuineFits | src/cli/systemTestCommands.ts:836-855 | No check refuses a page of a stored text |
| TrajectoryPages.ReadingIsGenuine | src/cli/systemTestCommands.ts:820-835 | A store that answers each request with the next stretch of a text, of any size above zero, sends pages that count as genuine |
| TrajectoryPages.VerdictIsRight | src/cli/systemTestCommands.ts:836-857 | A page is refused only if no text has it, ends the retrieval only with the whole text, and otherwise leaves the pages in order |
| TrajectoryPages.CompleteIsRetrieved | src/cli/systemTestCommands.ts:853-860 | A complete retrieval is the chunks in order, of the announced length, and the only text these pages can come from |
| ApprovalPort.StepKeepsInv | src/cli/systemTestCommands.ts:1417-1450 | Waiters are the unsettled waits, all at the current revision; changes, timers and the close settle each wait once |
| ApprovalPort.WaitEndsExactly | src/cli/systemTestCommands.ts:1417-1455 | In every run a wait is over at once exactly if the revision it is given does not count the changes so far, and otherwise with the first change, close or own timer |
| ApprovalPort.Port.OnChanged | src/cli/systemTestCommands.ts:1419-1423 | A change finishes every waiter while each takes itself out of the set |
| ApprovalPort.Port.OnTimer | src/cli/systemTestCommands.ts:1441-1448 | A timer finishes its own wait only |
| ApprovalPort.Port.WaitForChange | src/cli/systemTestCommands.ts:1435-1449 | A wait from an old revision is over at once |
| ApprovalPort.Port.OnClose | src/cli/systemTestCommands.ts:1451-1455 | The close lets every waiter go on without a change of revision |
| StartupSettling.ResolvesExactlyChanges | src/cli/systemTestCommands.ts:1264-1288 | Only managed reviews are resolved: in order those whose mode, or some part's identity, version or change, differs from the review listed last before for the slot; the reported part count and slots are those of the resolutions |
| StartupSettling.FingerprintExactly | src/cli/systemTestCommands.ts:1275-1282 | Two fingerprints are equal exactly if modes, number of parts and, part by part, identity, effective version and change are |
| StartupSettling.ChangesExactly | src/cli/systemTestCommands.ts:1267-1288 | The reviews the bookkeeping by fingerprint picks from a listing history are those that differ in such a way from the one listed last before for their slot |
| StartupSettling.ConsidersWhatIsListed | src/cli/systemTestCommands.ts:1264-1288 | Every managed review listed is dealt with, in order |
| StartupSettling.IterationReads | src/cli/systemTestCommands.ts:1255-1290 | The loop decides on the status and reviews of its own iteration, and waits from the revision at its head |
| StartupSettling.ReturnIsJustified | src/cli/systemTestCommands.ts:1290-1330 | A return saw in its own iteration a creation review not required or resolved and no managed review, and a doctor that is ready or misses more than builds on their way |
| StartupSettling.IterationEndsExactly | src/cli/systemTestCommands.ts:1290-1336 | An iteration returns, with the status it read, exactly if it saw a completed creation review and no managed review, and the doctor is ready or misses more than builds; otherwise it times out if late, or waits from the revision at its head |
| StartupSettling.ReviewEndsExactly | src/cli/systemTestCommands.ts:1257-1264 | The loop throws over the creation review exactly if it failed or was dismissed |
| StartupSettling.CallsFollow | src/cli/systemTestCommands.ts:1254-1257 | First the subscription, then each iteration from the revision at its head; a failed call ends the loop, which then stays ended |
| StartupSettling.ResolutionAdvances | src/cli/systemTestCommands.ts:1284-1288 | A resolution that succeeded is on record with its slot, and the loop goes on to a later review or to the doctor |
| StartupSettling.WaitsExactly | src/cli/systemTestCommands.ts:1367-1399 | The doctor merely waits for builds exactly if the first required-extensions check shows a transient state and no other check failed |
| StartupSettling.NeverWaitsPastChange | src/cli/systemTestCommands.ts:1256-1336 | After a change announced since the iteration began the loop is never left waiting |
| StartupSettling.RunKeepsInv | src/cli/systemTestCommands.ts:1228-1339 | In every run the records of resolutions, fingerprints, ids and part count agree |
| StartupSettling.ManagedOf | src/cli/systemTestCommands.ts:1341-1349 | The filter keeps only managed reviews that are pending, and is empty exactly when there are none |
| StartupSettling.ManagedExactly | src/cli/systemTestCommands.ts:1265-1349 | What the filter keeps is, in order, every pending review of the kind, mode and callers named there |
| StartupSettling.Settlement.Resume | src/cli/systemTestCommands.ts:1267-1284 | The loop over the reviews skips exactly the known ones up to the next call |
| StartupSettling.Settlement.AfterDoctor | src/cli/systemTestCommands.ts:1290-1336 | An iteration ends in a justified return, in the time-out, or in a wait from the revision it began with |
| StartupSettling.Settlement.AfterReviewState | src/cli/systemTestCommands.ts:1257-1264 | A failed or dismissed creation review ends the loop |
| StartupSettling.Settlement.AfterListing | src/cli/systemTestCommands.ts:1264-1284 | Every listed managed review is considered before the doctor is asked |
| StartupSettling.Settlement.AfterResolution | src/cli/systemTestCommands.ts:1284-1287 | Only a resolution that succeeded is remembered and counted |
| StartupSettling.Settlement.AfterWait | src/cli/systemTestCommands.ts:1256-1257 | The next iteration reads the revision first |
| PackageRelease.CheckRelease | scripts/lib/userland-package-release.ts:26-82 | A release is accepted exactly when its artifacts are well identified, are those reachable from the declared dependencies, every edge among them is met, and no override is contradicted; each rejection names a true cause, and only an empty release has no artifacts |
| PackageRelease.Walk.Visit | scripts/lib/userland-package-release.ts:59-70 | The recursion ends on cyclic dependencies; it leaves a closed set of reachable artifacts, or there is an unmet edge |
| PackageRelease.ClosedIsClosure | scripts/lib/userland-package-release.ts:71-73 | Such a set is everything reachable, and all edges are met, also those back to visited artifacts |
| PackageRelease.Index | scripts/lib/userland-package-release.ts:30-57 | The map is built exactly when names are unique and every artifact is sound |
| PackageRelease.CheckOverrides | scripts/lib/userland-package-release.ts:74-82 | Overrides pass exactly when every selected artifact satisfies them |
| WorkerPool.ClaimsAreInOrder | src/cli/releaseVerifierRunner.ts:24-31 | Under every schedule items are handed out in source order, each at most once |
| WorkerPool.InFlightIsBounded | src/cli/releaseVerifierRunner.ts:26-28 | At most the pool's limit of items is in flight |
| WorkerPool.BatchFillsEverySlot | src/cli/releaseVerifierRunner.ts:32-53 | A finished batch has every slot filled, with the outcome that source's own call gave in the run or, where none was made, with the abort reason |
| WorkerPool.FirstAbortCounts | src/cli/releaseVerifierRunner.ts:41-53 | The abort reason is that of the first abort, if the pool watches for one and had not finished |
| WorkerPool.InspectionJoins | src/workspaceTemplateSource.ts:175-192 | The inspection answers only with each source's own result at its index, throws only reasons its own inspections failed with, and either way every inspection it started has ended |
| SourceInspection.PoolRefines | src/workspaceTemplateSource.ts:114-179 | With its two git reads modelled an inspection is still one call of the pool, so the pool's results hold |
| SourceInspection.InspectionEndsExactly | src/workspaceTemplateSource.ts:114-179 | An inspection is over exactly with its answer or its own failure, or with the first of its reads to fail, and that is what its worker passes on |
| SourceInspection.ReadsOutliveExactly | src/workspaceTemplateSource.ts:126-185 | When the inspection of all sources is over a read still runs exactly if it has not settled and the read beside it failed; none runs when the inspection answers |
| SourceInspection.ReadMayOutlive | src/workspaceTemplateSource.ts:126-183 | A case in which the inspection throws while a read of it is running |
| WorkerPool.StepsRunOut | src/cli/releaseVerifierRunner.ts:28-39 | No schedule goes on for ever: every start and settled call brings the pool nearer to its end |
| WorkerPool.SomeStepIsEnabled | src/cli/releaseVerifierRunner.ts:26-53 | An unfinished pool is never stuck once its calls settle |
| WorkerPool.RunKeepsInv | src/workspaceTemplateSource.ts:175-180 | In every run each item handed out has its outcome or its worker, or a worker died |
| WorkerPool.Pool.SettleCall | src/cli/releaseVerifierRunner.ts:32-38 | The pool invariant is kept; an outcome goes to its own item's slot before the worker claims the next, and where failures are fatal the worker dies instead |
| WorkerPool.Pool.StartWorker | src/cli/releaseVerifierRunner.ts:26-31 | The pool invariant is kept; a worker claims the next item or returns, and claims none after an abort |
| WorkerPool.Pool.Join | src/cli/releaseVerifierRunner.ts:41-53 | The pool invariant is kept; exactly the empty slots of an aborted batch are filled, with the abort reason |
| HostState.BuildCommandTable | hosts/terminal/hostState.ts:58-86 | A command is registered exactly when one listing claims it and it is not built in; every other claim is rejected with the right reason |
| HostState.GroupClaims | hosts/terminal/hostState.ts:64-71 | The map groups the claims by command, each with its claimants in listing order |
| HostState.ClaimantsExactly | hosts/terminal/hostState.ts:64-71 | The claimants of a command are, in order, the terminal listings that name it |
| HostState.RejectAll | hosts/terminal/hostState.ts:73-80 | Every claimant of the command is rejected once per claim, for the given reason |
| HostState.ClaimsAreSplit | hosts/terminal/hostState.ts:64-85 | Every claim is registered or rejected, as often as it was made |
| HostState.OrderDecidesNothing | hosts/terminal/hostState.ts:64-85 | The order of the listings changes neither what is registered nor what is rejected |
| HostState.TerminalHostState.SetDevelopment | hosts/terminal/hostState.ts:129-134 | One client's development mode changes and nothing else does, or the data is as before |
| HostState.TerminalHostState.SetClientIndex | hosts/terminal/hostState.ts:141-146 | Commands and clients are replaced in one write, or the data is as before |
| HostState.TerminalHostState.RecordShim | hosts/terminal/hostState.ts:148-152 | One shim is recorded, nothing else changes |
| HostState.TerminalHostState.ForgetShim | hosts/terminal/hostState.ts:154-158 | One shim is forgotten, nothing else changes |
| ClientShims.ScriptIsOurs | hosts/terminal/clientShims.ts:27-38 | Every shim the host writes bears the marker the host looks for |
| ClientShims.ScriptExactly | hosts/terminal/clientShims.ts:27-29 | A shim is the shell line, the marker and the call of that very invocation, and different invocations give different files |
| ClientShims.InvocationExactly | hosts/terminal/clientShims.ts:20-25 | A shim runs the client's command exactly if the client alone claims it and it is not built in, and opens the client otherwise |
| ClientShims.IndexExactly | hosts/terminal/clientShims.ts:107-117 | The client index holds exactly the terminal clients listed, each with the intents of its last listing |
| ClientShims.LinkClientShim | hosts/terminal/clientShims.ts:53-76 | Linking never replaces a file the host did not write, refuses for exactly the stated reasons, faults only when a call failed, and on success the file and its record agree |
| ClientShims.UnlinkClientShim | hosts/terminal/clientShims.ts:79-90 | Unlinking removes only a marker-bearing file under a recorded name, says whether it did, forgets the record, and fails only for an unknown name or a failed call |
| ClientShims.RecordsAreCurrent | hosts/terminal/clientShims.ts:120-132 | After a sync the recorded shims are those whose client is listed, each with its current invocation |
| ClientShims.FilesAreCurrent | hosts/terminal/clientShims.ts:120-131 | After a sync an unrecorded file is as before, the shim of an unlisted client is gone unless it bears no marker, and one whose invocation changed is that of its client's first listing |
| ClientShims.SyncIsIdempotent | hosts/terminal/clientShims.ts:105-134 | A second sync with the same listings changes neither records nor files |
| ClientShims.ForeignReplacedExactly | hosts/terminal/clientShims.ts:127-131 | A file the host did not write is replaced by a sync exactly where a recorded shim's client is listed with a changed invocation |
| ClientShims.ForeignMayBeReplaced | hosts/terminal/clientShims.ts:127-131 | A case in which a sync replaces a file the host did not write |
| ClientShims.SyncShim | hosts/terminal/clientShims.ts:120-131 | One recorded shim is unlinked, rewritten or left, as its client's listing demands; no other file is touched |
| ClientShims.SyncClientIndex | hosts/terminal/clientShims.ts:105-134 | The sync succeeds exactly when no call failed, and then leaves the table, records, files and removed names specified; it never touches an unrecorded name |
| ClientShims.SyncTwice | hosts/terminal/clientShims.ts:105-134 | Syncing again with the same listings changes neither files nor records and removes nothing |
| CommandLine.ParseInvocation | src/cli/commandTable.ts:85-148 | The parser accepts exactly the argument lists the grammar can write and returns what they mean |
| CommandLine.LongSpecExactly | src/cli/commandTable.ts:106-116 | A long flag means the first declared flag of that name; without one, `plain` where `json` is declared, and nothing otherwise |
| CommandLine.LegalExactly | src/cli/commandTable.ts:99-138 | For flags declared with distinct names the items of the grammar are exactly the declared flags, by name or first letter, spelled with a fitting value, and the positionals |
| CommandLine.FailsExactly | src/cli/commandTable.ts:92-141 | The parser fails with an error exactly if legal items are followed by the first argument that offends in that way: an unknown flag, a missing value or a boolean flag with another value |
| CommandLine.ReadExactly | src/cli/commandTable.ts:92-142 | Each accepted list is written in exactly one way |
| CommandLine.MeaningExactly | src/cli/commandTable.ts:86-91 | The result holds exactly the flags given, each with its last value, all values of repeatable flags in order, and the positionals in order |
| CommandLine.PrintedParses | src/cli/commandTable.ts:95-136 | Any assignment of flags declared with distinct names, printed inline and mixed with positionals, then `--` and any positionals, parses back to itself |
| CommandLine.DistinctAssignment | src/cli/commandTable.ts:122-138 | With each flag given once the parsed flags are the assignment |
| CommandLine.TwoTokensAreInline | src/cli/commandTable.ts:122-131 | A value flag in two tokens instead of one never changes the result, errors included |
| CommandLine.TakeFlag | src/cli/commandTable.ts:101-138 | A flag is read with its value and length, or fails, as the grammar says |

## Left out

- AtomicFile.WriteFileAtomic: the durability of parent directories `mkdirSync` creates, and how the random temporary name is chosen (any name but the target).
- SystemTestStore.CompactTrajectories: there is no concurrent writer; the directory is never synced by the source, so the result rests on directory changes reaching the disk in order; modification times are not modelled, so the before-and-after comparison is on file identity and size.
- SystemTestRuns.CompactCompletedRuns: the list of runs and what each directory lists are given; reading and sorting the run records, and the error of a malformed one, are not modelled. Two runs never share a directory.
- SystemTestStore.KeptLoadsTheSame: promises nothing about a raw file beside an unsynced compressed one, behind which the source can lose it (`SystemTestStore.RetirementSafeExactly`); the store itself never makes such a pair.
- ConnectJobQueue.SuccessSatisfiesOverlap: what `connect` does between its start and its settlement is one event of the environment's choosing.
- FollowChannel.RendersContiguously: the server's delivery order is an assumed contract; the caller's `render` is assumed not to throw, and the failing first subscription and channel ids are not modelled.
- WsRpcClient.CloseRetiresEverything: `createInternalRpcClient` is taken not to throw after the handshake (it runs after the last check), and what a transport's own close does is not modelled.
- StartupSettling.NeverWaitsPastChange: assumes the approval port's `waitForChange` is there; the polling fallback for callers without it, status lines and the port's own event subscription are not modelled.
- WorkerPool.InspectionJoins: an inspection is one call; which of its git reads may still run after it is the subject of `SourceInspection`, where what else an inspection awaits remains one step.
- WorkerPool.BatchFillsEverySlot: an abort after the batch has returned is not an event; calls that never settle leave the batch unfinished, as in the source.
- CommandLine.ParseInvocation: flag names that are properties of every JavaScript object (such as `__proto__`) are not modelled; neither are help texts and command lookup.
- ClientShims.SyncClientIndex: a failing write ends the sync part-way; what is then promised is only that unrecorded names are untouched. Names that are properties of every JavaScript object are not modelled.
- RpmPublication.NamedObjectsStayServed: the fetch sees one deployment; mixed ones are the subject of `RpmMixedFetch`. Signatures are carried but not modelled.
- RpmMixedFetch.MixedNamedStayServed: at most one of the two documents is stale, and by one deployment; objects are never stale, every content-addressed path of a build holds what it says, and the objects of both deployments are served.
- PackageRelease.CheckRelease: archive paths, digests and packed manifests are one soundness flag per artifact; the installation after the check is not modelled.
- TerminalFiles.Download: base64 and the RPC envelope are not modelled; uploads and local reads are not modelled.
- Hashing, gzip, JSON, XML and version ranges are function parameters, not models.
- `RpcClient` with its retry path, ownership ledgers, process spawning, native code and the wire protocols: they rest on code outside these files.
- User interface, help text, completion scripts, build configuration, git plumbing and deployment smoke scripts: thin wrappers with no state of their own.
