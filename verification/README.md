# InnerStack: verified models of the control plane

InnerStack is a small PaaS control plane: zone leaders (zonelets) keep the desired
state of app instances in a shared key-value store, hosts (hostlets) pull it, run
containers and report back, and a gateway forwards traffic. This project models the
parts of it whose correctness is not visible in any single function, and proves what
they are for. Every model follows the branches, constants and error cases of the Go
code it cites; where code and comments differ, the code is followed.

Each `.dfy` file holds one module:

| file | what it models |
|---|---|
| `leader_lease.dfy` | zone leader election by read, compare-and-set with a TTL, and a local freshness test, under any interleaving of hosts, delays, lost and late messages |
| `audit_chain.dfy` | the hash-chained audit log: the single writer, restart recovery, daily anchors and the paged verifier |
| `package_transfer.dfy` | chunked package upload, the server's upload states, download and reassembly |
| `deploy_stages.dfy`, `deploy_barrier.dfy`, `deploy_content.dfy`, `deploy_numbers.dfy`, `deploy_entry.dfy`, `deploy_watch.dfy` | the deploy stage tree, the revision barrier kept by requests, scheduler and host reports, what each of them leaves in the tree, which request a revision number stands for, and the watcher that reads it |
| `instance_set.dfy` | the leader's cache of instances: an index and a list that share their entries |
| `block_codec.dfy`, `mon_store.dfy` | the metrics block codec, sampling and block rotation, and the range query |
| `alerts.dfy`, `crashloop.dfy` | the alert streak machine with its write-through store, and the restart window |
| `sliding_counter.dfy` | the ring cache of a cumulative counter |
| `scheduler.dfy`, `scheduler_tick.dfy`, `scheduler_run.dfy`, `host_ports.dfy` | port claims and their binding; the scheduler tick over stored records and the leader's copies, with host allocations; runs of ticks, requests and leaders; host port allocation |
| `sem_ver.dfy`, `package_versions.dfy` | version order, version lines, latest-package selection and the host's choice |
| `orphan_sweep.dfy` | quarantine and removal of abandoned containers |
| `resp_writer.dfy` | the gateway's buffering, capped, optionally compressing response writer |
| `quota_allocator.dfy` | disk quota project ids |
| `key_paging.dfy` | the filtered, paged access key listing |
| `kv_store.dfy`, `key_order.dfy`, `common.dfy` | the ordered range read, byte order of keys with fixed-width hexadecimal ids, shared datatypes |

What the code changes in place is a class with the fields of the Go struct and methods
proved against a specification function or relation; what is promised over many calls
is proved about that specification, or is the class invariant `Valid`. Failing writes,
lost replies, short range reads, random draws and clock steps are inputs or
nondeterministic choices. The record hash and CRC32 are arbitrary functions; only the
audit hash is assumed free of collisions, and only where a theorem says so.

Where a promise is false of the code, a theorem says exactly when it holds, and a lemma
gives an input for which it does not:

- A zone has at most one leader in every run exactly when it has no two hosts or all host ids match the id pattern: a leader that reads a rival's record with a malformed id keeps its own name but takes over the fresh write time (`LeaderLease.SafeExactlyWithValidIds`, `LeaderLease.TakeoverLeadsTwice`).
- The audit chain of a run verifies exactly when no record was stored on top of one whose write had failed (`AuditChain.RunVerifiesExactly`, `AuditChain.LostWriteBreaks`).
- Replacing a complete package keeps the store sound exactly unless the first chunk of the replacement has the wrong length or checksum or is not stored, or is stored without its description and differs in length from the old package (`PackageTransfer.OverwriteIsNotAtomic`, `PackageTransfer.TornOverwrite`).
- A push that resumes an unfinished upload ends with the file exactly when that upload was begun with chunks of it: asking to overwrite starts over only what is complete (`PackageTransfer.PushFile`, `PackageTransfer.ResumedContent`, `PackageTransfer.MixedUpload`).
- A metrics answer cut at the limit is the beginning of the full answer exactly when its last sample is, or equals, the last of its bucket (`MonStore.TruncatedAnswer`, `MonStore.CutInsideBucket`).
- Store and memory of an alert agree exactly when the leader says again what it said when a write last succeeded or the leader last changed (`Alerts.StoreLags`, `Alerts.LostTransition`).
- Host ports stay disjoint over a reload of stored records exactly when no port that a record gives back to an instance is held by another one, which a refused write followed by a request can bring about (`SchedulerTick.ReloadExact`, `SchedulerTick.ReloadConflict`).
- A revision number stands for one request exactly as long as no request comes while a number beyond the record's has been carried by a copy, and no copy of an earlier request is raised up to the number of a later one. Copies are sent to hosts before they are written back, so a refused or late write is enough; then a watcher can trust a report from before the request (`DeployNumbers.NumbersMeanRequests`, `DeployNumbers.RequestHasItsNumber`, `DeployNumbers.LostRaise`, `DeployNumbers.LateRaise`, `DeployWatch.LeftoverTrusted`).
- The ring of a counter stays in agreement with its history, from one sample to the next, exactly unless the sample is a rise within the second of the one before, or comes from an earlier second without a fall while the counter has moved since the first second of the window that ends there (`SlidingCounters.AgreementLost`, `SlidingCounters.ClockSteppedBack`). Which later samples undo a repeated second is said in `SlidingCounters.RepeatedSecond`. Over the full ring a delta is always 0 (`SlidingCounters.DeltaIsExact`).
- Release revisions order by their numbers as 64-bit registers hold them, so a release is older than exactly those of its revisions whose register is positive (`SemVer.RevisionOrder`, `SemVer.HugeRevision`).

## Model

| member | source | states |
|---|---|---|
| KeyOrder.HexOrder | pkg/inapi/ns.go:120-126 | ids rendered as fixed-width hexadecimal sort, as keys, exactly as their numbers |
| KeyOrder.LessTransitive | pkg/inapi/ns.go:120-126 | the byte order of keys is transitive |
| KeyOrder.LessTotal | pkg/inapi/ns.go:120-126 | any two keys are equal or ordered |
| KvStore.ReadRange | internal/audit/store.go:90-110 | a range read returns a prefix of the range, not empty when the range is not, of unknown length |
| KvStore.AfterLastKey | internal/auth/auth.go:284-330 | reading on from the last key read leaves exactly the remainder |
| KvStore.AfterMembers | internal/auth/auth.go:284-330 | a range holds exactly the items whose key sorts after its exclusive bound |
| LeaderLease.LeaseIsSafe | internal/zonelet/task_leader.go:28-101 | with valid host ids, over every interleaving of refresh steps, delays, losses, restarts and clock advance, and with writes that land long after their sender gave up, at most one host believes it leads, and writes of rivals are a full lease apart |
| LeaderLease.BeliefIsHeld | internal/status/status.go:37-41 | a host that believes it leads holds the live record, and only its own write can succeed |
| LeaderLease.SafeExactlyWithValidIds | internal/zonelet/task_leader.go:79-93 | at any time, a zone has at most one leader in every run if and only if it has no two hosts or every host id matches the id pattern |
| LeaderLease.TakeoverLeadsTwice | internal/zonelet/task_leader.go:79-93 | the interleaving by which a malformed rival id makes two hosts lead |
| LeaderLease.ExecuteKeepsInvariant | internal/zonelet/task_leader.go:38-70 | the store's side of a request keeps each host's belief backed by its own write and rival writes apart |
| LeaderLease.LandKeepsInvariant | internal/zonelet/task_leader.go:38-70 | so does a write request that arrives when nobody waits for it any more |
| LeaderLease.TakeKeepsInvariant | internal/zonelet/task_leader.go:28-101 | every protocol step keeps that |
| LeaderLease.RefreshIsRun | internal/zonelet/task_leader.go:28-101 | one refresh with any delays and losses is a sequence of protocol steps, so the safety theorem covers it |
| LeaderLease.RenewIsRefresh | internal/zonelet/task_leader.go:38-58 | the renewing branch is the protocol's refresh of a host that leads |
| LeaderLease.ElectIsRefresh | internal/zonelet/task_leader.go:60-101 | the read, acquire and observe branch is the protocol's refresh of a host that does not lead |
| LeaderLease.TakeoverIsNews | internal/zonelet/task_leader.go:68-93 | after taking over, the leader variables are the newest stored record; otherwise leader and version stay |
| LeaderLease.RenewLearns | internal/zonelet/task_leader.go:38-58 | what a renewal leaves in variables and store, in plain terms: an open one that is answered is known as it was written, and a lost reply changes nothing the host knows |
| LeaderLease.ElectLearns | internal/zonelet/task_leader.go:60-101 | what an election leaves: a live record's write time is always taken over, its holder and version unless the name is malformed or the version known; without a live record the host leads by its own answered write |
| LeaderLease.HolderFollowsLease | internal/status/status.go:37-41 | belief and lease end together for a host that knows the newest record |
| LeaderLease.Zonelet.LeaderRefresh | internal/zonelet/task_leader.go:28-117 | the refresh changes store, clock and the three leader variables as the protocol's refresh does; a leader whose write was answered and open on arrival has the newest stored record in its variables, with the arrival as its time, and one whose write was not answered keeps all three; a live record read sets the write time; a host whose variables are the newest stored record believes it leads exactly as long as that record is live; a refresh is forced if and only if a host that did not lead took a newer record over or was granted the lease |
| LeaderLease.Zonelet.Renew | internal/zonelet/task_leader.go:38-58 | the renewal: answered and open on arrival, the last write is exactly holder, version and write time of the host's variables, dated at the arrival; in every other case the variables stay as they were |
| LeaderLease.Zonelet.Elect | internal/zonelet/task_leader.go:60-101 | the election branch with its three outcomes, and exactly when it forces a refresh |
| LeaderLease.LeaseStore.Write | internal/zonelet/task_leader.go:40-43 | compare-and-set with a TTL: accepted when the key is absent, expired or the writer's own |
| AuditChain.Verify | internal/audit/store.go:262-356 | the paged verifier accepts exactly the chains whose first record is explained and whose other records link, recomputes every hash and names the first broken record |
| AuditChain.LoadAnchors | internal/audit/store.go:359-406 | only anchored heads are collected, and all of them within the scan budget |
| AuditChain.SameHeadSameHistory | internal/audit/store.go:283-348 | if two stores verify and end in the same head hash, the shorter is record for record the end of the longer |
| AuditChain.RunVerifiesExactly | internal/audit/audit.go:202-241 | after any run with clock step-backs, restarts and failed writes the ids strictly increase, and the store verifies if and only if no record was stored on top of a lost one |
| AuditChain.LostWriteBreaks | internal/audit/audit.go:202-241 | the input: of three writes the second fails, and the chain does not verify |
| AuditChain.RunLinks | internal/audit/audit.go:202-241 | every run leaves well-formed, time-ordered records, linked if and only if no lost head was built upon |
| AuditChain.LogIsHistory | internal/audit/audit.go:202-241 | the log of any run is its history: the stored rows carry, in order and nothing else, exactly the events of the writes that the store took, each with the number of drops since the write or restart before it, in 32 bits, and no row is dated before the clock of its write |
| AuditChain.RunTells | internal/audit/audit.go:202-241 | the same from any state of writer and store: earlier rows stay, and the new ones tell what was handed in |
| AuditChain.PrefixRemoval | internal/audit/store.go:325-338 | after removing the oldest records, with any retention and anchors, what remains verifies if and only if the removed prefix is empty, everything, or ends at an anchored head, or the oldest record left is itself old enough to expire |
| AuditChain.RunPrefixRemoval | internal/audit/store.go:325-338 | the same on the store a run leaves behind, against the anchors that this run pinned: the last removed record must have been the chain head when an anchor that still stands was pinned |
| AuditChain.AnchorsOfRun | internal/audit/store.go:418-458 | the stored anchors of a run are exactly the heads last pinned under each date |
| AuditChain.WrittenSorted | internal/audit/audit.go:299-307 | write order is key order |
| AuditChain.IdsIncrease | internal/audit/audit.go:299-307 | ids of later milliseconds are larger whatever their random suffixes |
| AuditChain.RecoverFindsNewest | internal/audit/audit.go:134-166 | recovery over any zones ends at the newest record of one of them, and none is later |
| AuditChain.RecoveryTest | internal/audit/audit.go:134-166 | the id comparison of recovery is a comparison of times |
| AuditChain.RestartRecovers | internal/audit/audit.go:134-166 | a restart continues the stored chain and forgets a lost head |
| AuditChain.StepKeeps | internal/audit/audit.go:202-241 | every event keeps writer and store together, and breaks the links only by storing on a lost head |
| AuditChain.Manager.RecoverChainHead | internal/audit/audit.go:134-166 | the loop over zones computes the recovered head |
| AuditChain.Manager.Emit | internal/audit/audit.go:245-256 | an event is queued, or counted as dropped when the queue is full |
| AuditChain.Manager.WriteNext | internal/audit/audit.go:202-241 | the writer takes one event off the queue and stamps it: the head becomes the hash of a record with exactly that event, linked to the head before, later than every earlier one, with the drops counted so far; an accepting store gains that one row behind the others and a refusing one nothing, while the head moves either way |
| AuditChain.Manager.AnchorRefresh | internal/audit/store.go:418-458 | the head is pinned at most once a date; a count or a write that fails uses the date up without an anchor |
| PackageTransfer.PackageServer.PackagePush | internal/zonelet/service_package.go:37-268 | the upload state machine with all its error branches, as the specification Push, of which ChunkIsRecorded, ReplacementIsFirstUpload and OverwriteIsNotAtomic say what it does |
| PackageTransfer.ChunkIsRecorded | internal/zonelet/service_package.go:119-268 | an accepted chunk in plain terms: it is stored as sent and recorded next to exactly the indices recorded before, none of them for a new package and for a replacement, whose header sets the size; the package is complete if and only if all indices are then there |
| PackageTransfer.ReplacementIsFirstUpload | internal/zonelet/service_package.go:158-176 | a replacement is answered, stored and recorded as the first chunk is by a store that has neither the package nor its chunks; refused, it leaves the old description without the chunks |
| PackageTransfer.PushKeepsInvariant | internal/zonelet/service_package.go:158-268 | a push that does not replace a complete package keeps: uploaded indices increase strictly and are in range, each with a stored chunk of the expected size, and complete means all chunks are stored |
| PackageTransfer.RunKeepsInvariant | internal/zonelet/service_package.go:119-268 | so does every sequence of pushes in any order, repeated or rejected, replacements included, as long as none of them is one that OverwriteIsNotAtomic excludes |
| PackageTransfer.NoOverwriteIsWhole | internal/zonelet/service_package.go:158-164 | a run in which nobody asks to overwrite contains no such replacement |
| PackageTransfer.OverwriteIsNotAtomic | internal/zonelet/service_package.go:158-211 | any push keeps the invariant if and only if it is not a replacement of a complete package whose chunk has the wrong length or checksum or is not stored, or is stored without the new description and is not as long as the old package |
| PackageTransfer.TornOverwrite | internal/zonelet/service_package.go:158-211 | the input: a one-byte package replaced with a wrong checksum stays marked complete without its chunk |
| PackageTransfer.InsertSorts | internal/zonelet/service_package.go:225-250 | recording an index keeps the list strictly increasing with exactly that index added |
| PackageTransfer.CompleteMeansAll | internal/zonelet/service_package.go:240-256 | a count equal to the number of chunks means every index from 0 on is there |
| PackageTransfer.AllIndicesCount | internal/zonelet/service_package.go:240-256 | increasing in-range indices that contain all chunks are as many as the chunks |
| PackageTransfer.RunKeepsContent | internal/zonelet/service_package.go:119-268 | stored chunks of a package are slices of the file its client sends, over every such run |
| PackageTransfer.ReplacementBegins | internal/zonelet/service_package.go:158-176 | an accepted replacement starts the new file, whatever the old content was |
| PackageTransfer.TransferRoundTrip | internal/cli/pkg_push.go:111-184 | end to end, from any sound store in which the package is not there or the run begins with an accepted replacement of it: once the package is complete, the concatenation a host downloads is the file the client sliced |
| PackageTransfer.SliceLength | internal/cli/pkg_push.go:121-137 | each slice has the length that the server expects of its index |
| PackageTransfer.PushFile | internal/cli/pkg_push.go:110-186 | the client loop over one buffer, with its overwrite flag, from any sound store: it refuses an empty or too large file and changes nothing, and succeeds for every other file when the package is absent, complete, or an unfinished upload of that file; a complete package is left as it is without the flag; otherwise success means that the package is complete and joins to the file exactly unless the upload it resumed was begun with other bytes; other packages are untouched |
| PackageTransfer.ResumedContent | internal/zonelet/service_package.go:213-250 | a resumed upload joins to a file only if every chunk recorded before was a slice of that file and the sizes agree |
| PackageTransfer.MixedUpload | internal/zonelet/service_package.go:213-250 | the input: an upload that one file begins and another of the same size ends, asking to overwrite, is complete with chunks of both |
| PackageTransfer.PackageDownload | internal/hostlet/pkg_download.go:155-200 | the download loop returns the joined chunks, and succeeds for a complete package |
| PackageTransfer.PackageServer.PackageChunk | internal/zonelet/service_internal.go:247-308 | a chunk is served only of a complete package and only if it is stored |
| DeployStages.PruneChildren | pkg/inapi/app.go:293-305 | the filter keeps exactly the stages that no host relays, in order |
| DeployStages.ZoneSideMembers | pkg/inapi/app.go:293-305 | a stage survives pruning if and only if it was there and is not relayed |
| DeployStages.StageTreeHasFailed | internal/cli/app_deploy_watch.go:400-413 | the recursive search agrees with the predicate on the tree |
| DeployStages.NoFailureAnywhere | internal/cli/app_deploy_watch.go:400-413 | when nothing was found, no stage at any depth has failed |
| DeployStages.FailureSomewhere | internal/cli/app_deploy_watch.go:400-413 | when something was found, there is a path to a failed stage |
| DeployStages.UpdateChildFresh | pkg/inapi/app.go:171-181 | updating or creating a child keeps a replica node free of stale relayed stages, unless it brings in a stale one itself |
| DeployStages.StampFresh | pkg/inapi/app.go:251-259 | stamping a subtree does not make a stale report look current |
| DeployContent.FindIsFirst | pkg/inapi/app.go:156-166 | a stage is found exactly when a child has its name, and it is the first of them |
| DeployContent.ReplicaIsFirst | pkg/inapi/app.go:264-290 | the node of a replica is the first child of the root that names it |
| DeployContent.RequestRecorded | internal/zonelet/service_instance.go:309-346 | a request in plain terms: an empty action and a zero cap keep the stored ones, restart is recorded as start, a cap beyond 128 is cut, and the validation, from the call's start to now, and the write of the request have succeeded under the new revision |
| DeployContent.CreationRecorded | internal/zonelet/service_instance.go:405-447 | a creation in plain terms: start at revision 1, a cap between 1 and 128, both stages recorded, no replica yet |
| DeployContent.ReconciledStages | internal/zonelet/service_instance.go:786-811 | reconciling in plain terms: under every replica node the relayed stages are gone, the others are as they were, and all carry the revision |
| DeployContent.BindingRecorded | internal/zonelet/task_scheduler.go:315-323 | a binding in plain terms: the revision raised once a tick, the stage succeeded now under it, everything else as it was |
| DeployContent.PlacementRecorded | internal/zonelet/task_scheduler.go:509-606 | an attempt in plain terms: without a host the schedule stage has failed with the reason; with one it has succeeded with the host found and chosen, and unless the host has gone address, ports and delivery are recorded and everything under the replica carries the revision; a try after a failure counts |
| DeployContent.MergedReport | internal/zonelet/service_internal.go:204-231 | the tree carries what the host reported: for every name with an entry that is not stale the node has one child, with state, attempt, times, message and revision of the last such entry; a relayed stage without one is gone; every other stage, replica and field is as it was |
| DeployContent.FailureShows | internal/zonelet/service_internal.go:213-231 | a stage last reported as failed is a failure under the node of its replica |
| DeployBarrier.UpdateKeeps | internal/zonelet/service_instance.go:341-352 | a deploy request raises the revision, leaves the root behind and so raises the barrier |
| DeployBarrier.CreateKeeps | internal/zonelet/service_instance.go:405-447 | a new instance starts at revision 1 with the barrier up |
| DeployBarrier.ReconcileKeeps | internal/zonelet/service_instance.go:786-811 | reconciling lifts the barrier, and when it is lifted no relayed stage of an earlier revision is left under any replica |
| DeployBarrier.RebindKeeps | internal/zonelet/task_scheduler.go:315-323 | binding a port or an address, with at most one raise of the revision a tick, keeps the barrier invariant |
| DeployBarrier.PlaceKeeps | internal/zonelet/task_scheduler.go:509-606 | an attempt to place a replica, with its stamping, keeps the barrier invariant in all three outcomes |
| DeployBarrier.MergeKeeps | internal/zonelet/service_internal.go:187-245 | a host report replaces what was relayed and brings in nothing stale |
| DeployBarrier.NextKeeps | internal/zonelet/types.go:41-122 | every step of a host on store and cached copy, with compare-and-set refusals and failing writes, keeps root revision at most the deploy revision and freshness when equal; the stored revision never goes back and every change takes a new version |
| DeployBarrier.NextZoneKeeps | internal/zonelet/types.go:41-122 | with a copy at every host that ever led, new leaders, old ones that go on with their copy, and restarts that lose it, every step keeps all of them |
| DeployBarrier.RunKeeps | internal/zonelet/types.go:41-122 | so does every run of any hosts |
| DeployNumbers.NumbersMeanRequests | internal/zonelet/task_scheduler.go:315-323 | over every run of any hosts, equal revision numbers mean the same request if and only if no request comes while a number beyond the record's has been carried, and no copy of an earlier request is raised up to the number of a later one |
| DeployNumbers.RequestHasItsNumber | internal/zonelet/service_instance.go:341-352 | for one request in any run: every number from its own on stands for it or a later request if and only if nothing beyond the record's number had been carried when it came, and no copy of an earlier request is raised up to its number afterwards |
| DeployNumbers.NewNumber | internal/zonelet/service_instance.go:341-352 | at the request: its number is new if and only if no number beyond the record's has been carried |
| DeployNumbers.UnambiguousStep | internal/zonelet/types.go:41-122 | one step keeps numbers unambiguous if and only if it does not clash |
| DeployNumbers.NumbersExact | internal/zonelet/task_scheduler.go:675-685 | numbers are unambiguous if and only if every request keeps below the number of the next |
| DeployNumbers.NextLedger | internal/zonelet/types.go:41-122 | every step keeps: the requests have increasing numbers, each was carried under an interval of numbers from its own on, and a copy that could be written back is about the last request |
| DeployNumbers.WrittenRaisesSuffice | internal/zonelet/task_scheduler.go:315-323 | when every raise of the revision is written at once, every number stands for one request |
| DeployNumbers.LostRaise | internal/zonelet/service_internal.go:110-161 | the input: the write of a raised copy fails, and the next request gets its number |
| DeployNumbers.LateRaise | internal/zonelet/types.go:41-57 | the input without a failing write: a copy that a request has overtaken is raised to the number of the request |
| DeployEntry.InstanceStore.AppInstanceDeploy | internal/zonelet/service_instance.go:208-447 | the request creates, updates or refuses (a deleted instance is read-only) |
| DeployEntry.AppInstanceEntry.Flush | internal/zonelet/types.go:41-57 | the copy is written back only over the version it was read at |
| DeployEntry.AppInstanceEntry.Store | internal/zonelet/types.go:90-122 | a stored record replaces the copy only when it is newer |
| DeployEntry.AppInstanceEntry.SchedulerReconcileDeployRevision | internal/zonelet/task_scheduler.go:658-670 | one reconcile step, written back only when something changed |
| DeployEntry.AppInstanceEntry.AppDeployStagesReconcile | internal/zonelet/service_instance.go:786-811 | the loop over replica nodes computes the reconciled tree |
| DeployEntry.AppInstanceEntry.SchedulerBumpRevision | internal/zonelet/task_scheduler.go:675-685 | the revision is raised unless it was raised in this tick |
| DeployEntry.AppInstanceEntry.RecordBinding | internal/zonelet/task_scheduler.go:315-329 | one binding step: raise, stamp the stage, write back |
| DeployEntry.AppInstanceEntry.RecordPlacement | internal/zonelet/task_scheduler.go:509-606 | the placement attempt, stage by stage in place, is the protocol's step in all three outcomes |
| DeployEntry.AppInstanceEntry.MergeHostReplicaStages | internal/zonelet/service_internal.go:187-245 | one merge step; deleted instances are left alone, an unchanged node is not written back; what is merged is the report, as DeployContent.MergedReport says |
| DeployEntry.ApplyReport | internal/zonelet/service_internal.go:209-231 | the loop prunes, then applies the named, not stale stages in order |
| InstanceSet.AppInstanceSet.Store | internal/zonelet/types.go:90-122 | an instance is taken over exactly when it is new or newer; index and list keep sharing the same entries, and a new one joins the end of the list |
| InstanceSet.AppInstanceSet.Refresh | internal/zonelet/types.go:59-88 | a scan is taken over record by record, and the cache is ready |
| InstanceSet.AppInstanceSet.Load | internal/zonelet/types.go:124-137 | a look-up finds the shared entry, so a change through it is seen by the list |
| InstanceSet.ScannedIsNewest | internal/zonelet/types.go:59-122 | whatever a scan returned, in any order, nothing cached is lost or goes back, and each instance ends at the newest of its cached and scanned records |
| DeployWatch.RenderDeployStages | internal/cli/app_deploy_watch.go:153-244 | the one-pass counting verdict is the verdict Judge, of which VerdictSays says when it is what |
| DeployWatch.VerdictSays | internal/cli/app_deploy_watch.go:122-244 | the verdict in plain terms: nothing while the root lags behind or is missing; then failed if and only if a stage at some depth under an expected replica has failed, over if and only if failed or every expected replica has succeeded in container_stop for stop, container_destroy for destroy and task_run otherwise, and the fallback exactly when all containers run and none of the three agent stages is there |
| DeployWatch.FailedReportIsSeen | internal/zonelet/service_internal.go:187-245 | from report to verdict: a stage of an expected replica last reported as failed ends the deploy as failed once the barrier is down |
| DeployWatch.CountReplicas | internal/cli/app_deploy_watch.go:207-229 | the counters reach the number of replicas exactly when all of them qualify |
| DeployWatch.SuccessIsCurrent | internal/cli/app_deploy_watch.go:193-243 | a terminal verdict without failure rests, for every expected replica, on a current report of the terminal stage and no failed stage at any depth |
| DeployWatch.FallbackIsCurrent | internal/cli/app_deploy_watch.go:214-243 | so does the fallback, on current reports of running containers |
| DeployWatch.WatcherTrustsNoLeftovers | internal/cli/app_deploy_watch.go:153-244 | after a request in any run the watcher is silent; any success or fallback it sees after any further steps, by any leaders, new, old or restarted, rests on reports stamped with the number of this request or a higher one, or with none (0); and every such number stands for this request or a later one if and only if none beyond the record's had been carried when it came and no copy of an earlier request is raised up to it afterwards |
| DeployWatch.LeftoverTrusted | internal/hostlet/hoststatus/hoststatus.go:469-482 | the input: after a lost write of a raised copy the next request gets the number that the host was sent before, and the watcher calls it finished on a report from before it |
| BlockCodec.BlockRoundTrip | internal/zonelet/monstore.go:211-266 | decoding inverts encoding for every pair of equally long lists that a slice can hold, with negative and wrapping differences |
| BlockCodec.VarintInverse | internal/zonelet/monstore.go:216-219 | reading a base-128 varint off any stream returns the number and the rest (Protocol Buffers Encoding, "Base 128 Varints") |
| BlockCodec.VarintPrefixFree | internal/zonelet/monstore.go:216-219 | no varint is a proper prefix of another |
| BlockCodec.GetPut | internal/zonelet/monstore.go:235-238 | the signed form is read back as it was put (Protocol Buffers Encoding, "Signed Integers") |
| BlockCodec.VarintIsBase128 | internal/zonelet/monstore.go:216-219 | a varint is its number in base 128, lowest digit first, without superfluous digits, all bytes but the last with the high bit (Protocol Buffers Encoding, "Base 128 Varints") |
| BlockCodec.ZigZagMeans | internal/zonelet/monstore.go:216-219 | numbers of either sign as 2x and -2x-1 (Protocol Buffers Encoding, "Signed Integers") |
| BlockCodec.WrapMeans | internal/zonelet/monstore.go:223-228 | a 64-bit register holds the number in its range that is congruent to the difference |
| BlockCodec.BlockLayout | internal/zonelet/monstore.go:211-230 | an encoded block is the varints of the sample count, the start, and for each sample the time since the one before and the value, in this order |
| BlockCodec.EncodeBlock | internal/zonelet/monstore.go:211-230 | the encoder loop |
| BlockCodec.DecodeBlock | internal/zonelet/monstore.go:233-266 | the decoder loop with its error at every read, and the panic on a negative or unaddressable count |
| MonStore.BlockKeyOrder | pkg/inapi/ns.go:124-133 | block keys sort like block starts, also against a bound before the epoch |
| MonStore.ScanLosesNothing | internal/zonelet/monstore.go:276-296 | the scan bounds drop whole blocks, never a sample of the window |
| MonStore.KeepIsLastOfBucket | internal/zonelet/monstore.go:319-331 | downsampling keeps exactly the last sample of every bucket, in strictly increasing buckets |
| MonStore.KeepAppend | internal/zonelet/monstore.go:319-331 | one more sample opens a bucket or replaces the last point |
| MonStore.MonQuery | internal/zonelet/monstore.go:272-334 | the query is the downsampled window of the rows read, cut at the first sample that finds the limit reached; rows that do not decode are skipped; it crashes if and only if the first sample of the window falls into bucket -1, or a row with a negative or unaddressable count comes before the limit |
| MonStore.TruncatedAnswer | internal/zonelet/monstore.go:317-327 | an answer cut at the limit has exactly that many points; it is the beginning of the full one up to its last point, and all of it if and only if the cut comes behind a bucket or at a sample equal to the last of its bucket |
| MonStore.CutInsideBucket | internal/zonelet/monstore.go:317-327 | the input: a row with two samples in one bucket and limit 1 answers the first, the full answer is the second |
| MonStore.NextKeepsBuffer | internal/zonelet/monstore.go:102-142 | every beat keeps the open block aligned, its samples inside its window and in time order |
| MonStore.StoredBlocks | internal/zonelet/monstore.go:116-142 | after any run the rows of a series are aligned, disjoint blocks in order that hold exactly the flushed samples, each in the block of its window |
| MonStore.WindowOfRun | internal/zonelet/monstore.go:272-334 | scanning any window of any run sees exactly the flushed samples of the window |
| MonStore.QueryIsExact | internal/zonelet/monstore.go:272-334 | a query that read its whole range does not crash, and below its limit returns, ascending, of the samples the run flushed for this host and field exactly those between the bounds, and with a step exactly the last of each quotient by the step |
| MonStore.NothingLost | internal/zonelet/monstore.go:102-208 | conservation: what a leader that samples at every beat has flushed of a series, followed by what it holds, is exactly what the host reported, value by value and in order |
| MonStore.FlushedAreReports | internal/zonelet/monstore.go:69-208 | with any losses, by a change of the leader or a busy flusher, only values that the host reported for this field at that time are ever flushed |
| MonStore.RunRowsClean | internal/zonelet/monstore.go:211-266 | no row that a run stored makes the decoder panic |
| MonStore.Monstore.MonstoreTick | internal/zonelet/monstore.go:102-142 | a beat resets, opens, rotates before appending, and flushes the closed block |
| MonStore.Monstore.FlushBlock | internal/zonelet/monstore.go:178-207 | whole hosts are written in any order, each with one row per field; a failing write gives up the rest, so that at most one host keeps its first fields only |
| MonStore.FlushComplete | internal/zonelet/monstore.go:178-207 | without a failing series of a sampled host the whole block is stored |
| MonStore.GroupByHost | internal/zonelet/monstore.go:181-184 | grouping keeps each host's samples in order |
| Alerts.RunIsClosedForm | internal/zonelet/alerts.go:370-456 | after any history of evaluations, removals, expiries and leader changes with successful writes an alert fires if and only if the latest run that reached its threshold was positive, and the store agrees with memory on that and on the start time |
| Alerts.MemoryIsClosedForm | internal/zonelet/alerts.go:370-456 | what the leader remembers is this closed form whatever became of the writes, if store and memory agree whenever the leader changes |
| Alerts.ShouldFireStep | internal/zonelet/alerts.go:394-436 | the closed form changes with one more step as thresholds are reached |
| Alerts.FailoverRecovers | internal/zonelet/alerts.go:173-206 | a new leader knows exactly the firing alerts with their start times |
| Alerts.FailedWriteParts | internal/zonelet/alerts.go:460-473 | on any state one step leaves store and memory in agreement if and only if it is written or a change of leader, or no transition and they agreed before, or a transition to what the store says already |
| Alerts.StoreLags | internal/zonelet/alerts.go:370-473 | after any history with any writes failing the store says what the leader said when a write last succeeded or the leader last changed, so they agree if and only if the leader says the same now; a refresh repairs a lost transition |
| Alerts.EntrySays | internal/zonelet/alerts.go:370-437 | under one leader, after any steps: a remembered alert carries the time and the last text of its sightings, fires once it was seen as often as its rule asks since it came to mind, and counts its sightings from then on |
| Alerts.RecordsAreFresh | internal/zonelet/alerts.go:370-437 | while writes succeed, under any leaders: the stored record of a firing alert has its start and is never a minute older than its last sighting |
| Alerts.KnownRules | internal/zonelet/alerts.go:75-88 | the three rules with their thresholds; no other rule is known |
| Alerts.LastSettledIsLast | internal/zonelet/alerts.go:398-473 | the point of reference is the last step that wrote successfully or changed the leader |
| Alerts.LostTransition | internal/zonelet/alerts.go:173-206 | the input: the write of a firing transition fails and the leader changes, and the new leader does not know the alert; a refresh a minute later would have stored it |
| Alerts.AlertsRuntime.AlertEvalCondition | internal/zonelet/alerts.go:370-437 | one evaluation moves one alert by the machine's step and no other; unknown rules change nothing |
| Alerts.CountPositive | internal/zonelet/alerts.go:394-420 | the positive branch: counters, refresh at most once a minute, and the firing transition |
| Alerts.AlertsRuntime.AlertResolve | internal/zonelet/alerts.go:442-456 | resolving drops the entry and, when the write succeeds, leaves a resolved record with the time, the text if there is one, and start and count as they were |
| Alerts.AlertsRuntime.AlertsLoadFromStore | internal/zonelet/alerts.go:173-206 | after loading exactly the firing records among the scanned ones are known, each as it was stored |
| Alerts.AlertsRuntime.SweepGone | internal/zonelet/alerts.go:253-267 | alerts of host rules whose target has left resolve, all others stay |
| Crashloop.WindowIsExact | internal/zonelet/alerts.go:273-325 | after every pass the window is ascending, inside the window, and as long as the counter's rises seen in it since the last reset |
| Crashloop.WithinKeeps | internal/zonelet/alerts.go:310-317 | the filter keeps every time inside the window as often as it occurs and nothing else |
| Crashloop.RunBaseline | internal/zonelet/alerts.go:276-301 | the tracker's counter is the last one seen since the instance was last gone |
| Crashloop.RestartTracker.Observe | internal/zonelet/alerts.go:285-301 | a first sighting seeds, a rise appends one time per restart, a fall clears |
| Crashloop.RestartTracker.Drop | internal/zonelet/alerts.go:310-317 | the in-place filter over the reused array |
| SlidingCounters.DeltaIsExact | internal/inutil/stat.go:71-112 | in the second of a Record, Delta is the difference of the unbounded history for every window shorter than the ring, over gaps and resets, and 0 for longer ones |
| SlidingCounters.RunAgrees | internal/inutil/stat.go:71-98 | after any representable history the ring agrees with it on its whole window |
| SlidingCounters.AgreementLost | internal/inutil/stat.go:71-98 | from agreement one sample of any time and value keeps it if and only if it is not a rise within the second of the sample before, and, coming from an earlier second, either a fall or after a window in which the counter did not move |
| SlidingCounters.ClockSteppedBack | internal/inutil/stat.go:71-98 | the input: a sample six seconds back that is no rise within its second loses the agreement |
| SlidingCounters.RepeatedSecond | internal/inutil/stat.go:86-88 | after a rise repeated in one second, the ring agrees with the history after the next sample, at the same or any later time and any value, if and only if the counter falls below the value before the rise, or does not fall and is sampled one second later, or falls back to that very value in a window that shows nothing else |
| SlidingCounters.CarryAt | internal/inutil/stat.go:90-92 | filling a gap, of any length, sets exactly the seconds of the gap |
| SlidingCounters.SlidingCounter.Record | internal/inutil/stat.go:71-98 | the ring update in place: reset, same second, or gap and step, also with a clock that steps back |
| SlidingCounters.SlidingCounter.Delta | internal/inutil/stat.go:101-112 | the clamped difference of two ring cells |
| SlidingCounters.SlidingCounter.FillGap | internal/inutil/stat.go:90-92 | the gap loop |
| HostPorts.HostPortAlloc | internal/zonelet/network/host_port.go:35-78 | an allocated port is never in use and in range; a port is found if and only if fewer than the limit are listed; a requested port is granted if and only if it is free |
| HostPorts.SomePortFree | internal/zonelet/network/host_port.go:43-46 | fewer listed ports than the range holds leave one free |
| Scheduler.OneClaim | internal/zonelet/task_scheduler.go:206-238 | in a disjoint state one host port of one host belongs to one binding of one replica of one live instance |
| Scheduler.BindKeeps | internal/zonelet/task_scheduler.go:263-325 | binding only ports that the host's list did not hold makes no port claimed twice that was not, and keeps all claims listed |
| Scheduler.CollectPorts | internal/zonelet/task_scheduler.go:156-199 | the port map holds exactly the claimed ports of live instances |
| Scheduler.RebindReplica | internal/zonelet/task_scheduler.go:255-313 | of the bindings still wanted the first of each port stays, missing ones get free ports under the name the spec gives unless the host has run out, nothing else is bound, and a complete replica is not touched |
| Scheduler.BindSpec | internal/zonelet/task_scheduler.go:568-587 | a replica being placed gets a free port, under its name, for every valid port of its spec, unless the host has run out, and for nothing else |
| Scheduler.AllocSums | internal/zonelet/task_scheduler.go:449-461 | what is allocated on a host is, for cpu, memory and volume each, the sum over the live instances of that limit times the number of their replicas there |
| SchedulerTick.PlacedAlloc | internal/zonelet/task_scheduler.go:613-624 | placing a replica adds its instance's cpu, memory and volume limits, each to its own sum, to its host and to no other |
| SchedulerTick.ReloadExact | internal/zonelet/types.go:59-122 | taking newer stored records over keeps all host ports disjoint if and only if no port that a record gives back to an instance is held by another instance |
| SchedulerTick.BackedReload | internal/zonelet/types.go:59-122 | with every write accepted there is nothing to give back, and reloading is safe |
| SchedulerTick.ReloadConflict | internal/zonelet/task_scheduler.go:150-154 | the input: a refused write of a rebinding, the freed port bound by a second instance, and a request that moves the first one's stored record on; after the reload both hold the port |
| SchedulerTick.ZoneScheduler.UpdateInstance | internal/zonelet/service_instance.go:208-447 | a request updates the stored record of a live instance, never its replicas; a deleted one is refused |
| SchedulerTick.ZoneScheduler.CreateInstance | internal/zonelet/service_instance.go:405-447 | a new instance is stored without replicas |
| SchedulerTick.ZoneScheduler.DeleteInstance | internal/zonelet/service_instance.go:546-611 | a deletion is stored and taken over at once, and adds no conflict |
| SchedulerTick.ZoneScheduler.Reload | internal/zonelet/types.go:59-122 | the loop takes over exactly the newer and the new records |
| SchedulerTick.ZoneScheduler.Flush | internal/zonelet/types.go:41-57 | a copy is written back if and only if the store takes the write and the record has not moved on |
| SchedulerTick.ZoneScheduler.RefreshPortUsed | internal/zonelet/task_scheduler.go:206-238 | unless a write is refused, the port list of every known host covers all claims on it afterwards |
| SchedulerTick.ZoneScheduler.RebindInstance | internal/zonelet/task_scheduler.go:246-346 | unless a write of the instance or of a host is refused, every valid port of the spec is bound on every replica whose host is known and has not run out; no host changes and no conflict is added |
| SchedulerTick.ZoneScheduler.Account | internal/zonelet/task_scheduler.go:450-471 | cpu, memory and volume of every open host are the integer sums, over live instances, of that limit times the number of their replicas there |
| SchedulerTick.ZoneScheduler.ExtendReplicas | internal/zonelet/task_scheduler.go:481-497 | the cap is brought into 1 to 128, and behind the replicas there are exactly the missing ones are added, unplaced, with consecutive ids |
| SchedulerTick.ZoneScheduler.PlaceOne | internal/zonelet/task_scheduler.go:479-642 | the first unplaced replica goes to the picked host with its ports bound and nothing else is placed; unless a write is refused, a host whose cpu, memory and volume were these sums has them again |
| SchedulerTick.ZoneScheduler.RunTick | internal/zonelet/task_scheduler.go:156-642 | the tick on the copies as they are: what it binds, places and adds up, and that it ends early only with a refused write |
| SchedulerTick.ZoneScheduler.SchedulerRefresh | internal/zonelet/task_scheduler.go:38-642 | every tick, wherever it ends, adds no port conflict to the copies it works on, so disjoint ports stay disjoint unless the reload gives back a port another instance holds; it never moves or drops a placed replica nor touches a deleted instance, and places at most one; if no write is refused it ends well, all ports are bound, cpu, memory and volume of the open hosts are the sums over their replicas, and the first waiting replica is on the picked host |
| SchedulerRun.RunEvents | internal/zonelet/task_scheduler.go:38-642 | over ticks, updates, creations, deletions and changes of the leader in any order, as long as the store takes every write whose version is current, no two instances claim a port of one host, neither in the leader's copies nor in the store |
| SchedulerRun.BackedDisjoint | internal/zonelet/types.go:41-57 | what the leader's copies claim disjointly and the records claim no more than, the records claim disjointly, so the next leader starts from disjoint ports |
| SchedulerRun.FirstReload | internal/zonelet/task_scheduler.go:150-154 | a leader that has read nothing takes disjoint records over as they are |
| SchedulerRun.NewZoneSound | internal/zonelet/task_scheduler.go:150-154 | a zone without records is a sound start of such a run |
| SemVer.CompareIsTotalPreorder | internal/zonelet/service_package.go:596-636 | on all strings the comparison is total, antisymmetric in sign and transitive (Semantic Versioning 2.0.0, section 11) |
| SemVer.ReleaseOrder | internal/zonelet/service_package.go:596-636 | releases x.y.z, with or without the v: the first of the three decimal numbers that differs decides |
| SemVer.NumeralOrder | internal/zonelet/service_package.go:596-636 | numerals order by length and then as text, which is how their numbers order |
| SemVer.IdentifierOrder | internal/zonelet/service_package.go:596-636 | pre-releases of one release with one identifier: numbers before texts, numbers by value, texts as byte strings (Semantic Versioning 2.0.0, section 11) |
| SemVer.RevisionOrder | internal/zonelet/service_package.go:580-589 | for every base, with or without a leading v, revisions order by their numbers as 64-bit registers hold them, and the base is older than -rM if and only if M modulo 2^64 is in 1 to 2^63-1 |
| SemVer.SmallRevisionOrder | internal/zonelet/service_package.go:580-589 | below 2^63 a release is older than its revisions -r1, -r2, which order by number |
| SemVer.HugeRevision | internal/zonelet/service_package.go:608-618 | the input: revision 10^19 is older than its release and than -r1 |
| SemVer.CandidateOrder | internal/zonelet/service_package.go:585-589 | a -rcN candidate is older than its release and than every revision of it, with or without a leading v |
| SemVer.Revision | internal/zonelet/service_package.go:608-618 | the digit loop computes the decimal number in 64 bits |
| PackageVersions.VersionMatches | internal/zonelet/service_package.go:485-512 | the component loop decides the version filter |
| PackageVersions.ShortFilterIsLine | internal/zonelet/service_package.go:475-484 | a filter of one or two parts matches exactly its own text and what continues it after a dot |
| PackageVersions.FilterMeaning | internal/zonelet/service_package.go:475-512 | the whole filter: none admits everything; with two dots or more it admits exactly its own text, with fewer also what goes on behind it with a dot; a missing version passes no filter |
| PackageVersions.FilterLatestPackages | internal/zonelet/service_package.go:517-567 | the result has exactly one entry per name, os and arch, an item that is no older than any other of them and the first among equals, sorted by name, os and arch |
| PackageVersions.LatestIsUnique | internal/zonelet/service_package.go:517-567 | there is only one such result, so map order does not show |
| PackageVersions.PackageList | internal/zonelet/service_package.go:270-327 | of the at most 1000 packages that one read returns, the latest-only query answers only such as have the name, os, arch and version line asked for and are complete unless all are asked for, and for each of these one of the same name, os and arch that is no older |
| PackageVersions.ResolvePackage | internal/hostlet/pkg_download.go:253-306 | the loop over the os and arch rungs is the search that the first answer decides: a package, one that is not ready, or a failed query |
| PackageVersions.HostGetsNewest | internal/hostlet/pkg_download.go:253-306 | with queries that read the whole store the host gets the newest match of the first rung that has one, and nothing if and only if no rung has |
| PackageVersions.HostPreference | internal/hostlet/pkg_download.go:245-306 | the order of preference in plain terms: own os and arch, own os in source form, any os in the own arch, any os in source form, unknown own values skipped; the package is a newest of the first kind offered, and nothing is found exactly when none of the four is |
| PackageVersions.ResolvedIsNewest | internal/hostlet/pkg_download.go:253-306 | the same for any list of rungs |
| OrphanSweep.RemovedAfterGrace | internal/hostlet/task_container.go:1111-1192 | a container is removed at time T if and only if the effective sweep sees it abandoned, can remove it, and its unbroken absence began with a sweep no later than T minus the grace period |
| OrphanSweep.MarkIsFirstSighting | internal/hostlet/hoststatus/hoststatus.go:265-300 | a mark is the time of the sweep with which the present absence began |
| OrphanSweep.Hostlet.ContainerOrphanSweep | internal/hostlet/task_container.go:1111-1192 | a sweep without an answered desired set of the last minute that is not empty does nothing; otherwise exactly the abandoned are quarantined, kept stopped or removed, the latter a day after their mark, and the returned restored |
| OrphanSweep.Hostlet.Recover | internal/hostlet/task_container.go:1134-1144 | exactly the marks of desired containers are cleared |
| OrphanSweep.Hostlet.Reap | internal/hostlet/task_container.go:1146-1187 | the pass over local containers moves every mark by its rule |
| RespWriter.Client.Write | cmd/ingate/main.go:1067-1102 | in chunks of at most 4096 bytes the connection receives a prefix; it succeeds if and only if every chunk was taken, then with all of it, and stops at the first that was not |
| RespWriter.ResponseWriter.Write | cmd/ingate/main.go:1178-1210 | a chunk is refused exactly when the accepted bytes with it exceed a positive cap and the response did not begin as a stream of events; otherwise it extends what is accepted, fewer than 1024 bytes stay held, the one commit carries the first status or 200 and the headers, compressed exactly when that is accepted and the response is not encoded, partial, a stream of events, an image, a video or of a compressed kind; the write fails if and only if the client does not take a chunk of it or, with compression, has not taken one before |
| RespWriter.ResponseWriter.WriteHeader | cmd/ingate/main.go:1212-1216 | the first status wins |
| RespWriter.ResponseWriter.SetHeader | cmd/ingate/main.go:1129-1132 | the headers of the embedded writer are set without being committed |
| RespWriter.ResponseWriter.CommitHeaders | cmd/ingate/main.go:1247-1271 | headers are committed once, without a length when compressed, then the held bytes are handed on; it succeeds if and only if the client takes them |
| RespWriter.ResponseWriter.WriteBody | cmd/ingate/main.go:1275-1282 | bytes go to the client, all of them on success, or all into the compressed stream, which keeps its first error and takes and sends nothing after it; the counter follows the client |
| RespWriter.ResponseWriter.Flush | cmd/ingate/main.go:1292-1303 | the first flush commits under the ordinary compression rules; later ones commit nothing |
| RespWriter.ResponseWriter.Finish | cmd/ingate/main.go:1311-1324 | if the client took every chunk, what was handed on is the concatenation of all accepted writes, byte for byte at the client without compression with equal counters; headers were committed exactly once, and a response that was never streamed carries its exact length |
| QuotaAllocator.NeverExhausted | internal/hostlet/xfsquota.go:138-158 | with at most 10001 projects a free id is found, however the offset stands |
| QuotaAllocator.OneMoreExhausts | internal/hostlet/xfsquota.go:138-158 | with 10002 projects there may be none, so the bound is tight |
| QuotaAllocator.QuotaConfig.FetchOrCreate | internal/hostlet/xfsquota.go:124-171 | ids and names stay distinct and ids in range; a known name changes nothing; a new one gets the lowest free id from the offset on |
| QuotaAllocator.QuotaConfig.Remove | internal/hostlet/xfsquota.go:174-184 | exactly the project of that name leaves the list |
| KeyPaging.AccessKeysOf | internal/auth/auth.go:284-350 | for every page size, filter and short-page behaviour of the range read, one request returns the first matches behind its token, and a token exactly when more could follow |
| KeyPaging.PageSays | internal/auth/auth.go:284-350 | a page is the first matches, as many as asked for or 100, and its token is empty exactly when no match is left |
| KeyPaging.TokenContinues | internal/auth/auth.go:299-350 | the next page continues exactly behind the last key returned |
| KeyPaging.FollowIsComplete | internal/auth/auth.go:299-350 | following tokens until the empty one yields every match once, and needs no more requests than rows |
| KeyPaging.ListingIsExact | internal/auth/auth.go:299-350 | from the empty token the listing is exactly the stored keys of the user, or of all users without one, in strictly increasing order |

## Left out

- Network and store access, TLS, the Docker driver, file systems, webhook posts, JSON and TOML encoding, and the command line output: each call is an input or a success or failure choice.
- TTL expiry of audit records and of deleted instances: the models keep rows until a step removes them. The audit verifier's test of a record's own age is modelled as a parameter of the chain predicate.
- AuditChain.Manager.WriteNext: one zone per store; listing, the live counter and several zones in one process are not modelled.
- PackageDelete and the per-package upload mutex of the package service.
- DeployEntry.AppInstanceEntry.Flush: the stage tree is a value, so sharing of nodes between the cached copy and a request, and the nil entries that the Go code skips, do not occur.
- DeployBarrier.MergeKeeps: a report that names no revision (0) is not distinguished from a current one, as in the code.
- DeployBarrier.NextKeeps: each request, scheduler action and report is one atomic step; a request that races with the middle of a tick on the same cached entry is not modelled.
- MonStore.QueryIsExact: block times are at least ten minutes after the epoch and fit ten hexadecimal digits, and one process flushes; two leaders that both flush the same block would overwrite each other's rows. Flushes run at the end of their beat instead of in the background.
- BlockCodec.DecodeBlock: a sample count whose slices could be addressed but exceed the memory at hand ends the Go process; here it runs into the end of the data.
- Alerts.AlertsRuntime.AlertsLoadFromStore: which records the one range read of at most 4096 returns is an input. Webhook notifications, host freshness and disk thresholds enter as the evaluation's sign.
- Crashloop.WindowIsExact: the window length does not change during a run.
- SchedulerTick.ZoneScheduler.SchedulerRefresh: host choice (resource fit and priorities in floating point), VPC addresses, host network setup and the stage tree are separate from the port and allocation state; the picked host is an input. Replica ids are their positions, an invariant, so sorting replicas by id changes nothing and is not performed. One leader's copies are modelled: a former leader that goes on working while another one leads is not.
- SchedulerRun.RunEvents: a request comes between ticks and makes the next tick reload; one that writes its record in the middle of a tick is the stale copy of SchedulerTick.ReloadConflict.
- DeployWatch.WatcherTrustsNoLeftovers: that a host stamps its reports with the number of a deploy it was sent is not part of the model; reports carry any numbers.
- SemVer.CompareIsTotalPreorder: the order of base versions is that of Semantic Versioning 2.0.0, section 11, with the short forms v1 and v1.2; golang.org/x/mod/semver is not part of this model.
- PackageVersions.HostGetsNewest: with more than 1000 stored packages, or a read that comes back short, the query sees only a part of them, and the host gets the newest of that part.
- OrphanSweep.RemovedAfterGrace: marks are saved at every change; a crash between a sweep and its saving is not modelled. Restart policies and archiving are reported as actions only.
- RespWriter.ResponseWriter.WriteBody: what the compressor emits, and when, is arbitrary; header fields other than content type, encoding, range and length are not modelled.
- QuotaAllocator.QuotaConfig.FetchOrCreate: projects are values, and the refresh loops that run xfs_quota are not modelled.
- LeaderLease.LeaseIsSafe: all hosts and the store share one clock. That a late request may arrive more than once is allowed although the store client need not do that.
- Gateway configuration reload, domain lookup, IP limiting, IPAM, configuration parsing, scope checks, name round trips and pretty printing: small pure helpers beside the parts above.
