# Verified model of the operator's algorithms and protocols

The operator reconciles Kubernetes objects with NSX. Most of it is calls to the two systems; the parts
modelled here are the ones that compute or coordinate something themselves. Each part is a group of
modules: definitions and the laws about them, and, where the Go code changes state step by step, a class or
method that is proved against those definitions.

| part | modules |
|---|---|
| Parallel clean-up of VPCs | `VpcCleanup`, `VpcCleanupInvariant`, `VpcCleanupSafety`, `VpcCleanupTermination`, `VpcCleanupAttempts`, `VpcCleanupWorker` |
| A CIDR minus a list of CIDRs | `Intervals`, `IpBytes`, `Cidr`, `IpRanges`, `IpRangeSteps`, `IpRangeMapped`, `IpRangeLists`, `IpRangeResults`, `IpRangeWraps`, `IpRangeIpv4` |
| Gateway IP cache and its ListenerSet index | `GatewayIpCache`, `GatewayIndex`, `GatewayConcurrency`, `GatewayIpCacheStore` |
| Lock of shared-Subnet synchronisation | `SharedSubnetLock`, `SharedSubnetSyncs` |
| Mirror of NSX port settings | `PortConfigMirror`, `PortConfigSync` |
| Inventory batching | `InventoryBatch`, `InventoryNews`, `InventoryProgress`, `InventoryController` |
| SubnetPort creation for Pods | `SubnetPortCreate`, `PodReconciler` |
| StatefulSet ports | `StatefulSetOrdinals`, `StatefulSetRelease` |
| Trunk and branch bindings | `BindingTopology`, `BindingRuns`, `BindingExamples`, `BindingReconciler` |
| Admission of Subnet updates | `SubnetAdmission` |
| DNS endpoint of a Route | `RouteSelection` |
| Names and ids | `Naming` |
| Shared | `Common`, `Ordering` (sorting, byte order of strings), `WorkQueue` |

Concurrent parts are step systems. A state holds what the goroutines share and where each of them stands, a
step is one atomic action, and a run is any sequence of steps: the scheduler, failures, cancellations and
other actors are arbitrary. A class beside a step system holds the Go code of one goroutine, and its
contracts say which steps that code takes.

What is relied on, and not proved:

- the work queue of client-go keeps a queue, and dirty, processing and delayed sets, with one failure
  counter per key, as in `WorkQueue`; a delay may end at any time;
- `sync.Map` operations, mutex sections, channel operations and requests to the API server are atomic;
- one lookup in the store of bindings, by one path, and the arrival or removal of one binding there are atomic, and
  a binding that NSX lists is the one that was sent;
- a request to the API server, and a call to NSX that fails, changes nothing, except where partial effects
  are named (bindings);
- SHA-1 and FNV are arbitrary functions.

## Findings

The code does not meet its description on every input. Each case has a lemma with an input that shows it,
and a theorem that says when the code is right.

- **CIDR subtraction.** The addresses before and after an except are computed even where the family has none
  (`pkg/util/ip.go:208-209`), and IPv4-mapped addresses among IPv6 ones are compared as numbers below 2^32.
  255.255.255.255/32 minus itself yields all of IPv4 (`LastMinusItself`); ::fffe:ffff:ffff/128 minus itself yields
  a range that starts at 0.0.0.0 (`GapMinusItself`); ::1:0:0/96 minus ::/80, which holds it, stays whole
  (`ExceptEndingMapped`); ::/96 minus an IPv4-mapped address, which it does not hold, loses an address
  (`ExceptInsideMapped`); ::/0 minus ::1:0:0:0/80 leaves a range that ends with 255.255.255.255
  (`ExceptAfterMapped`). `ExactIffNoFail` says, for any CIDR and excepts of one family, when all steps of the call
  are right, and `ExactIffV4`, for IPv4, when its result is; both conditions are read off the blocks before the call.
  Exact means that the ranges are the difference of the blocks and that their ends are addresses of the family in its
  own length, so a CIDR in the IPv4-mapped block, which comes back as 4-byte addresses, is not exact.
- **Gateway index.** A cached Gateway can name a ListenerSet that is not indexed, after a second Gateway
  claimed it and gave it up (`OrphanedListenerSet`). The index is exactly the last claimer while it still
  names the ListenerSet (`IndexIsLastClaimer`). A lookup takes only the lock of the index, so it can run inside a
  deletion and find a Gateway that is not cached (`MidCallUnsound`); in any state of any interleaving the index is
  sound if and only if no unfinished call gives up what is indexed under its Gateway (`SoundExactly`).
- **Port settings.** The id is read back from the annotation if and only if the associated resource has three
  parts (`IdReadBack`).
- **SubnetPorts.** If another object's port with the Pod's deterministic name goes away, a stale cache leads to a
  second port (`FreedNameDuplicates`); a second port appears in no other way (`SecondPort`).
- **StatefulSet predicate.** The 32-bit sum of start and replicas can wrap, and then a shrinking window is missed
  (`OverflowMisses`); `AdmitsExact` gives the exact condition.
- **Bindings.** Nothing locks the store between the lookups of a reconcile and the parts of its change. Two reconciles
  that make their lookups before either is stored break the flat topology (`LateRun`); so does one whose two lookups
  see different stores, of which neither would let it through (`SplitRun`), and a Branch binding to a SubnetSet, which
  the CRD forbids but the code accepts (`UncheckedRun`). A step breaks it exactly when it stores a binding with an end
  that meets one stored since the lookup of that end, or with a SubnetSet target that meets a stored one (`BreaksIff`);
  a run is flat throughout exactly when no step does (`FlatRunIff`).

## Model

| member | source | states |
|---|---|---|
| VpcCleanupInvariant.RunInv | pkg/clean/clean_service.go:132-225 | every interleaving of the eight workers, the feeding goroutine, the delays and a cancellation keeps the invariant on tokens, mutex, channel and shutdown |
| VpcCleanupSafety.OneToken | pkg/clean/clean_service.go:139-176 | each VPC is in at most one place (to be added, queued, delayed, with one worker, completed), and in none only after a cancelled context closed the queue |
| VpcCleanupSafety.ErrorChannelNeverFull | pkg/clean/clean_service.go:160-166 | a worker about to send an error holds the mutex and finds room in the channel of capacity the number of VPCs |
| VpcCleanupSafety.SenderNeverBlocks | pkg/clean/clean_service.go:163-166 | in any state of the invariant, the send of the mutex holder is enabled |
| VpcCleanupSafety.BoundedAttempts | pkg/clean/clean_service.go:150-175 | in any run a VPC is tried at most maxRetries + 1 times and completed at most once |
| VpcCleanupSafety.CountsAlongRun | pkg/clean/clean_service.go:150-175 | the attempts and completions in a run are what the state records |
| VpcCleanupTermination.Progress | pkg/clean/clean_service.go:203-215 | until all goroutines have returned, something other than a cancellation can happen: no deadlock |
| VpcCleanupTermination.StepDecreases | pkg/clean/clean_service.go:132-176 | every step lowers a measure of remaining attempts, tokens, workers and context |
| VpcCleanupTermination.RunsAreBounded | pkg/clean/clean_service.go:187-215 | a run over n VPCs has at most 273 n + 25 steps, so all workers exit |
| VpcCleanupTermination.FinalOutcome | pkg/clean/clean_service.go:215-224 | at the end, without a cancellation, all VPCs are completed, the result is nil exactly when the last attempt on each succeeded, and a returned error is some VPC's last one: one with a cause that forbids a retry, or that of its 13th attempt |
| VpcCleanupAttempts.AttemptLeads | pkg/clean/clean_service.go:150-175 | an attempt is final if it succeeds, if some cause of its error is a cancellation, a missed deadline or a Status error, or as the 13th one; otherwise the VPC goes back to the queue |
| VpcCleanupAttempts.NoRetry | pkg/clean/clean_service.go:61-68 | in every continuation of every run, an attempt that succeeds or whose error has such a cause is the last one on its VPC |
| VpcCleanupAttempts.TriedThirteenTimes | pkg/clean/clean_service.go:150-175 | in any run, a VPC that is completed although its last error has no such cause was tried exactly 13 times |
| VpcCleanupWorker.CleanupRun.VpcWorker | pkg/clean/clean_service.go:132-176 | one undisturbed call is exactly the run of its atomic actions, deferred calls in reverse order; a VPC whose attempt failed without a forbidding cause is queued again unless it was the 13th, and otherwise is completed with its error recorded; asks to be called again unless the context or the queue is done |
| VpcCleanupWorker.CleanupRun.Conclude | pkg/clean/clean_service.go:159-175 | the part under the mutex: the error, the completed set, the shutdown by the last VPC |
| IpBytes.BigIntToIP | pkg/util/ip.go:136-147 | the bytes of the number, cut or padded on the left to the address length |
| IpBytes.BigIntRoundTrip | pkg/util/ip.go:132-147 | a canonical address survives the way to a number and back |
| IpBytes.ToIpRoundTrip | pkg/util/ip.go:132-147 | a number survives the way to an address and back exactly outside the IPv4-mapped block |
| IpBytes.CalculateOffsetIP | pkg/util/ip.go:149-154 | the method computes the offset address that OffsetExact speaks about |
| IpBytes.OffsetExact | pkg/util/ip.go:149-154 | the result is the integer sum if and only if the sum stays in the family and outside the IPv4-mapped block |
| IpBytes.MappedBlock | pkg/util/ip.go:125-130 | the addresses that read as IPv4 are one block of 2^32 values |
| Cidr.ParseCidrRange | pkg/util/ip.go:109-121 | the loop sets the host bits of the normalised network address; an error exactly for text that is no CIDR |
| Cidr.RangeIsBlock | pkg/util/ip.go:109-121 | outside the IPv4-mapped block the two addresses are the ends of the aligned block of 2^(bits - prefix) addresses |
| Cidr.RangeSizeExact | pkg/util/ip.go:109-121 | end = start + 2^(bits - prefix) - 1 if and only if the network address is not IPv4-mapped or the prefix is full |
| Cidr.BlockIsPrefix | pkg/util/ip.go:109-121 | the block is the set of addresses with the same prefix bits, section 3.1 of RFC 4632 |
| Intervals.CanonicalUnique | pkg/util/ip.go:164-233 | a set of addresses has one list of ascending, non-empty ranges that do not touch |
| IpRanges.AppendPieces | pkg/util/ip.go:206-231 | the nested conditions on the positions of the except append what the case table says |
| IpRanges.RangesAbstractRange | pkg/util/ip.go:171-234 | the loop over the ranges handles each range on its own |
| IpRanges.GetCidrRangesWithExcept | pkg/util/ip.go:236-258 | the excepts are applied one after the other; an error exactly when some text is no CIDR |
| IpRangeSteps.PlainStep | pkg/util/ip.go:206-231 | one plain except against one plain range leaves the interval difference if and only if neither the address after nor the one before the except bounds a piece without being a plain address; otherwise an end is of the wrong kind, an excepted address comes back, or one is lost |
| IpRangeMapped.MappedEndStep | pkg/util/ip.go:171-231 | the same, with the exact condition, for an except that ends with the IPv4-mapped block, whose end is compared as 255.255.255.255 |
| IpRangeMapped.InsideStep | pkg/util/ip.go:171-231 | the same for an except in the IPv4-mapped block, which is compared as one number below 2^32 |
| IpRangeLists.ReadsBlock | pkg/util/ip.go:109-121 | every CIDR is read in one of these three ways, because a block that meets the IPv4-mapped one holds it or lies in it |
| IpRangeLists.StepExact | pkg/util/ip.go:171-234 | one except against separate ranges leaves exactly their difference, with plain ends, if and only if it fails on none of them |
| IpRangeResults.FailsSome | pkg/util/ip.go:171-234 | it fails on some range if and only if a condition on the block and on what is left before it holds |
| IpRangeResults.ExactDifference | pkg/util/ip.go:236-258 | for a CIDR with plain ends, if no except fails, the ranges are exactly the addresses with the CIDR's prefix and no except's prefix, ascending, non-empty, apart, and at most one more than excepts |
| IpRangeResults.NothingFails | pkg/util/ip.go:208-209 | nothing fails if no except begins or ends with an IPv4-mapped address, ends with an edge address of the CIDR, or begins right after the IPv4-mapped block inside the CIDR |
| IpRangeResults.ExactIffNoFail | pkg/util/ip.go:236-258 | for any CIDR and excepts of one family, the call is exact on the excepts and every prefix of them if and only if no end of the CIDR is IPv4-mapped and no except fails |
| IpRangeResults.OrderIndependent | pkg/util/ip.go:236-258 | if no except fails in either order, neither order nor repetition of the excepts changes the result |
| IpRangeWraps.ExactIffNoWrap | pkg/util/ip.go:236-258 | if some address below 2^32 is in no except, the whole call on plain excepts is exact if and only if no except fails |
| IpRangeIpv4.ReturnedV4 | pkg/util/ip.go:236-258 | for IPv4, when the k-th except fails, the call returns the difference and, behind it, what the later excepts leave of the whole address space |
| IpRangeIpv4.ExactIffV4 | pkg/util/ip.go:236-258 | for any IPv4 CIDR and excepts, the call is exact if and only if no except fails, or the excepts after the failing one remove the whole address space again |
| IpRangeIpv4.LaterExceptHides | pkg/util/ip.go:236-258 | 255.255.255.255/32 minus itself and 0.0.0.0/0 is exact, though its first step is not |
| IpRangeWraps.LastMinusItself | pkg/util/ip.go:209-217 | the last address minus itself yields the whole address space |
| IpRangeWraps.GapMinusItself | pkg/util/ip.go:209-217 | the address before the IPv4-mapped block minus itself yields a range that starts at 0.0.0.0 |
| IpRangeWraps.ExceptEndingMapped | pkg/util/ip.go:190-211 | an except that ends with the IPv4-mapped block leaves a CIDR whole that lies inside it |
| IpRangeWraps.ExceptInsideMapped | pkg/util/ip.go:190-224 | an IPv4-mapped except takes an address out of a CIDR that does not hold the except |
| IpRangeWraps.ExceptAfterMapped | pkg/util/ip.go:208-222 | an except after the IPv4-mapped block leaves a range that ends with 255.255.255.255 |
| GatewayIpCache.RowOrder | pkg/controllers/gateway/gateway_ip_cache.go:20-38 | the comparison of rows leaves no ties between different rows |
| GatewayIpCache.EntryEqualMeaning | pkg/controllers/gateway/gateway_ip_cache.go:41-53 | entries are equal if and only if resource, multiset of IPs and multiset of rows are |
| GatewayIpCache.ListenerSetKeys | pkg/controllers/gateway/gateway_ip_cache.go:62-84 | the ListenerSets that the rows name, each once, in order |
| GatewayIpCache.SkipRebuild | pkg/controllers/gateway/gateway_ip_cache.go:155-169 | when put reports no change, a rebuild would leave the index alone if and only if the Gateway owns everything it names |
| GatewayIndex.IndexIsLastClaimer | pkg/controllers/gateway/gateway_ip_cache.go:86-104 | after any run, a ListenerSet is indexed if and only if the Gateway that claimed it last still names it, and then under that Gateway |
| GatewayIndex.IndexSound | pkg/controllers/gateway/gateway_ip_cache.go:114-198 | between calls an indexed Gateway is cached and its rows name the ListenerSet |
| GatewayIndex.OwnerKept | pkg/controllers/gateway/gateway_ip_cache.go:91-100 | a call that does not name a ListenerSet drops it exactly if its own Gateway owned it |
| GatewayIndex.ExactInverse | pkg/controllers/gateway/gateway_ip_cache.go:86-104 | if no two cached Gateways ever name the same ListenerSet, the index is the inverse of the entries |
| GatewayIndex.OrphanedListenerSet | pkg/controllers/gateway/gateway_ip_cache.go:91-100 | otherwise a named ListenerSet can drop out of the index |
| GatewayConcurrency.RunRefines | pkg/controllers/gateway/gateway_ip_cache.go:137-198 | any interleaving of puts and deletes, each holding its shard's lock over two separate writes, has the effect of the calls in the order of their index updates |
| GatewayConcurrency.Linearizable | pkg/controllers/gateway/gateway_ip_cache.go:137-198 | so whenever no call is unfinished the cache is what sequential calls leave, and sound |
| GatewayConcurrency.SoundExactly | pkg/controllers/gateway/gateway_ip_cache.go:137-226 | in every state of every interleaving the index is sound if and only if every unfinished call of an indexed Gateway still names the ListenerSet |
| GatewayConcurrency.MidCallUnsound | pkg/controllers/gateway/gateway_ip_cache.go:175-226 | a deletion between its two writes leaves a ListenerSet indexed under a Gateway that is not cached |
| GatewayIpCacheStore.ShardedCache.ReconcileListenerSetRootIndex | pkg/controllers/gateway/gateway_ip_cache.go:86-104 | the three loops release what is no longer named and still owned, and claim what is named |
| GatewayIpCacheStore.ShardedCache.Put | pkg/controllers/gateway/gateway_ip_cache.go:137-172 | the sharded put refines the put on one flat map and reports a change exactly when the entry is new or differs |
| GatewayIpCacheStore.ShardedCache.Delete | pkg/controllers/gateway/gateway_ip_cache.go:175-198 | the sharded delete refines the flat one and reports whether an entry existed |
| GatewayIpCacheStore.ShardedCache.Get | pkg/controllers/gateway/gateway_ip_cache.go:200-210 | the entry of the flat map |
| GatewayIpCacheStore.ShardedCache.RootGateway | pkg/controllers/gateway/gateway_ip_cache.go:218-226 | after any calls, the Gateway that claimed the ListenerSet last, if it still names it, and otherwise none |
| GatewayIpCacheStore.ShardedCache.Lookup | pkg/controllers/gateway/gateway_ip_cache.go:127-135 | a key is in the shard of its hash exactly when its Gateway is cached |
| SharedSubnetLock.RunInv | pkg/controllers/subnet/subnet_poll.go:63-91 | every interleaving of workers, pollers and ended contexts keeps threads, map and channels consistent |
| SharedSubnetLock.MutualExclusion | pkg/controllers/subnet/subnet_poll.go:63-73 | at most one thread owns a source, and until its Delete the map holds its channel |
| SharedSubnetLock.BusyIffOwned | pkg/controllers/subnet/subnet_poll.go:63-73 | the map has an entry for a source exactly while a thread owns it |
| SharedSubnetLock.ClosedOnce | pkg/controllers/subnet/subnet_poll.go:69-73 | no channel is closed twice, and a thread that has left has closed every channel it stored |
| SharedSubnetLock.NoLostWakeUp | pkg/controllers/subnet/subnet_poll.go:76-91 | a waiter's channel is the owner's, about to be closed, or closed, and the next step towards the wake-up can be taken; it can wake up exactly if the channel has been closed |
| SharedSubnetLock.WakeUpComesNearer | pkg/controllers/subnet/subnet_poll.go:76-91 | no step of another thread moves the wake-up away, and each step of the channel's maker brings it nearer |
| SharedSubnetSyncs.SubnetSyncs.TryStart | pkg/controllers/subnet/subnet_poll.go:64-67 | started exactly when the source was free |
| SharedSubnetSyncs.SubnetSyncs.Finish | pkg/controllers/subnet/subnet_poll.go:70-73 | the entry is gone and the channel is closed for the first time |
| SharedSubnetSyncs.SubnetSyncs.WaitStart | pkg/controllers/subnet/subnet_poll.go:76-91 | whatever others do in each turn, a start means ownership and an ended context means nothing is held; the answer is the outcome that OutcomeMeaning tells |
| SharedSubnetSyncs.OutcomeMeaning | pkg/controllers/subnet/subnet_poll.go:76-91 | the wait is given up exactly if a turn that is reached has an ended context, at its top or, with the source busy, in its select; the source is taken exactly if a turn that is reached with a live context finds it free; otherwise the wait goes on |
| SharedSubnetSyncs.SubnetSyncs.HandleSharedSubnet | pkg/controllers/subnet/subnet_controller.go:349-389 | a busy source is left alone and asks for a later requeue; otherwise the thread owns the source throughout its calls, whatever others do meanwhile, and every return releases it |
| PortConfigMirror.IdReadBack | pkg/controllers/subnet/subnet_poll.go:316-322 | the id written into the annotation is read back, whatever the CR's name, if and only if the associated resource has three parts |
| PortConfigMirror.SplitLast | pkg/controllers/subnet/subnet_poll.go:316-320 | the last of n parts starts after the n-1st colon, with any number of colons in the id |
| PortConfigMirror.ConvergedIds | pkg/controllers/subnet/subnet_poll.go:443-495 | in a converged store the mirrored ids are exactly the snapshot's non-empty ids |
| PortConfigMirror.ConvergedInFields | pkg/controllers/subnet/subnet_poll.go:445-495 | a converged store, told from labels, owners, annotations and conditions of the CRs |
| PortConfigSync.ListPortConfigs | pkg/controllers/subnet/subnet_poll.go:339-361 | the live CRs of this Subnet's UID for this source, and an error exactly for an empty source or a failed request |
| PortConfigSync.SetReady | pkg/controllers/subnet/subnet_poll.go:363-382 | the first Ready condition is replaced, or one is appended; unchanged exactly when it is already there |
| PortConfigSync.UpdatePortConfigReady | pkg/controllers/subnet/subnet_poll.go:363-383 | no request if the condition is already there, otherwise one that changes only the conditions |
| PortConfigSync.CreatePortConfig | pkg/controllers/subnet/subnet_poll.go:407-441 | on success a mirror of this Subnet with the id exists: a new one under a free name, with the fields of a mirror, or the one that was there; it fails only with the failure of its last request, or because the mirror under the name is being deleted |
| PortConfigSync.UpdateMirrors | pkg/controllers/subnet/subnet_poll.go:476-481 | without an error the first Ready condition of every mirror of the id has status True, reason PortSettingRealized and a message with the id; if it had, nothing is sent |
| PortConfigSync.MirrorOne | pkg/controllers/subnet/subnet_poll.go:461-482 | without an error the id has a mirror, all its mirrors show Ready in this way, and finished ids stay finished |
| PortConfigSync.DeleteOrphans | pkg/controllers/subnet/subnet_poll.go:483-493 | without an error exactly the mirrors with ids outside the snapshot are gone |
| PortConfigSync.SyncPortConfigs | pkg/controllers/subnet/subnet_poll.go:445-495 | CRs of other Subnets or sources never change; an error-free run leaves every mirror with a snapshot id and a first Ready condition of status True and reason PortSettingRealized that names the id, and every non-empty id with a mirror; it sends nothing exactly when the store was so before; and no run has more errors than requests that failed |
| InventoryBatch.RunInv | pkg/controllers/inventory/inventory_controller.go:114-176 | every interleaving of worker, timer, collector, events and delays keeps queue, buffer, mutex and flush consistent |
| InventoryBatch.FreeMutex | pkg/controllers/inventory/inventory_controller.go:136-149 | with the mutex free, the keys in processing are the buffer and the key just fetched, and the buffer is smaller than a batch |
| InventoryBatch.CollectorAlone | pkg/controllers/inventory/inventory_controller.go:123-129 | garbage collection never overlaps a flush |
| InventoryBatch.GetsMatchDones | pkg/controllers/inventory/inventory_controller.go:136-158 | every Get is matched by exactly one Done |
| InventoryBatch.NoEventLost | pkg/controllers/inventory/inventory_controller.go:151-176 | a key whose event no flush has covered, or whose flush failed, is queued, delayed or held for a coming flush or re-add |
| InventoryNews.UnsyncedExactly | pkg/controllers/inventory/inventory_controller.go:136-176 | after any run a key counts as unsynced exactly if an event or a failed flush of it was followed by no flush that began with it in the buffer |
| InventoryBatch.RequeuedByDone | pkg/controllers/inventory/inventory_controller.go:153-158 | a key that got an event during the flush is queued again by its Done |
| InventoryBatch.RetriedBeforeDone | pkg/controllers/inventory/inventory_controller.go:151-175 | when Dones are reported, every failed key is already back in the queue or in back-off |
| InventoryBatch.MutexReleased | pkg/controllers/inventory/inventory_controller.go:114-158 | the holder of the mutex can always step, each of its steps brings the release nearer, and no other step moves it |
| InventoryProgress.QuietStep | pkg/controllers/inventory/inventory_controller.go:114-176 | without new events and with successful calls, every step but an idle tick does some of the work left, and none adds to it |
| InventoryProgress.BoundedWork | pkg/controllers/inventory/inventory_controller.go:114-176 | so from any reachable state there are only boundedly many such steps |
| InventoryProgress.UnsyncedIsWork | pkg/controllers/inventory/inventory_controller.go:151-176 | while an event is unsynced there is work left |
| InventoryProgress.WorkCanBeDone | pkg/controllers/inventory/inventory_controller.go:114-149 | and with the mutex free some of it can be done at once: every event is synced in the end |
| InventoryController.InventoryController.SyncInventoryKeys | pkg/controllers/inventory/inventory_controller.go:151-176 | afterwards the buffer is empty, none of its keys is in processing, failed ones are in back-off with their counter raised, the others are forgotten, and keys with new events are queued |
| InventoryController.InventoryController.ProcessNextInventoryWorkItem | pkg/controllers/inventory/inventory_controller.go:136-149 | the fetched key joins the buffer, and a full buffer is flushed |
| InventoryController.InventoryController.InventoryTimeWorker | pkg/controllers/inventory/inventory_controller.go:114-121 | a tick leaves the buffer empty and its keys out of processing |
| SubnetPortCreate.SecondPort | pkg/controllers/pod/pod_controller.go:173-235 | in any run a second port for a Pod appears if and only if the reconcile starts over with a free deterministic name while the Pod controls another port |
| SubnetPortCreate.OnePortPerPod | pkg/controllers/pod/pod_controller.go:137-245 | if a deterministic name taken by another owner is not freed, at most one SubnetPort is ever controlled by a Pod, however stale the cache |
| SubnetPortCreate.CollisionFallsBack | pkg/controllers/pod/pod_controller.go:176-235 | a name collision leads to one port under the random name |
| SubnetPortCreate.FreedNameDuplicates | pkg/controllers/pod/pod_controller.go:198-202 | when the other owner goes away, a stale cache leads to two ports |
| SubnetPortCreate.PortNameIs | pkg/controllers/common/utils.go:1002-1024 | a generated name is the Pod name, cut to 57 characters and freed of trailing dots and dashes, a dash, and the first five characters of the UID, or the random text from the second attempt on |
| PodReconciler.PodReconciler.ReconcilePodV2 | pkg/controllers/pod/pod_controller.go:137-245 | the attempt loop, with any failures and others acting before every call, takes the steps of a run; its answer is that of its last step and no step before it had one; it fails only after a failed call, a Get that finds nothing, or a second name taken by others |
| PodReconciler.PodReconciler.TryCreate | pkg/controllers/pod/pod_controller.go:188-209 | fails exactly if the call fails, creates exactly under a free name, and otherwise the holder of the name is looked up |
| PodReconciler.PodReconciler.CheckHolder | pkg/controllers/pod/pod_controller.go:210-221 | ends well exactly if the Get does not fail and finds the Pod's own port, fails exactly if the Get fails or finds nothing, and otherwise goes on |
| PodReconciler.PodReconciler.CheckOthers | pkg/controllers/pod/pod_controller.go:222-234 | ends well exactly if the List does not fail and some port is controlled by the Pod, fails exactly if it fails, and otherwise the next attempt follows, or none |
| StatefulSetOrdinals.AdmitsExact | pkg/controllers/statefulset/statefulset_controller.go:439-480 | for a non-empty old window the predicate fires exactly on a missing ordinal if and only if the start moves up or the ends of both windows, or of neither, overflow 32 bits |
| StatefulSetOrdinals.OverflowMisses | pkg/controllers/statefulset/statefulset_controller.go:465-469 | a shrinking window that the predicate misses |
| StatefulSetOrdinals.OrdinalReadBack | pkg/controllers/statefulset/statefulset_controller.go:292-305 | the ordinal is read back from the Pod name, whatever the StatefulSet is called |
| StatefulSetOrdinals.PortOrdinalReadBack | pkg/controllers/statefulset/statefulset_controller.go:276-290 | the ordinal of a port, by its tag or else by its Pod's name, is the Pod's |
| StatefulSetOrdinals.PortOrdinalExactly | pkg/controllers/statefulset/statefulset_controller.go:276-305 | for any port: its index tag if that is a number, else the number behind the last dash of the Pod name, else -1 |
| StatefulSetOrdinals.AtoiExactly | pkg/controllers/statefulset/statefulset_controller.go:284-304 | a text is a number exactly if it is an optional sign and at least one digit with a 64-bit value, and then that value |
| StatefulSetRelease.ReleaseSubnetPortForPod | pkg/controllers/statefulset/statefulset_controller.go:216-271 | only ports of the Pod go that its lookup does not show running with their UID; without an error all those are gone, and a stay is reported; an error exactly if the lookup fails or NSX refuses one of these deletions |
| StatefulSetRelease.HandleReplicaChange | pkg/controllers/statefulset/statefulset_controller.go:134-167 | whatever each lookup of a Pod shows, even on an error a port goes only with a surplus port of its Pod and after a lookup that showed no Pod, another UID, or a phase Succeeded or Failed or a deletion; without an error a port with a readable ordinal outside the window remains only if a lookup showed a Pod with its UID and none of these, and then a requeue is asked for; an error is that of the last lookup or of a deletion refused after it |
| BindingTopology.EndsChecked | pkg/controllers/subnetbinding/subnetbinding_controller.go:368-399 | every end of a wanted binding is looked up in its role, unless it is the target of a SubnetSet |
| BindingTopology.DesiredExactly | pkg/controllers/subnetbinding/subnetbinding_controller.go:368-515 | what is wanted, on the CRs: a binding from the host's first path to every path of the target, where a pre-created Subnet has to be ready and is never a parent |
| BindingRuns.BreaksIff | pkg/controllers/subnetbinding/subnetbinding_controller.go:207-241 | in any run of concurrent reconciles, with other steps between any two lookups and any two parts of a change, a step makes a path parent and child if and only if it stores a binding with an end that meets one stored since the lookup of that end, or with an unchecked SubnetSet target that meets a stored one |
| BindingRuns.AtomicBreaksIff | pkg/controllers/subnetbinding/subnetbinding_controller.go:391-396 | a sync that nothing but parts of its own change has disturbed does so exactly through the unchecked target of a SubnetSet |
| BindingRuns.FlatRunIff | pkg/controllers/subnetbinding/subnetbinding_controller.go:207-241 | a run keeps every path from being both parent and child throughout if and only if no step is of these two kinds |
| BindingRuns.AlwaysFlat | pkg/controllers/subnetbinding/subnetbinding_controller.go:207-241 | so every run of undisturbed syncs with SubnetSets in Trunk association does |
| BindingExamples.LateRun | pkg/controllers/subnetbinding/subnetbinding_controller.go:207-220 | two syncs that make their lookups before either is stored break it |
| BindingExamples.SplitRun | pkg/controllers/subnetbinding/subnetbinding_controller.go:378-391 | one sync breaks it whose two lookups see different stores, of which neither passes both |
| BindingExamples.UncheckedRun | pkg/controllers/subnetbinding/subnetbinding_controller.go:391-396 | undisturbed syncs break it with a Branch binding to a SubnetSet |
| BindingReconciler.BindingReconciler.Find | pkg/nsx/services/subnetbinding/subnetbinding.go:186-194 | a lookup finds something exactly if a stored binding has the path in the other role |
| BindingReconciler.BindingReconciler.ValidateSubnet | pkg/controllers/subnetbinding/subnetbinding_controller.go:420-515 | with others acting before every lookup, accepted only when realised and every lookup passed; refused without a retry exactly when not realised, and with one only on a clash with a binding stored at the time |
| BindingReconciler.BindingReconciler.ValidateDependency | pkg/controllers/subnetbinding/subnetbinding_controller.go:368-399 | accepted only when all lookups of both sides, in their roles, have passed; a retry means a clash with a binding stored at the time, and a refusal without one a side that cannot be used |
| BindingReconciler.BindingReconciler.Compare | pkg/nsx/services/subnetbinding/subnetbinding.go:115-145 | a target without a binding of the CR gets one under a new id, one with a binding is sent again exactly if it has changed, nothing else is sent, and for every other target that the CR is bound to one of its bindings is deleted; every target has a binding that stays or is sent if the new ids differ |
| BindingReconciler.BindingReconciler.StoreAll | pkg/nsx/services/subnetbinding/subnetbinding.go:255-289 | with others acting in between, only the sent bindings enter the store one by one, and success means that each of them did; it succeeds exactly if one of the 50 listings does not fail, no API error came before it, and all were listed by then |
| BindingReconciler.BindingReconciler.Reconcile | pkg/controllers/subnetbinding/subnetbinding_controller.go:207-241 | with any steps of others between any two accesses to the store, all steps are those of a run of BindingRuns, a retry for a dependency means a clash at the time, Ready means that every target got a binding of this CR that this reconcile has not taken away, if the new ids differ, and that bindings to other targets were deleted, and it fails to configure only if NSX refuses the change or does not list its bindings in time, twice if VLANs overlap |
| BindingReconciler.BindingReconciler.Remove | pkg/nsx/services/subnetbinding/subnetbinding.go:305-327 | a deletion removes exactly what was asked for and accepted, and fails exactly if something was not accepted |
| SubnetAdmission.IntersectIPAddressTypes | pkg/controllers/common/utils.go:792-815 | the loop finds the least type of the list, or fails when there is none |
| SubnetAdmission.MeetIs | pkg/controllers/common/utils.go:792-815 | the result is a listed type that equals every other one that is not dual-stack |
| SubnetAdmission.IntersectionFamilies | pkg/controllers/common/utils.go:787-815 | for types that are set, its families are exactly the shared ones, and it fails exactly when none is shared |
| SubnetAdmission.IntersectionOrder | pkg/controllers/common/utils.go:792-815 | order and repetition do not matter |
| SubnetAdmission.SupersetFamilies | pkg/controllers/common/utils.go:854-862 | the test is inclusion of families, and an unset type is covered by itself alone |
| SubnetAdmission.AdmitsExactly | pkg/controllers/subnet/subnet_webhook.go:83-112 | an update is admitted exactly if it keeps everything that is set, or widens one family to both, adds addresses of the new family and block names only, and changes the access mode only with IPv4 as the new family; besides, the operator's fields stay and the cluster checks pass |
| SubnetAdmission.TypeGrows | pkg/controllers/common/utils.go:865-875 | over any run of admitted user updates a set type stays or grows to dual-stack |
| SubnetAdmission.TypeChangesOnce | pkg/controllers/common/utils.go:865-875 | and it changes at most once |
| SubnetAdmission.SetsGrow | pkg/controllers/common/utils.go:890-939 | addresses and block names never leave |
| SubnetAdmission.ChangesOnce | pkg/controllers/subnet/subnet_webhook.go:88-112 | type, access mode, addresses and block names change in one and the same update, if at all |
| SubnetAdmission.AddedFamily | pkg/controllers/common/utils.go:890-920 | every address added while the type is set is of the family the Subnet lacked |
| SubnetAdmission.AccessModeChange | pkg/controllers/common/utils.go:878-887 | in any run, an access mode that is set has changed only if some update in between widened the type from IPv6 to dual-stack |
| SubnetAdmission.UserCannot | pkg/controllers/subnet/subnet_webhook.go:83-112 | users never change the VPC and VLAN connection names, and nothing is added while the type is unset |
| RouteSelection.SpecificityOrder | pkg/third_party/externaldns/source/admission.go:196-206 | specificity is a strict total order of host names |
| RouteSelection.MoreSpecificExactly | pkg/third_party/externaldns/source/admission.go:196-206 | more dots win, then the name without a wildcard, then the alphabet |
| RouteSelection.SpaceExactly | pkg/third_party/externaldns/endpoint/endpoint.go:47 | what is trimmed from a target are the 25 characters that Unicode calls white space |
| RouteSelection.MakeTargets | pkg/third_party/externaldns/endpoint/endpoint.go:43-59 | the loop trims, drops empty and repeated targets, and sorts |
| RouteSelection.NewTargetsMeaning | pkg/third_party/externaldns/endpoint/endpoint.go:43-59 | the result is sorted, without repetitions, and exactly the trimmed targets |
| RouteSelection.CollectMatches | pkg/controllers/gateway/route_subreconciler.go:430-450 | the matches of the accepted parents with a cached Gateway, addresses and a filter |
| RouteSelection.BuildEndpoint | pkg/controllers/gateway/route_subreconciler.go:424-488 | nothing exactly for a forbidden wildcard or no match; otherwise the choice that the lemmas below describe |
| RouteSelection.ChooseMeaning | pkg/controllers/gateway/route_subreconciler.go:454-487 | two matches or more with one and the same filter are merged exactly if the mode allows it; otherwise a best match is chosen alone |
| RouteSelection.BestIsBest | pkg/controllers/gateway/route_subreconciler.go:476-486 | the winner has the most specific filter and, among those, the least Gateway name |
| RouteSelection.BestUnique | pkg/controllers/gateway/route_subreconciler.go:476-486 | no two Gateways win |
| RouteSelection.UnionMeaning | pkg/controllers/gateway/route_subreconciler.go:464-475 | merged targets are the sorted union of all matches' trimmed targets |
| RouteSelection.ChooseOrder | pkg/controllers/gateway/route_subreconciler.go:454-487 | label and targets do not depend on the order of the matches |
| RouteSelection.ParentOrderIrrelevant | pkg/controllers/gateway/route_subreconciler.go:424-489 | nor on the order of the Route's parents |
| Naming.Base36 | pkg/util/utils.go:123-140 | the digit loop and the in-place reversal yield the base-36 digits of the hash |
| Naming.ReverseInPlace | pkg/util/utils.go:134-137 | the swaps reverse the array |
| Naming.EncodeDecodes | pkg/util/utils.go:123-140 | the digits decode to the number and have no leading zero |
| Naming.DecodeEncodes | pkg/util/utils.go:123-140 | every digit string without a leading zero is the encoding of its value |
| Naming.EncodeInjective | pkg/util/utils.go:123-140 | different hash values have different strings |
| Naming.TruncateDefined | pkg/util/utils.go:298-300 | five digits can be cut exactly when the hash value is at least 36^4 |
| Naming.ConnectStrings | pkg/util/utils.go:327-335 | the non-empty parts, joined |
| Naming.ConnectLength | pkg/util/utils.go:327-335 | its length: the parts and a separator between the non-empty ones |
| Naming.IdFits | pkg/util/utils.go:307-317 | an id never exceeds 255 characters and is the name, cut only when it must be, and the hash |
| Naming.TruncNameFits | pkg/util/utils.go:343-356 | a truncated name keeps its limit whenever the limit leaves room for prefix, suffix, separators and hash, and exactly then or when nothing must be cut there is one |
| Naming.TruncNameIs | pkg/util/utils.go:337-356 | it is made of prefix, cluster, name, project and suffix, those that are not empty, in this order; if the three in the middle are too long together, what they make is cut and gets its hash |

## Left out

- HTTP transport, authentication, TLS, certificates, the NSX client and the configuration: I/O and foreign libraries.
- Logging, metrics, events, status updates other than the Ready condition of port settings, watches and start-up: plumbing.
- The bodies of the single clean-up steps of a VPC, the load-balancer and infrastructure cleaners, and the NetworkInfo reconciler: sequences of remote calls.
- Text parsing: CIDRs start as address bytes and a prefix length, associated resources as strings with colons, hashes as bytes.
- Lengths of delays, ticker periods and retry back-off: a delay may end at any step.
- VpcCleanupWorker.CleanupRun.VpcWorker: one call of one goroutine; what other goroutines do meanwhile is in the step system of VpcCleanup.
- IpRanges.GetCidrRangesWithExcept: the result is the pairs of addresses, not the text they are formatted to.
- IpRangeResults.ExactIffNoFail: a CIDR and excepts of one family; the result of a single call can be exact though a step is not (IpRangeIpv4.LaterExceptHides), which IpRangeIpv4.ExactIffV4 settles for IPv4.
- IpRangeWraps.ExactIffNoWrap: for a single IPv6 call, excepts with an IPv4-mapped end, those that begin right after an IPv4-mapped block in the CIDR, and lists that cover all addresses below 2^32 are not covered; ExactIffNoFail covers them together with the prefixes of the call.
- SharedSubnetSyncs.SubnetSyncs.WaitStart: follows the unbounded waiting loop through a given list of turns; the runs of SharedSubnetLock have no bound.
- SharedSubnetSyncs.SubnetSyncs.HandleSharedSubnet: the four calls under the lock are opaque, with a failure or not and any steps of other threads; the polling functions hold the lock in the same way and are not modelled beyond WaitStart and Finish.
- PortConfigSync.SyncPortConfigs: nobody else writes during the run, and owner references are set to this Subnet alone; generateValidPortSettingName is an arbitrary function.
- InventoryBatch.RunInv: the queue is never shut down while the workers run, as in the code, whose stop channel is never closed.
- InventoryController.InventoryController.ProcessNextInventoryWorkItem: the goroutine's code without other steps in between; the interleavings are in InventoryBatch.
- PodReconciler.PodReconciler.ReconcilePodV2: finished and terminating Pods; the deletion of their port is a Delete step, which can happen at any time.
- SubnetPortCreate.OnePortPerPod: Pod UIDs are distinct, and no other client creates ports controlled by a Pod.
- StatefulSetRelease.HandleReplicaChange: nobody else changes the store of ports during one call; negative starts and replica counts, which the API server refuses, are left out.
- The StatefulSet garbage collector and the release of all ports of a deleted StatefulSet: the same loop with other lookups.
- BindingRuns.AlwaysFlat: assumes undisturbed syncs, SubnetSets as targets in Trunk association only, and the paths of Subnets and SubnetSets apart; BreaksIff and FlatRunIff need only that the two sides of a binding are apart.
- BindingReconciler.BindingReconciler.Reconcile: the CRs of a binding are read once per reconcile; VLAN allocation is only a reason to fail and to try the change a second time.
- The choice of NSX ids for bindings: an id is any text that is new to the store; ids of one binding end in a short hash and may coincide.
- SubnetAdmission.UserCannot: Create and Delete requests are not modelled; the checks of an update that look at other objects are parameters.
- RouteSelection.BuildEndpoint: a parent comes with its best filter; matching host names against listener filters, zone validation and the rendering of DNS endpoints are left out.
- Naming.IdFits: the hash function is arbitrary, so distinct objects may share a name; NormalizeId and label keys are not modelled.
