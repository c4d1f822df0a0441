# Verified models of the shared-state protocols of kubevirt-ui

The backend of this repository changes shared Kubernetes objects from many concurrent flows:
counters in ConfigMaps, lists in the specs of VPCs and subnets, SNAT rules, an ACL list made of
text, an FRR configuration made of text, and an in-memory cache that follows a watch. This project
models the code that does so and proves what it is meant to guarantee, for every input, every
interleaving and every run.

| files | what they model |
|---|---|
| `Ipv4.dfy`, `TransitRanges.dfy` | IPv4 prefixes (section 3.1 of RFC 4632) with `subnets`, `overlaps`, `address_exclude`, `summarize_address_range`; `_allocatable_ranges`, `_supernet_of` |
| `Json.dfy`, `Cas.dfy`, `VpcPeering.dfy` | merge patches (section 2 of RFC 7386), the compare-and-set protocol, and its peering writers |
| `Counter.dfy`, `PeeringLinks.dfy`, `VpcPool.dfy` | the counter protocol of the allocators, the /30 links, the pool of VPC ranges and the border filters |
| `TransitAcl.dfy`, `TransitRuns.dfy`, `TransitWriters.dfy` | the transit ACL list: its text and meaning, runs of calls, interleaved calls |
| `Snat.dfy` | who holds the SNAT slot of a tenant subnet |
| `WatchCache.dfy` | the watch-backed cache against a versioned server |
| `Frr.dfy`, `Announce.dfy` | the announcement compiler with an interpreter for its output, and the reconcile pass around it |
| `Reconciler.dfy`, `HarborPager.dfy` | addon dependencies over reconcile passes; reading a paged list |
| `Text.dfy`, `Lists.dfy`, `Sorting.dfy` | strings, comprehensions and `sorted` |

How concurrency is modelled: an API object is its history of writes and its `resourceVersion` is
their number. A run is any sequence of small steps (start, read, create, conditional write, lost
reply, failure, foreign write) of any number of callers; a step that is not possible leaves the
state alone, so a statement about every sequence of steps is one about every interleaving. The
retry loops are also written as methods of classes that hold the object, with foreign writes
between their requests.

Inputs from outside are parameters: what a listing shows (or that it failed), which requests fail,
what the watch delivers, the environment variables. They are arbitrary unless a lemma says otherwise.

## Where the code does not do what one might expect

Each of these has a lemma with the failing input or family, and one with the exact condition.

- Two prefixes of one VPC, or of two VPCs with the same slug, share a prefix-list line (`seq 5`), and
  the one written first is not advertised (`Frr.ShadowedPrefixIsLost`). With distinct CIDRs the
  compiled text is right if and only if the slugs are distinct (`Frr.CompilationPreservesMeaning`).
- A merge patch never removes a field, so after patching an FRRConfiguration the next pass writes
  again if and only if the old spec had a field that the generated one lacks; the failing family is
  the negation of that (`Announce.SecondPassWritesNothing`).
- The baseline deny is written once and not again when `excludeIps` change, so an address that becomes
  allocatable later gets through without a grant (`TransitWriters.StaleDenyLetsThrough`). A packet
  without a grant is dropped if and only if its source is in the scope of the subnet as the first
  effective commit read it (`TransitWriters.EveryInterleavingConfines`); without a `cidrBlock` there is
  no deny.
- When a version expires and the LIST that follows fails, the cache can show a state that the server
  never had (`WatchCache.FailedRelistKeepsADeletedObject`). The watch that follows repairs it if and
  only if every key that was shown belongs to an object that still exists (`WatchCache.FailedRelistIff`).
  Even then the watch after that can spoil it again: it names the version of the object that happened to
  be announced last, and replays old writes (`WatchCache.ReplayBringsBackADeletedObject`). It does not if
  and only if no object was written twice since that version (`WatchCache.ReplayShowsIff`).
- When the projection of a changed object fails the old entry stays (`WatchCache.LosesProjection`). All
  runs are in sync if and only if no write does that (`WatchCache.InSyncIffKeepsProjecting`).
- The VPC counter wraps, so a range can be handed out twice (`VpcPool.RangeHandedOutTwice`): if and only
  if the second call's listing shows it free and everything from the counter up to it taken
  (`VpcPool.ReuseIff`). While listings show what was handed out, no range is handed out twice
  (`VpcPool.NoRangeTwiceWhileListed`); and a reuse takes a whole cycle of the pool
  (`VpcPool.EveryReuseIsAFullCycle`).
- The endpoint that enables an addon and the reconciler can close a cycle of dependencies
  (`Reconciler.EnabledNamespacesCloseACycle`). Passes alone never do if and only if the releases together
  with what is wanted of the missing components have none (`Reconciler.NeverCyclicByPassesIff`), and
  `Reconciler.NeverCyclicIff` is the condition for runs with deletions and the endpoint.
- `ensure_vpc_peering` can return True without a peering, if the VPC is created while it runs
  (`VpcPeering.TrueWithoutPeering`): what it did not write was there if and only if the VPC was there when
  it looked (`VpcPeering.FoundPeeringIff`).
- The read path can show another address than a resolution returns (`Snat.OwnRuleIsShown`): if and only if
  the tenant's own rule is on the transit subnet, sorts before the winner and holds another address
  (`Snat.ReadAgreesWithWrite`).
- Resolving a SNAT slot can take the EIP of a rule of another slot (`Snat.BystanderLosesItsEip`): if and
  only if a dropped claimant names it and the winner does not (`Snat.EipSurvivesIff`).
- The pager stops after 100,000 rows: a longer list is cut, and only a longer one
  (`HarborPager.ReadsTheWholeList`).

The comment on `PEERING_LINK_MAX` speaks of an all-zeros block that is left out; the code hands out
indices 0 to 61, the block at index 0 included (`PeeringLinks.LinkIsUsable`).

## Model

| member | source | states |
|---|---|---|
| Cas.RunKeepsInv | backend/app/core/cas.py:67-96 | in every interleaving, every committed patch was computed from exactly the object it replaced, and every caller's phase agrees with the history |
| Cas.EveryRunIsSequential | backend/app/core/cas.py:51-96 | linearizability: the object equals the committed calls replayed one at a time; success means exactly one commit between start and end; "nothing to do" and conflict mean none, and that the object called for nothing |
| Cas.CommitIsAtomic | backend/app/core/cas.py:80-87 | the object after a commit is the caller's whole read-modify-write applied to the object before it |
| Cas.ConflictNeedsInterference | backend/app/core/cas.py:67-96 | a call ends in a conflict only if others wrote at least `retries` times while it ran |
| Cas.FailureHasItsCause | backend/app/core/cas.py:68-94 | a call fails only after an API error or a lost reply in the run, or because the object it had read is gone |
| Cas.SucceedsDespiteContention | backend/app/core/cas.py:67-94 | without those, and with fewer than `retries` writes of others while it ran, a call that has ended has written or found nothing to write |
| Cas.AloneItFinishes | backend/app/core/cas.py:68-86 | from any state, a call left alone for a read and a patch ends with its mutation done or not called for |
| Cas.ReadsAgain | backend/app/core/cas.py:87-93 | a patch that lost a race leads to another read while there are retries left |
| Cas.ApiObject.PatchSpecWithRetry | backend/app/core/cas.py:42-96 | the retry loop against a live object: a success merges `mutate` of the object just before into it; a failure has its cause in an API error, a lost reply or a deleted object, and wrote nothing unless the reply was lost; "nothing to do" and conflict wrote nothing; a conflict took at least `retries` foreign writes |
| Json.MergeOneList | backend/app/core/cas.py:105-110 | a patch with one list replaces that list whole and keeps every other field |
| Json.MergeByField | backend/app/core/cas.py:105-110 | a merge patch field by field, as section 2 of RFC 7386 says: unmentioned fields stay, null removes, the rest is merged |
| VpcPeering.UpsertEntries | backend/app/core/cas.py:113-120 | after `upsert` the key of the entry has that entry alone, and the entries of every other key are as before, in order |
| VpcPeering.UpsertAppends | backend/app/core/cas.py:113-120 | the entry comes last, after everything with another key in its old order |
| VpcPeering.CallTouchesItsKey | backend/app/core/vpc_peering.py:60-87 | a call changes only the entries of the VPC it names, leaves exactly the wanted entry or none, and skips the write if and only if the wanted state is there |
| VpcPeering.NoEntryLost | backend/app/core/vpc_peering.py:60-87 | in every interleaving no entry is lost or changed between two versions unless a write in between named its VPC or came from outside |
| VpcPeering.WrittenPeeringRemains | backend/app/core/vpc_peering.py:47-74 | a peering reported as written is there at the end of any run, alone under its key, unless a later write named its VPC |
| VpcPeering.EnsuredPeeringRemains | backend/app/core/vpc_peering.py:65-74 | a call that returned True, because it wrote the peering or found it, leaves it in place at the end of any run, unless a later write named its VPC or came from outside |
| VpcPeering.FoundPeeringIff | backend/app/core/vpc_peering.py:65-74 | for a call that wrote nothing, the peering was there when it looked if and only if the VPC was |
| VpcPeering.TrueWithoutPeering | backend/app/core/vpc_peering.py:69-74 | a run in which the VPC is created while the call runs, and True is returned without a peering |
| Counter.RunKeepsInv | backend/app/core/allocators.py:149-240 | in every interleaving, create races included, each reservation picked from the very counter value it replaced |
| Counter.ConflictNeedsInterference | backend/app/core/allocators.py:135-144 | an allocation fails for contention only if others made at least five writes while it ran |
| Counter.FailureHasItsCause | backend/app/core/allocators.py:303-315 | an allocation fails only after an API error or a lost reply in the run, or because the counter it had read is gone |
| Counter.RefusedHasNothingToPick | backend/app/core/allocators.py:181-222 | an allocation is refused only if there was nothing to pick for a counter value of that time and a listing that it made |
| Counter.SucceedsDespiteContention | backend/app/core/allocators.py:135-144 | without those, and with fewer than five writes of others, an allocation that has ended was served or refused |
| Counter.AloneItFinishes | backend/app/core/allocators.py:149-240 | from any state, an allocation left alone ends, served with the pick from the counter, zero if absent, and the counter moved behind it |
| Counter.ConfigMap.AllocateOnce | backend/app/core/allocators.py:322-377 | one attempt: read or create, pick, replace under the version that was read; each of refusal, conflict and failure has its cause, and reserves nothing unless a reply was lost |
| Counter.ConfigMap.Allocate | backend/app/core/allocators.py:303-319 | the retry loop: a success is one reservation, picked from the counter it replaced; a conflict took at least five foreign writes; each of refusal, conflict and failure has its cause, and reserves nothing unless a reply was lost |
| PeeringLinks.LinkIsUsable | backend/app/core/allocators.py:246-259 | each link is a block of four addresses in link-local space (section 2.1 of RFC 3927) with two distinct host addresses between its ends |
| PeeringLinks.ScanLinks | backend/app/core/allocators.py:350-360 | the scan returns what `LinkPick` does: the lowest index from the counter on that is not in use, None if and only if there is none |
| PeeringLinks.LinkPick | backend/app/core/allocators.py:350-360 | the pick is free and everything before it is used; no pick means all are used |
| PeeringLinks.NoLinkTwice | backend/app/core/allocators.py:303-377 | in every interleaving with create races, failed listings, lost replies and retries, two successes get disjoint links, while nobody deletes or edits the counter |
| VpcPool.FindCidrConflicts | backend/app/core/allocators.py:87-104 | the report is empty if and only if the range shares no address with a listed network of its version |
| VpcPool.ReportIs | backend/app/core/allocators.py:98-104 | a line is in the report if and only if it names a listed network that shares an address, with its text |
| VpcPool.ExhaustedIffAllTaken | backend/app/core/allocators.py:197-222 | the wrapped scan fails if and only if every candidate overlaps a listed subnet |
| VpcPool.PickVpcRange | backend/app/core/allocators.py:181-224 | the chosen range is a candidate inside the supernet that overlaps nothing listed, with its gateway inside it up to /31; a refusal means all are taken |
| VpcPool.EveryReuseIsAFullCycle | backend/app/core/allocators.py:135-240 | in every interleaving, between two calls that got the same range every range of the pool was handed out, or passed over by a scan that found it taken |
| VpcPool.ReuseIff | backend/app/core/allocators.py:135-240 | in every interleaving, a call gets the range of another if and only if in its own listing that range is free and every range from the counter it read up to that one is taken |
| VpcPool.NoRangeTwiceWhileListed | backend/app/core/allocators.py:175-222 | in every interleaving, a call whose listing shows the range of another gets a range that does not overlap it |
| VpcPool.ScanIff | backend/app/core/allocators.py:197-210 | the scan settles on a range if and only if that range is free and everything from the counter up to it is taken |
| VpcPool.RangeHandedOutTwice | backend/app/core/allocators.py:197-240 | a run in which a pool of one range hands it to two calls |
| VpcPool.SuccessiveRangesDiffer | backend/app/core/allocators.py:197-240 | two successive reservations differ unless the second found all other ranges taken |
| VpcPool.BorderAcceptsThePool | backend/app/core/b3_announce.py:524 | the BIRD filter, and the FRR one of line 562, accept exactly the ranges that the allocator can hand out |
| Cyclic.WrapIsMod | backend/app/core/allocators.py:201 | the wrapped index is the remainder that Python computes, also for a negative counter |
| Ipv4.SubnetsTile | backend/app/core/allocators.py:192 | the candidates tile the supernet: consecutive blocks of the asked length without gap or overlap |
| Ipv4.AddressExcludeIsDifference | backend/app/core/tenant_transit.py:628 | excluding a block by halving leaves exactly the addresses of the network that are not in the block |
| Ipv4.AddressExcludeIsMaximal | backend/app/core/tenant_transit.py:628 | the pieces are as large as alignment allows: the next larger block would meet the excluded one |
| Ipv4.SummarizeTiles | backend/app/core/tenant_transit.py:611-614 | summarizing a range gives aligned blocks that tile exactly that range |
| TransitRanges.RangesAreAllocatable | backend/app/core/tenant_transit.py:596-640 | the ranges hold exactly the addresses of the subnet that no entry excludes, except a network address left alone as a /32 |
| TransitRanges.RangesAscend | backend/app/core/tenant_transit.py:636-640 | every range ends before the next one starts |
| TransitRanges.RemainingMaximal | backend/app/core/tenant_transit.py:622-631 | no range could be larger: the next larger aligned block leaves the subnet or holds a reserved address |
| TransitRanges.ComputeAllocatableRanges | backend/app/core/tenant_transit.py:596-640 | the loops of `_allocatable_ranges` compute ascending ranges that hold exactly the allocatable addresses |
| TransitRanges.DenyScope | backend/app/core/tenant_transit.py:661-663 | the deny matches every allocatable address and no other, unless none is allocatable, when it matches the whole subnet |
| TransitRanges.SupernetOf | backend/app/core/b3_announce.py:602-611 | terminates with the least covering prefix: it covers all inputs, and every prefix that does covers it |
| TransitAcl.PrintUnique | backend/app/core/tenant_transit.py:477-480 | the text of a rule, allow or deny, determines source, VIP, protocol and port, or the ranges |
| TransitAcl.MatchesPrinted | backend/app/core/tenant_transit.py:477-480 | read as OVN reads it, comparison by comparison, a printed text matches exactly the packets of its flow, or from its ranges |
| TransitAcl.TransitFlowsAre | backend/app/core/tenant_transit.py:469-480 | a flow is asked for if and only if it goes from the EIP to the VIP, over TCP to one of the ports or over UDP to one of the UDP ports |
| TransitAcl.FlowsInOrder | backend/app/core/tenant_transit.py:469-472 | the flows come in the order of the ports, TCP before UDP |
| TransitAcl.AllowsAre | backend/app/core/tenant_transit.py:469-482 | the built list has an allow-related rule at priority 3200 that matches a packet if and only if it is such a flow |
| TransitAcl.BaselineIs | backend/app/core/tenant_transit.py:661-674 | the deny is a drop at priority 3000 that matches exactly the packets from its ranges |
| TransitAcl.SourceOfFlow | backend/app/core/tenant_transit.py:485-488 | the regular expression of `_allow_source` recovers the address that `build_transit_acls` printed |
| TransitAcl.OccursIsSource | backend/app/core/tenant_transit.py:581-586 | the substring test of the removal hits a generated rule if and only if it is an allow for that very address, not one that shares a textual prefix |
| TransitAcl.BuildTransitAcls | backend/app/core/tenant_transit.py:456-482 | one allow for each non-zero port, TCP before UDP |
| TransitAcl.PortFlowsAre | backend/app/core/tenant_transit.py:469-472 | a flow is asked for if and only if it goes from the EIP to the VIP on one of the non-zero ports |
| TransitAcl.NoStaleAllow | backend/app/core/tenant_transit.py:544-549 | after a call that could read the EIPs, on any list, the source of every allow is live or the caller's |
| TransitAcl.OnlyStaleGo | backend/app/core/tenant_transit.py:544-549 | on any list, no rule goes that is at another priority, for a live address or the caller's, and none at all when the EIPs could not be read |
| TransitAcl.KeptComeFirst | backend/app/core/tenant_transit.py:544-558 | what stays keeps its order and its place before anything that is added |
| TransitAcl.OtherPrioritiesStay | backend/app/core/tenant_transit.py:540-563 | on any list, rules at other priorities stay in order and the deny is added once, if there was none and the subnet has a CIDR |
| TransitAcl.CallIsIdempotent | backend/app/core/tenant_transit.py:540-588 | repeating an ensure or a remove changes nothing, on any list |
| TransitRuns.CallRefines | backend/app/core/tenant_transit.py:540-588 | editing the text of the rules is editing the list of typed rules |
| TransitRuns.OneDeny | backend/app/core/tenant_transit.py:551-556 | in every run from an empty list there is one deny, that of the subnet as the founding commit read it; no call removes, repeats or replaces it |
| TransitRuns.FoundingIsFirst | backend/app/core/tenant_transit.py:551-556 | the founding commit is the first one that asks for anything and reads a spec with a CIDR |
| TransitRuns.FlowsAreGranted | backend/app/core/tenant_transit.py:540-588 | an allow is in the list if and only if some call asked for it and no later call dropped its source |
| TransitRuns.PassesIffGranted | backend/app/core/tenant_transit.py:514-588 | by highest-priority match on the text, a packet passes if and only if its flow is granted or its source is not in the scope of the deny of the founding commit |
| TransitRuns.TenantIsConfined | backend/app/core/tenant_transit.py:514-674 | in the terms of the subnet as the founding commit read it, an allocatable address gets through if and only if it has a grant for exactly its source, VIP, protocol and port |
| TransitWriters.CallWrites | backend/app/core/tenant_transit.py:540-563 | a call that writes turns the stored list into what `After` says, with the CIDR and exclusions of the very spec that it patches |
| TransitWriters.SubnetInIs | backend/app/core/tenant_transit.py:551-556 | the deny is built from `cidrBlock` and from every entry of `excludeIps` of the spec that is read |
| TransitWriters.RaisingWritesNothing | backend/app/core/tenant_transit.py:661-663 | a CIDR that does not parse keeps a call from writing anything while there is no deny |
| TransitWriters.EveryInterleavingConfines | backend/app/core/tenant_transit.py:514-588 | in every interleaving over the compare-and-set protocol, with CIDR and exclusions read from the spec and changed at will: a packet passes if and only if it is granted or out of the scope of the deny of the first effective commit that read a CIDR |
| TransitWriters.ConfinedWhileUnchanged | backend/app/core/tenant_transit.py:551-556 | while CIDR and exclusions are as that commit read them, an address that is allocatable now passes if and only if it has a grant |
| TransitWriters.StaleDenyLetsThrough | backend/app/core/tenant_transit.py:551-556 | a run in which an exclusion is lifted later and the address passes without a grant |
| Snat.ListingOrderIrrelevant | backend/app/core/tenant_transit.py:206-209 | resolution and read path do not depend on the order in which rules are listed |
| Snat.ResolutionSettlesTheSlot | backend/app/core/tenant_transit.py:327-374 | when an address is returned, exactly one rule other than the tenant's own claims the slot: the first transit rule by name, its EIP still there, on the transit subnet and holding the address |
| Snat.RefusalChangesNothing | backend/app/core/tenant_transit.py:333-338 | an address is returned if and only if a transit claimant exists; otherwise nothing changes and the report tells which case it is, naming the first claimant with its address and subnet |
| Snat.OnTransitIff | backend/app/core/tenant_transit.py:210-225 | which rules take part, in the terms of the objects: VPC, subnet, an EIP that exists, on the transit subnet and with an address |
| Snat.OtherRulesUntouched | backend/app/core/tenant_transit.py:340-373 | rules that do not claim the slot, and the tenant's own, are never touched; nothing appears |
| Snat.EipsGoWithTheirRules | backend/app/core/tenant_transit.py:246-249 | an EIP goes only together with a dropped claimant that named it |
| Snat.EipSurvivesIff | backend/app/core/tenant_transit.py:248-249 | an EIP survives if and only if no dropped claimant names it or the winner does |
| Snat.BystanderLosesItsEip | backend/app/core/tenant_transit.py:248-249 | a rule of another slot that shares its EIP with a dropped claimant stays, without its EIP |
| Snat.ReadAgreesWithWrite | backend/app/core/tenant_transit.py:377-395 | the read path shows, before and after a resolution, the address it returns if and only if the own rule is not on the transit subnet, sorts after the winner or holds that address; resolving again changes nothing |
| Snat.EffectiveAddressIs | backend/app/core/tenant_transit.py:391-395 | what is shown is the address of the first transit rule by name, and nothing without one |
| Snat.OwnRuleIsShown | backend/app/core/tenant_transit.py:382-385 | an own rule on the transit subnet that sorts first and holds another address is what the read path shows |
| Snat.EnsureIsIdempotent | backend/app/core/tenant_transit.py:398-436 | repeating the call on what it left gives the same result and the same rules and EIPs |
| Snat.EnsureGivesOwn | backend/app/core/tenant_transit.py:418-436 | when no claimant has an address, the tenant gets a rule for its VPC and subnet that names its own EIP, on the transit subnet; what is there is kept and nothing else changes |
| Snat.EnsureResolves | backend/app/core/tenant_transit.py:411-416 | when a claimant has an address, the call is the resolution |
| Snat.OwnAddressIsShown | backend/app/core/tenant_transit.py:435-436 | once the new EIP has an address, the read path shows it and the next call returns it |
| Snat.Cluster.RulesCovering | backend/app/core/tenant_transit.py:181-226 | the loop returns the resolvable and the dangling claimants in name order |
| Snat.Cluster.ExistingSnatAddress | backend/app/core/tenant_transit.py:291-374 | deleting the losers one by one and recreating the winner gives the outcome, rules and EIPs of `Resolve` |
| Snat.Cluster.EffectiveSnatAddress | backend/app/core/tenant_transit.py:377-395 | the read path returns the address of the first transit claimant by name, if there is one |
| Snat.Cluster.EnsureTenantSnat | backend/app/core/tenant_transit.py:398-436 | the whole call leaves the outcome, rules and EIPs of `Ensure` |
| WatchCache.DefaultKeyFits | backend/app/core/watch_cache.py:35-38 | the default key is the same for two objects if and only if namespace and name are |
| WatchCache.DefaultKeySplits | backend/app/core/watch_cache.py:35-38 | cut at the slash, the key gives back namespace and name, or the name alone |
| WatchCache.ListShows | backend/app/core/watch_cache.py:139-151 | after a LIST the entries are exactly the projected objects of its version |
| WatchCache.WriteShownIff | backend/app/core/watch_cache.py:194-200 | after the event of a write the cache shows the new state if and only if the object projects or was not shown before |
| WatchCache.CacheShowsOneVersion | backend/app/core/watch_cache.py:139-264 | in every run of events, bookmarks, timeouts, errors, reconnects, expired versions, watches without a version and harmless replays the entries are, unless the guarantee is lost, the projected server state at one version; the stored version is unset or that one, or one whose replay changes nothing |
| WatchCache.VersionNeverGoesBack | backend/app/core/watch_cache.py:202-264 | between any two moments of a run, within a session or across sessions, the version shown does not go backwards, and the cache is in sync at both |
| WatchCache.InSyncIffKeepsProjecting | backend/app/core/watch_cache.py:194-200 | every run is in sync if and only if no write turns an object that projects into one that does not |
| WatchCache.LosesProjection | backend/app/core/watch_cache.py:194-200 | the run that goes wrong at such a write |
| WatchCache.StaysSynced | backend/app/core/watch_cache.py:202-264 | without a failing LIST every run stays exactly synced: the stored version is set, and is the one shown |
| WatchCache.RelistRestores | backend/app/core/watch_cache.py:239-254 | a successful LIST restores the guarantee from any state |
| WatchCache.FailedRelistKeepsADeletedObject | backend/app/core/watch_cache.py:242-251 | a run in which the failed LIST and the watch without a version leave entries that no version of the server had |
| WatchCache.FailedRelistIff | backend/app/core/watch_cache.py:211-214 | once a watch without a version was told of all objects of version v, the cache shows v if and only if every key shown before belongs to an object that exists at v and projects, and then follows the stream |
| WatchCache.ReplayShowsIff | backend/app/core/watch_cache.py:227-230 | when the next watch names an older version than the one shown, a cache of whole objects goes on showing that version until the stream comes there, if and only if no object was written twice in between |
| WatchCache.ReplayFollows | backend/app/core/watch_cache.py:214-230 | for every projection: where the replayed writes agree with what is shown, the replay changes nothing and the cache then follows the stream |
| WatchCache.ReplayBringsBackADeletedObject | backend/app/core/watch_cache.py:227-230 | a run in which the watch after the reopened one brings back a deleted object |
| WatchCache.K8sWatchCache.InitialList | backend/app/core/watch_cache.py:139-151 | replaces entries and version by those of the answer, or changes nothing when the LIST fails |
| WatchCache.K8sWatchCache.ApplyEvent | backend/app/core/watch_cache.py:181-200 | the entries after one event |
| WatchCache.K8sWatchCache.WatchLoop | backend/app/core/watch_cache.py:202-264 | the nested loops leave the cache that `AfterSessions` gives, for any script of the API |
| WatchCache.K8sWatchCache.Stop | backend/app/core/watch_cache.py:112-121 | nothing is shown any more and no further watch starts |
| WatchCache.K8sWatchCache.All | backend/app/core/watch_cache.py:92-93 | one value for each key |
| Frr.ProgramReadBack | backend/app/core/b3_announce.py:139-166 | splitting the rendered text into lines and words gives back the lines that were rendered |
| Frr.ProgramLoads | backend/app/core/b3_announce.py:139-164 | what a router holds after executing the program: AS numbers, timers, networks, outbound route-map, prefix-lists by name and sequence, route-map entries |
| Frr.MeaningOfProgram | backend/app/core/b3_announce.py:148-164 | for every list of announcements, a prefix is advertised with the next hop of the first branch whose prefix-list, as last written, permits it |
| Frr.ShadowedPrefixIsLost | backend/app/core/b3_announce.py:155-156 | of two prefixes with one slug, the one written first is not advertised |
| Frr.FirstOfTwoIsLost | backend/app/core/b3_announce.py:137 | in the rendered text it is the one that sorts first by VPC and prefix |
| Frr.SlugsCollideIff | backend/app/core/b3_announce.py:122-124 | two names share a slug if and only if they differ only in case and in characters other than letters and digits |
| Frr.SessionComesUp | backend/app/core/b3_announce.py:140-145 | the session of the rendered text comes up with the given local and remote AS numbers |
| Frr.CompilationPreservesMeaning | backend/app/core/b3_announce.py:122-166 | with distinct CIDRs, interpreting the rendered text advertises over the session with these AS numbers exactly the announcements, each with its own next hop, if and only if the slugs are distinct |
| Frr.RenderRawConfig | backend/app/core/b3_announce.py:127-166 | the loops produce the text that the interpreter is proved about |
| Announce.AnnouncedIff | backend/app/core/b3_announce.py:200-297 | a prefix is announced with a next hop if and only if its VPC has an external leg with that address and a default route into the external subnet |
| Announce.DesiredForgetsOrder | backend/app/core/b3_announce.py:169-327 | the generated spec is the same for every order in which the same objects are listed |
| Announce.SecondPassWritesNothing | backend/app/core/b3_announce.py:386-415 | a second pass writes nothing after a create; after a patch, if and only if the old spec had no field that the generated one lacks |
| Announce.PassStores | backend/app/core/b3_announce.py:169-197 | a pass with a peer and a node leaves an object with the rendered announcements and a selector for the chosen nodes, whatever was there before; else it leaves things as they are |
| Announce.PassAnnounces | backend/app/core/b3_announce.py:366-415 | end to end: the stored text advertises a prefix with a next hop if and only if some VPC has that prefix, a leg with that address and a default route into the external subnet, for distinct prefixes and slugs |
| Announce.CollectAnnouncements | backend/app/core/b3_announce.py:200-261 | the loops collect the announcements that `AnnouncedIff` describes |
| Announce.VpcsRoutedVia | backend/app/core/b3_announce.py:264-297 | the set of VPCs with a default route whose next hop lies in the network |
| Announce.PickAnnounceNodes | backend/app/core/b3_announce.py:300-327 | the loop returns the nodes that `NodesAreTheFirst` describes |
| Announce.NodesAreTheFirst | backend/app/core/b3_announce.py:309-327 | the chosen nodes are explicit ones or ready workers, sorted, as many as asked for or as there are, and no eligible node left out sorts before a chosen one |
| Announce.FrrConfiguration.EnsureAnnouncements | backend/app/core/b3_announce.py:366-415 | one pass over the stored object: at most one write, and none when the spec is as desired, unreadable or skipped |
| Json.MergeIsPatch | backend/app/core/b3_announce.py:409-415 | patching with a document without nulls gives that document if and only if the target has nothing extra |
| Reconciler.NeverCyclicByPassesIff | backend/app/core/tenant_reconciler.py:112-127 | from any releases, over every run of passes with failing creates, 409s and partial listings, no cycle arises if and only if the releases together with what is wanted of the missing components have none |
| Reconciler.NeverCyclicUnlessEnabledIff | backend/app/core/tenant_reconciler.py:112-127 | the same for runs in which releases are also deleted, for every set of deleted ones |
| Reconciler.NeverCyclicIff | backend/app/api/v1/tenants_crud.py:3284-3293 | the same for runs in which addons are also enabled by the endpoint, for every choice from the start and the enabled addons |
| Reconciler.RankedStartNeverCyclic | backend/app/api/v1/tenants_addons.py:217-230 | releases whose dependencies go down the chain, as tenant creation writes them, or none at all, never get a cycle, with deletions and enabled optional addons |
| Reconciler.EnabledNamespacesCloseACycle | backend/app/api/v1/tenants_crud.py:3284-3293 | enabling namespaces on a tenant without a CNI and then a pass in which nothing fails close a cycle |
| Reconciler.AlwaysClosed | backend/app/core/tenant_reconciler.py:264-281 | from any releases whose dependencies exist, whatever creates fail or conflict and whatever listings show, each addon depends on addons that exist, while nobody deletes one that is needed or enables one before the CNI |
| Reconciler.DeletionClosedIff | backend/app/core/tenant_reconciler.py:112-127 | a deletion leaves no dangling dependency if and only if no other release depends on what is deleted |
| Reconciler.EnablingClosedIff | backend/app/api/v1/tenants_crud.py:3284-3293 | enabling an addon leaves no dangling dependency if and only if what it is made to depend on exists |
| Reconciler.GoodPassConverges | backend/app/core/tenant_reconciler.py:249-277 | after a pass without failure every required addon is there, and no later pass changes anything, whatever it lists |
| Reconciler.GoodPassIsFull | backend/app/core/tenant_reconciler.py:249-277 | such a pass leaves exactly the old releases and, for each missing component, one with all that it wants |
| Reconciler.GoodPassChains | backend/app/core/tenant_reconciler.py:258-277 | in such a pass every addon it creates depends on what it should wait for, namespaces before CNI before the rest |
| Reconciler.GoodPassDependencies | backend/app/core/tenant_reconciler.py:112-127 | in catalogue terms: nothing for namespaces, namespaces for a required networking component, and the first required networking component for everything else |
| Reconciler.Tenant.CreateRequiredAddon | backend/app/core/tenant_reconciler.py:100-127 | the dependencies of a created addon are recorded as existing; a name that is taken is a conflict and creates nothing |
| Reconciler.Tenant.ReconcileTenant | backend/app/core/tenant_reconciler.py:225-281 | the loop leaves the releases of `Passed`, and touches nothing when the tenant is not ready or the operator owns the addons |
| HarborPager.ReadsTheWholeList | backend/app/core/harbor_client.py:137-201 | for every truthful server, whichever way each page signals, the pager returns the list in order, whole if and only if it has at most 100,000 rows |
| HarborPager.Get | backend/app/core/harbor_client.py:166-201 | the loop over the pages computes `Fetch`, errors included |
| HarborPager.TagCheckIsExact | backend/app/core/image_publish.py:523-534 | the tag check passes if and only if no artifact on any page carries the tag, up to 100,000 artifacts |
| HarborPager.VerdictByFirstFailure | backend/app/core/harbor_client.py:109-134 | the first page that is not served decides: 404 means free, 401 and 403 a rejected token, anything else that Harbor cannot tell |
| HarborPager.AssertTagIsFree | backend/app/core/image_publish.py:507-534 | the nested loops give the verdict of `TagVerdict`; a missing repository is free, other errors are passed on |

## Left out

- HTTP, LDAP, OIDC and Kubernetes client calls, logging, sleeps, backoff times and environment parsing.
- The frontend, the operator, the Pydantic models and manifest builders.
- `attach_vpc_to_transit`, `recreate_snat_rule` and the route and policy writers: easy clients of the same protocols.
- Finalizer unwedging: deletes take effect at once.
- The text of `excludeIps` entries and of listed CIDRs: entries are taken as parsed. An IPv6 entry in `excludeIps` is not modelled.
- IPv6 in the allocators beyond the conflict report, which never compares across versions.
- A counter whose text is not a number, which makes the allocators raise.
- Read errors of single EIPs during SNAT resolution.
- Slugs of names with characters outside ASCII.
- FRR beyond the commands that the program uses, OVN matches beyond conjunctions of comparisons of source, destination and port, and the OVN datapath beyond the first packet in the `from-lport` direction.
- `reload_failures` and the reports and log lines of the reconcile passes.
- WatchCache.K8sWatchCache.All: the order of the values is not modelled.
- Frr.CompilationPreservesMeaning: prefixes and next hops are single words, and prefixes are compared as the text that is printed.
- WatchCache.CacheShowsOneVersion: assumes that the server stamps each object with the version of its write, and that a LIST or a watch without a version is not older than what the cache already showed.
- WatchCache.K8sWatchCache.Stop: the cancellation of a running loop is the end of the script of `WatchLoop`, not a step of `Stop`.
- TransitWriters.EveryInterleavingConfines: starts from an empty list that only these calls edit; a `cidrBlock` that does not parse makes the call raise, which is modelled as writing nothing.
- Reconciler.NeverCyclicByPassesIff: assumes that no two catalogue entries share an id, and takes a pass as one step with respect to deletions and the endpoint.
