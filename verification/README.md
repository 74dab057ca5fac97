# d2ip: a verified model

d2ip resolves lists of domains, aggregates the addresses into CIDR prefixes and keeps routing tables in step with
them. This project models its core in Dafny and proves what the code keeps, over every input, every run and every
interleaving. Where the code falls short of its documentation, the exact condition under which it meets it is proved.

| part | modules |
|---|---|
| CIDR aggregation: the pointer tree, its walk, the merge arithmetic, the guarantees | Collections, BitPaths, Density, Aggregation, Guarantees, NetIP, Sorting, RadixTree, Cidr |
| DNS resolution: the retry loop and the worker pool | Resolver, ResolverPool |
| Routing: plans, policies, command-by-command application, ownership | Plans, Policies, PolicyRouting, OwnedRouting |
| Cache: two tables, chunked statements, freshness over time | CacheDb, CacheFreshness, CacheHistories, SQLiteCache |
| Single-flight pipeline and configuration watcher | Orchestrator, Watcher |

An address is its netip bytes (`NetIP.Addr`) and, inside the tree, a string of bits (`BitPaths.Path`); a prefix is
the interval of section 3.1 of RFC 4632 and section 2.3 of RFC 4291. `Aggregation.Job` says what the walk selects on
sets of bit strings. The classes `RadixNode` and `RadixTree` are the source's pointer tree, and `CollectPrefixes` on
them is proved to emit the netip form of exactly that selection, so every statement about jobs is one about the
tree's output. The SQL statements of the cache are functions on table values; the loops, chunks and transactions
around them are the methods of `SQLiteCache.Cache`. The worker pool, the orchestrator and the watcher are step
systems: a step is one atomic operation, channel operation or critical section, and a run is any interleaving.

Where code and documentation disagree, the model follows the code:

- "Lossless when threshold=1.0" (pkg/cidr/aggregate.go:27) fails for IPv6 when two addresses first differ at a
  mergeable depth of 64 or less, because the 64-bit shift overflows: `Guarantees.LosslessIff`.
- Level off is documented as no aggregation (internal/aggregator/aggregator.go:45) but merges every branching node
  it may: `Guarantees.OffIsIdentityIff`.
- "Domain present but no records is stale" (internal/cache/cache.go:116) is not what NeedsRefresh computes; it reads
  the domains table only. Right after a batch it holds under the condition of `CacheFreshness.NoRecordsMeansStaleIff`,
  and fails for a name that does not exist; after a vacuum it holds under that of
  `CacheFreshness.NoRecordsMeansStaleAfterVacuumIff`.
- The vacuum handler, "runs SQLite VACUUM" (internal/api/cache_handlers.go:62), passes olderThan 0 and so deletes every
  record older than the present second, while their domains stay fresh: `CacheHistories.HandlerVacuumExample`. A fresh
  valid domain is served over every history in which no vacuum and no stopped batch does harm
  (`CacheHistories.FreshValidIsServed`); `SafeVacuumIff` and `VacuumKeepsBackedIff` say which vacuums do.
- "User-added entries may coexist" (internal/routing/nftables.go:121-122) holds for Rollback, but Apply removes a
  foreign entry that is not desired: `OwnedRouting.ForeignSurvivesIff`, `OwnedRouting.ForeignRemovedExample`.
- The busy error is documented to carry the run id in flight (internal/orchestrator/orchestrator.go:2-3); it does
  only once that run has published its status: `Orchestrator.BusyNamesHolderIff`.
- "Subscribers should always consume the most recent Snapshot" (internal/config/watch.go:163-165) fails in a window
  of deliver even with one publisher: `Watcher.NewestArrivesIff`. With more publishers an older snapshot can also
  follow a newer one: `Watcher.AscendIff`.

Check everything with `dafny verify dfyconfig.toml`.

## Model

| member | source | states |
|---|---|---|
| Density.MergeTestExact | pkg/cidr/tree.go:152-160 | With at most 62 address bits below a node (every IPv4 depth, IPv6 depths from 66) the shift-and-divide test is the exact density test: inputs below >= threshold * 2^(bits below) |
| Density.MergeTestAtSignBit | pkg/cidr/tree.go:152-160 | With 63 bits below, the shift is the sign bit: for a positive threshold the test never passes, and it is exact just for counts short of the threshold |
| Density.MergeTestAtSignBitIff | pkg/cidr/tree.go:152-160 | There the test passes exactly when the count is at most -threshold * 2^63 |
| Density.MergeTestOverflow | pkg/cidr/tree.go:152-160 | With 64 or more bits below, the shift is zero and every branching node passes, whatever the threshold |
| Density.MergeTestAtMinusOne | pkg/cidr/tree.go:152-160 | At threshold -1 every count passes at every depth, the sign bit included |
| Density.MergeTestMonotone | pkg/cidr/tree.go:152-160 | More inputs or a lower threshold never turn the test off; at the sign bit, under a threshold of zero or less, as long as they are at most -threshold * 2^63 |
| Aggregation.CollectMembers | pkg/cidr/tree.go:99-183 | The walk below a node emits exactly the first eligible prefixes on the way down from it |
| Aggregation.OutputIsTopmost | pkg/cidr/tree.go:89-183 | The output is exactly the eligible prefixes that lie in no broader eligible prefix |
| Aggregation.OutputInOrder | pkg/cidr/tree.go:110-182 | The output is pairwise disjoint and strictly ascending from left to right |
| Aggregation.EligibleIsInside | pkg/cidr/tree.go:99-183 | Every eligible prefix lies inside exactly one output prefix |
| Aggregation.InputsCoveredOnce | pkg/cidr/aggregate.go:23-27 | Every input address is covered, by exactly one output prefix |
| Aggregation.OutputBounds | pkg/cidr/aggregate.go:23-27 | No output prefix is a /0 or broader than maxPrefix, and none is empty of inputs |
| Aggregation.OutputIsLongestCommonPrefix | pkg/cidr/tree.go:140-182 | Every output prefix is the longest common prefix of the inputs inside it |
| Guarantees.LooserIsCoarser | pkg/cidr/tree.go:152-160 | Lowering the threshold or maxPrefix, or adding inputs, keeps every eligible prefix eligible (for IPv6 with added inputs: under a positive threshold, or with at most -threshold * 2^63 inputs, so at level off too) |
| Guarantees.CoarseningNests | pkg/cidr/tree.go:152-182 | Then each old output prefix lies inside exactly one new one |
| Guarantees.CoarseningCoversMore | pkg/cidr/tree.go:152-182 | ... the covered addresses only grow |
| Guarantees.CoarseningShrinksList | pkg/cidr/tree.go:152-182 | ... and on the same inputs the number of prefixes never grows |
| Guarantees.OutputSizeBound | pkg/cidr/aggregate.go:12-15 | For 0 < threshold <= 1 and either family, the output covers at most (number of inputs) / threshold addresses, unless two inputs first differ where the shift overflows |
| Guarantees.OutputSizeBoundIff | pkg/cidr/aggregate.go:12-15 | With fewer than threshold * 2^64 inputs the bound holds if and only if no two inputs first differ there |
| Guarantees.OutputSizeBoundV4 | pkg/cidr/aggregate.go:12-15 | For IPv4 the bound always holds |
| Guarantees.LosslessIff | pkg/cidr/aggregate.go:27 | At threshold 1 the output covers exactly the inputs if and only if no two inputs first differ at a depth that may be merged and has 64 or more bits below it |
| Guarantees.LosslessV4 | pkg/cidr/aggregate.go:27 | For IPv4 the output at threshold 1 covers exactly the inputs |
| Guarantees.LosslessV6 | pkg/cidr/aggregate.go:27 | For IPv6 so does it whenever maxPrefix is at least 65 |
| Guarantees.TooEarlyIsLossy | pkg/cidr/tree.go:152-160 | When two inputs first differ at such a depth, extra addresses are covered at every threshold |
| Guarantees.OutputIsMinimal | pkg/cidr/tree.go:140-182 | At threshold 1 no list of prefixes within maxPrefix that covers exactly the inputs is shorter than the output |
| Guarantees.OffIsIdentityIff | internal/aggregator/aggregator.go:41-55 | Level off (threshold -1) gives one prefix per address if and only if no two inputs first differ at a depth the walk may merge |
| Guarantees.LossyExampleV6 | pkg/cidr/aggregate.go:27 | Two IPv6 addresses that differ only in bit 40 become one /40 at threshold 1 |
| Guarantees.OffExampleV4 | internal/aggregator/aggregator.go:44-45 | At level off two neighbouring IPv4 addresses become one /31 |
| NetIP.SetBitAtSets | pkg/cidr/tree.go:120-132 | Setting the bit of the walk's byte array changes exactly the bit that insert branches on at that depth |
| NetIP.MaskedBits | pkg/cidr/tree.go:174-177 | Masked keeps the first bits of the address and clears the rest |
| NetIP.MaskedUnchangedIff | pkg/cidr/tree.go:174-177 | Masked leaves a prefix alone exactly when its host bits are already zero |
| NetIP.BitsDetermineAddr | pkg/cidr/tree.go:55-83 | Within a family an address is determined by the bits insert walks along |
| NetIP.CompareAddrs | pkg/cidr/aggregate.go:110-125 | The byte loop decides the lexicographic order on 16-byte forms |
| NetIP.AddrLessIsOrder | pkg/cidr/aggregate.go:110-125 | That order is a strict weak order, as sort.Slice demands |
| NetIP.BeforeIsLess | pkg/cidr/aggregate.go:110-125 | Within a family it is the left-to-right order of the tree |
| Sorting.SortedPermutationIsUnique | pkg/cidr/aggregate.go:56-59 | Whatever the sort does, a list that is already strictly sorted comes back unchanged |
| RadixTree.RadixTree.constructor | pkg/cidr/tree.go:29-40 | A new tree is valid and holds nothing |
| RadixTree.RadixTree.Insert | pkg/cidr/tree.go:42-87 | insert adds the address to the set of inputs, keeps the tree valid (nodes are exactly the prefixes of inputs, leaves exactly the inputs) and ignores an invalid address |
| RadixTree.RadixTree.Walk | pkg/cidr/tree.go:55-83 | The loop reaches the node of the address and adds exactly the missing nodes on its path |
| RadixTree.RadixTree.Descend | pkg/cidr/tree.go:72-82 | One step goes to the child on the side of the bit, created if missing; all other links stay |
| RadixTree.RadixTree.AddChild | pkg/cidr/tree.go:73-80 | A missing child is hung on the side of the bit; every other node and link stays |
| RadixTree.RadixTree.MarkLeaf | pkg/cidr/tree.go:85-86 | Marking the reached node makes its address an input and disturbs no other leaf |
| RadixTree.RadixTree.NodeMeaning | pkg/cidr/tree.go:7-17 | A node exists exactly where inputs lie below, and is a leaf exactly at full depth |
| RadixTree.RadixTree.CountLeaves | pkg/cidr/tree.go:185-194 | The leaf count below a node is the number of distinct inputs below it |
| RadixTree.RadixTree.CollectPrefixes | pkg/cidr/tree.go:97-183 | The recursion over pointers, counts and byte arrays emits, byte for byte and in order, the prefixes that the walk on sets of bit strings selects |
| RadixTree.RadixTree.Aggregate | pkg/cidr/tree.go:89-95 | From the root: the netip form of the job's output |
| RadixTree.MergedDenotes | pkg/cidr/tree.go:162-177 | The prefix built from the byte array is the netip form of the node, host bits zero, for both families |
| Cidr.UniqueSorted | pkg/cidr/aggregate.go:83-96 | Deduplication through a map and the sort keep exactly the addresses, in order |
| Cidr.BuildTree | pkg/cidr/aggregate.go:98-102 | The insertion loop builds a valid tree holding exactly the addresses |
| Cidr.InsertNext | pkg/cidr/aggregate.go:100-102 | One round of the loop adds one address |
| Cidr.AggregateFamily | pkg/cidr/aggregate.go:64-108 | One family's output is that of the job with maxPrefix clamped into the family's range |
| Cidr.Aggregate | pkg/cidr/aggregate.go:8-62 | The result is sorted and holds exactly the output prefixes of the two families, once each; with one family present it is the walk's own list |
| Cidr.RendersSorted | pkg/cidr/aggregate.go:25 | The walk already emits one family in strictly increasing address order |
| Cidr.SortKeepsFamily | pkg/cidr/aggregate.go:56-59 | So the final sort is the identity on one family's output |
| Cidr.RendersUnique | pkg/cidr/aggregate.go:24 | A job determines its output down to the bytes |
| Cidr.AggregateDeterministic | pkg/cidr/aggregate.go:24 | Two address lists with the same elements give the same result: the same prefixes as often, and with one family present or no two prefixes at one address the same list |
| Cidr.SameInputsSameTree | pkg/cidr/aggregate.go:98-102 | Two trees that hold the same addresses have the same nodes, links and leaves |
| Cidr.FamilyCovers | pkg/cidr/aggregate.go:27 | Membership of an address in an emitted netip prefix is coverage of its bits by the job's output |
| Cidr.AggregateLossless | pkg/cidr/aggregate.go:27 | At threshold 1 an address is in some result prefix exactly if it was an input; for IPv6 unless two inputs part where the shift overflows |
| Cidr.AggregateLosslessIff | pkg/cidr/aggregate.go:27 | For either family: the result contains exactly the input addresses of the family if and only if no two of them part where the shift overflows |
| Resolver.QueryDomain | internal/resolver/resolver.go:188-252 | One attempt is valid exactly with an address, NXDOMAIN exactly when the name has none (or does not exist), failed otherwise; it is retried exactly when it failed, not in the CNAME chase, and one of the two queries met a retryable error |
| Resolver.ResolveDomain | internal/resolver/resolver.go:138-252 | Which attempts are made and what decides the result: the first answer that asks for no retry, an interruption during a backoff, or running out of retries; valid exactly when the result carries an address |
| ResolverPool.StepConserves | internal/resolver/resolver.go:66-136 | Every step of feeder, workers, consumer and interruption moves copies of a domain around; none is lost or made up |
| ResolverPool.StepInv | internal/resolver/resolver.go:66-136 | Channel bounds, who closes what, and that no channel is misused are kept by every step |
| ResolverPool.Conservation | internal/resolver/resolver.go:66-136 | In every reachable state each copy of each input is unfed, queued, held, in the result channel, delivered or dropped; dropped only after an interruption or under a deadline; nothing panics |
| ResolverPool.ClosesAfterOneResultEach | internal/resolver/resolver.go:96-100 | Left alone and without a deadline, the result channel closes only when there is exactly one result per input |
| ResolverPool.OneResultEachIff | internal/resolver/resolver.go:96-100 | Once the channel has closed without an interruption there is one result per input if and only if no worker dropped a domain |
| ResolverPool.CompleteIff | internal/resolver/resolver.go:66-136 | A batch left alone always delivers one result per input if and only if its context has no deadline or there is no input, for any number of workers |
| ResolverPool.NoSendAfterClose | internal/resolver/resolver.go:96-100 | After the close nothing is sent; the channel only drains |
| ResolverPool.DeadlineCanDrop | internal/resolver/resolver.go:117-121 | With a deadline, for any number of workers and any non-empty input, some run closes the channel short of a result though nobody interrupted |
| ResolverPool.StepRank | internal/resolver/resolver.go:66-136 | Every step brings the end of the batch nearer |
| ResolverPool.SomebodyCanMove | internal/resolver/resolver.go:66-136 | Until the consumer has seen the close, some goroutine or the consumer can move |
| ResolverPool.PoolCanMove | internal/resolver/resolver.go:66-136 | After an interruption some goroutine can move until the channel is closed, whether or not anybody receives |
| ResolverPool.InterruptedPoolCloses | internal/resolver/resolver.go:66-136 | An interrupted run that goes no further without the consumer has closed the channel |
| ResolverPool.RunsAreFinite | internal/resolver/resolver.go:66-136 | A run has at most 6 * inputs + workers + 5 steps |
| ResolverPool.DrainingConsumerSeesClose | internal/resolver/resolver.go:66-136 | A run that cannot go on ends with the consumer having seen the close, and left alone it has received one result per input |
| Plans.BuildPlan | internal/routing/policy_router.go:19-44 | The loops compute the difference lists: desired without current, current without desired, in order and with repetitions |
| Plans.WithoutElems | internal/routing/policy_router.go:33-42 | The difference lists hold exactly the set differences |
| Plans.Dedup | internal/routing/router.go:68-84 | Each prefix once, in canonical order |
| Plans.SortPrefixes | internal/routing/router.go:86-93 | The same prefixes in strictly ascending order |
| Plans.ComputePlan | internal/routing/router.go:38-66 | The plan's lists are the two set differences, without duplicates and in canonical order |
| Plans.CanonicalUnique | internal/routing/router.go:38-39 | A set has one canonical listing, so the plan is determined by the two sets |
| Plans.PlanIsMinimal | internal/routing/router.go:38-39 | The plan leads from current to desired, no other such plan adds or removes less, and it is empty exactly when the sets agree |
| Policies.SplitsInTwo | internal/config/validate.go:222-227 | A category passes exactly if it has a non-empty part on both sides of its first colon |
| Policies.CheckPolicy | internal/config/validate.go:200-271 | One policy passes exactly if it is in order and its name, table and sets were not seen before |
| Policies.ValidatePolicies | internal/config/validate.go:188-274 | The errors blame exactly the policies that are out of order or clash with an earlier one; there are none exactly when any two policies are independent |
| PolicyRouting.AfterMeaning | internal/routing/policy_iproute2.go:53-67 | The table after the first k commands of a plan |
| PolicyRouting.TableStaysBetween | internal/routing/policy_iproute2.go:53-67 | Wherever applyFamily stops, the table contains old and desired's common part and nothing outside the two; after all commands it is the desired set |
| PolicyRouting.PlanRunsIff | internal/routing/policy_iproute2.go:53-67 | On a table that matches the state, no delete misses and no add hits an existing route if and only if the plan repeats no entry |
| PolicyRouting.RetryRunsIff | internal/routing/policy_iproute2.go:31-67 | After a stop the same call runs through if and only if it stopped before its first command and the plan repeats no entry; after any later stop it fails at its first command |
| PolicyRouting.RepeatedRouteExample | internal/routing/policy_iproute2.go:60-65 | A route that is desired twice, as two domains with one address and no aggregation give it, is added once and then fails this call and every later one |
| PolicyRouting.AcceptedPoliciesAreSeparate | internal/config/validate.go:188-274 | The enabled iproute2 policies of an accepted configuration, in any order, share no table and no state file |
| PolicyRouting.Kernel.Issue | internal/routing/policy_iproute2.go:55-64 | One command changes its own table if it is applicable and nothing external fails, and no table otherwise |
| PolicyRouting.PolicyRouter.ApplyFamily | internal/routing/policy_iproute2.go:53-67 | Removals, then additions, up to the first failure; the table is the one after that many commands |
| PolicyRouting.PolicyRouter.ApplyPolicy | internal/routing/policy_iproute2.go:31-51 | The state file changes only on success; from a matching table the result matches again, a failed call leaves the table between old and new, and without external failures the call succeeds exactly if both plans are free of repetition and the save works |
| PolicyRouting.PolicyRouter.ApplyAll | internal/orchestrator/orchestrator.go:267-294 | Policies applied in any order, going on after failures: each gets what it would get alone, and no other table changes |
| PolicyRouting.NoDupCanApply | internal/routing/policy_router.go:33-42 | Duplicate-free lists can always be applied |
| PolicyRouting.FamilyApplied | internal/routing/policy_iproute2.go:53-67 | One family's commands next to the routes of the other family in the same table |
| OwnedRouting.AppliedAccounted | internal/routing/nftables.go:76-112 | After Plan and Apply the kernel set is the desired set, split into owned entries and the foreign ones that were desired |
| OwnedRouting.HistoryAccounted | internal/routing/nftables.go:47-144 | Over any history of plan-and-apply, rollback and foreign additions between them, the kernel set is the disjoint union of owned and foreign entries |
| OwnedRouting.RollbackIsExact | internal/routing/nftables.go:121-144 | Rollback removes exactly the owned entries and leaves exactly the foreign ones |
| OwnedRouting.ForeignSurvivesIff | internal/routing/nftables.go:47-74 | A foreign entry survives a history if and only if every plan applied to its family asked for it |
| OwnedRouting.ForeignRemovedExample | internal/routing/nftables.go:47-74 | One plan that does not ask for a foreign entry removes it |
| OwnedRouting.StalePlanAccountedIff | internal/routing/nftables.go:47-74 | With entries added between Plan and Apply the books balance afterwards if and only if the plan adds none of them |
| OwnedRouting.ForgottenAccountedIff | internal/routing/nftables.go:142-143 | If the save fails after a rollback ran, the books balance only when nothing was owned |
| OwnedRouting.UnrecordedAccountedIff | internal/routing/nftables.go:107-109 | If the save fails after the kernel changed, the books still balance only when nothing was added and no owned entry removed |
| OwnedRouting.FilterByFamily | internal/routing/router.go:95-106 | The prefixes of one family, in order and with repetitions |
| OwnedRouting.NFTRouter.Plan | internal/routing/nftables.go:47-55 | The difference between what the kernel lists and what is desired, canonical |
| OwnedRouting.NFTRouter.RunScript | internal/routing/nftables.go:183-205 | One transaction: all of the plan or nothing |
| OwnedRouting.NFTRouter.RefreshState | internal/routing/nftables.go:76-112 | The record of ownership takes the plan's effect, is saved before it is believed, and is in canonical order |
| OwnedRouting.NFTRouter.Apply | internal/routing/nftables.go:57-74 | For any plan, stale ones included: which outside step failing leads to which state of kernel, memory and disk |
| OwnedRouting.NFTRouter.PlanAndApply | internal/routing/nftables.go:47-74 | Plan and Apply together take the step of the history model |
| OwnedRouting.NFTRouter.Rollback | internal/routing/nftables.go:121-144 | Rollback takes the step of the history model over both families in one script; a failing script changes nothing, and a failing save leaves the kernel rolled back, memory empty and the disk as it was |
| CacheDb.InsertNamesEffect | internal/cache/domains.go:22-40 | Inserting names adds missing rows with new unique ids and touches no existing row |
| CacheDb.DomainsAfter | internal/cache/domains.go:22-49 | After the domain transaction each domain of the batch has its last result's status and time; all ids and other rows are as they were |
| CacheDb.RowsKnown | internal/cache/records.go:143-148 | Every record row finds its domain id: the missing-from-idMap branch cannot be taken |
| CacheDb.RecordsAfter | internal/cache/records.go:153-157 | After a row-by-row upsert each key has the value of its last row; other records stay |
| CacheDb.InsertNamesConcat | internal/cache/domains.go:22-40 | Inserting names in two chunks is inserting them in one |
| CacheDb.UpsertRowsConcat | internal/cache/records.go:127-165 | Upserting rows in two chunks is upserting them in one |
| CacheFreshness.RecordsOfDomain | internal/cache/records.go:77-168 | After a batch each record of a domain has the time and validity of the last result that lists its address, and is as it was if none does |
| CacheFreshness.RecordedAfterUpsert | internal/cache/records.go:77-168 | A domain has a record after a batch if and only if it had one before or the batch gives it an address |
| CacheFreshness.StaleAfterUpsert | internal/cache/snapshot.go:141-182 | After a batch a domain in it is stale exactly by status and age of its last result; any other domain is as stale as before |
| CacheFreshness.NoRecordsMeansStaleIff | internal/cache/snapshot.go:141-182 | The documented rule (no records means stale) holds of a domain right after a batch if and only if it had a record, the batch gives it an address, or its last result is unknown or past its TTL |
| CacheFreshness.NoRecordsMeansStaleAfterVacuumIff | internal/cache/stats.go:84-96 | After a vacuum the rule holds of a domain if and only if it is stale or has a record that the vacuum spares |
| CacheFreshness.RecentAfterUpsert | internal/cache/records.go:77-168 | A domain has a record of at least that time after a batch if and only if an address was last listed at or after it, or a record the batch left alone is that recent |
| CacheFreshness.RuleAfterBatchAndVacuumIff | internal/cache/stats.go:84-96 | After a batch into an empty cache and a vacuum the rule holds of a domain of the batch if and only if an address of it was last listed recently enough, or its last result is unknown or past its TTL |
| CacheFreshness.FreshWithoutRecordsExample | internal/cache/snapshot.go:141-182 | A name just resolved to NXDOMAIN has no records and is fresh |
| CacheFreshness.RefreshedNamesStayFresh | internal/cache/snapshot.go:89-130 | After upserting a settled result for each stale name none of them is stale while the clock stays within its TTL |
| CacheHistories.UpsertKeepsBacked | internal/cache/records.go:73-168 | A batch keeps every valid domain row backed by a valid record of its own age, or past its TTL |
| CacheHistories.StoppedBatchBackedIff | internal/cache/records.go:116-165 | A batch that stops after n record rows still backs a domain with a valid result if and only if a row of the domain is among them, or the table already held a valid record of it with the same time |
| CacheHistories.StoppedBatchServesIff | internal/cache/records.go:116-165 | It still serves the domain if and only if a row of it is among them or the domain was served before |
| CacheHistories.StoppedBatchExample | internal/cache/records.go:116-138 | A batch that stops after its domain transaction breaks the freshness promise: the domain counts as fresh and nothing is served |
| CacheHistories.VacuumKeepsBackedIff | internal/cache/stats.go:84-96 | A vacuum keeps the tables backed if and only if it spares every valid domain within its TTL |
| CacheHistories.SafeVacuumIff | internal/cache/stats.go:84-96 | Whatever the tables hold, a vacuum keeps them backed if and only if its threshold is not past that of the TTL |
| CacheHistories.HandlerVacuumSafeIff | internal/api/cache_handlers.go:62-80 | The vacuum of the HTTP handler, with olderThan 0, is safe in this sense if and only if the TTL is below one second |
| CacheHistories.HandlerVacuumExample | internal/api/cache_handlers.go:62-80 | One valid result, one second and the handler's vacuum: the domain is fresh and valid and nothing is served for it |
| CacheHistories.VacuumServesIff | internal/cache/stats.go:84-96 | After a vacuum a domain is served if and only if the vacuum spares a valid record of it |
| CacheHistories.StopKeepsBackedIff | internal/cache/records.go:116-165 | A stopped batch keeps the tables backed if and only if each valid result within its TTL has a row written, or its record was there with the same time |
| CacheHistories.HistoryKeepsBackedIff | internal/cache/stats.go:84-96 | Over any history of upserts, stopped batches, vacuums and clock advances the tables stay backed throughout if and only if no stopped batch and no vacuum does harm where it happens |
| CacheHistories.FreshValidIsServed | internal/cache/snapshot.go:80-236 | From an empty cache over any such history: a domain that NeedsRefresh calls fresh and whose status is valid has a valid record in SnapshotForDomains |
| CacheHistories.CarefulSpares | internal/cache/stats.go:84-96 | A history without stopped batches whose vacuums all have olderThan >= ttl does no harm |
| SQLiteCache.StringLessIsOrder | internal/cache/snapshot.go:128 | The order of sort.Strings is a strict weak order |
| SQLiteCache.RetryCompletes | internal/cache/records.go:127-165 | Running a batch again after it stopped at any record row ends where an undisturbed run would have |
| SQLiteCache.UpsertIdempotent | internal/cache/records.go:73-76 | Writing a batch twice is writing it once |
| SQLiteCache.Cache.EnsureAllDomainsWithStatus | internal/cache/domains.go:9-93 | The 900-name insert chunks, the status updates and the id query chunks equal one unchunked update; a failure leaves the tables alone |
| SQLiteCache.Cache.ReadIds | internal/cache/domains.go:66-85 | The id query adds exactly the ids of the names that have a row, in whatever order rows come |
| SQLiteCache.Cache.CollectDomains | internal/cache/records.go:106-114 | Each domain of the batch once, by first appearance |
| SQLiteCache.Cache.UpsertBatch | internal/cache/records.go:73-168 | Equals the row-at-a-time last-write-wins update whatever the chunks; a failing transaction leaves exactly the domain part and a multiple of 1000 rows, or nothing |
| SQLiteCache.Cache.WriteRows | internal/cache/records.go:127-167 | The 1000-row transactions equal a row-at-a-time upsert of the rows committed |
| SQLiteCache.Cache.NeedsRefresh | internal/cache/snapshot.go:80-130 | Exactly the stale ones of the requested names, strictly sorted, whatever the chunk boundaries and repeats |
| SQLiteCache.Cache.CheckStaleBatch | internal/cache/snapshot.go:132-189 | The query loop records the verdict on every name that has a row and changes no other entry |
| SQLiteCache.Cache.SnapshotForDomains | internal/cache/snapshot.go:191-236 | The address of every valid record of the named domains, once per record, by record type or address family; every serving record is in the lists |
| SQLiteCache.Cache.Vacuum | internal/cache/stats.go:84-96 | Deletes exactly the records older than the threshold, of any status, no domain row, and returns their number |
| Orchestrator.StepInv | internal/orchestrator/orchestrator.go:148-330 | Every step of any Run or Cancel keeps the slot, numbering, history and context invariant |
| Orchestrator.AtMostOneRuns | internal/orchestrator/orchestrator.go:148-156 | In every interleaving at most one Run holds the slot |
| Orchestrator.HistoryIsRecent | internal/orchestrator/orchestrator.go:183-188 | History is the last ten recorded runs, with consecutive ascending ids up to the newest |
| Orchestrator.EachRunRecordedOnce | internal/orchestrator/orchestrator.go:172-190 | A numbered run is recorded exactly once, and this has happened unless it still holds the slot and is on its way there |
| Orchestrator.FreeSlotMeansAllRecorded | internal/orchestrator/orchestrator.go:156-190 | When the slot is free every numbered run is recorded once and its context is over |
| Orchestrator.CancelHitsOnlyTheHolder | internal/orchestrator/orchestrator.go:585-597 | A Cancel that ends a live context ends the slot holder's and no other |
| Orchestrator.CancelStopsRunIff | internal/orchestrator/orchestrator.go:585-597 | While a goroutine holds the slot, Cancel ends its context if and only if it has stored its cancel function, and reports success if it has or if any run was recorded before |
| Orchestrator.LateCancelIsIdle | internal/orchestrator/orchestrator.go:585-597 | A Cancel that finds the slot free by then ends nothing, and reports success if any run was recorded before |
| Orchestrator.BusyNamesHolderIff | internal/orchestrator/orchestrator.go:150-155 | The busy error names the run in flight if and only if some goroutine in the slot has published its status; otherwise, the slot being free included, it names the last recorded run or 0 |
| Orchestrator.EarlyWindowExample | internal/orchestrator/orchestrator.go:156-199 | In the window before that, a concurrent Run is told run 0 is in flight and a concurrent Cancel that nothing runs |
| Orchestrator.StatusAfterRun | internal/orchestrator/orchestrator.go:578-583 | With the slot free, Status still says running exactly when the last run failed |
| Orchestrator.HolderCanMove | internal/orchestrator/orchestrator.go:148-330 | The holder always has a next step, and its last step frees the slot |
| Orchestrator.HolderProgress | internal/orchestrator/orchestrator.go:148-330 | Each own step brings the holder nearer to freeing the slot and no other goroutine moves it |
| Watcher.StepInv | internal/config/watch.go:77-184 | Buffer bounds, versions and registration are kept by every step, for any number of publishers |
| Watcher.SeesOnlyLater | internal/config/watch.go:117-122 | A subscriber sees only snapshots published after it subscribed |
| Watcher.SerialStep | internal/config/watch.go:77-184 | With one publisher every step keeps order and delivery of each subscription's versions |
| Watcher.VersionsAscend | internal/config/watch.go:163-184 | With one publisher, consumed and then buffered versions strictly increase |
| Watcher.AscendIff | internal/config/watch.go:77-184 | For every buffer size: subscribers see ascending versions in every interleaving if and only if there is one publisher |
| Watcher.KeepsNewestIff | internal/config/watch.go:77-184 | So it is for ending with the newest version, given up deliveries aside |
| Watcher.NewestArrivesIff | internal/config/watch.go:163-184 | Over any run with one publisher, between publications an open subscription ends with the newest version if and only if no delivery of it had the consumer take exactly the buffer size in snapshots between the two selects |
| Watcher.GivesUpIff | internal/config/watch.go:173-181 | A step gives a delivery up if and only if it is the drain and the consumer has emptied the full buffer since the send that found it full |
| Watcher.PublishersOvertake | internal/config/watch.go:100-104 | For every buffer size and any two or more publishers, a subscriber can receive version 2 after version 3, no delivery being given up |
| Watcher.LostNewest | internal/config/watch.go:163-184 | For every buffer size one publisher can end quiet with an open subscription that lacks the newest snapshot |
| Watcher.DoomedPublishNeverReturns | internal/config/watch.go:94-104 | If a channel is closed while a publisher has yet to serve it, that Publish never returns: it panics or is still at it |
| Watcher.SettledRunsNeverPanic | internal/config/watch.go:94-104 | If no channel is closed under a publisher, no send panics, for any number of publishers |
| Watcher.PanicIff | internal/config/watch.go:94-104 | For any number of publishers: the publications under way can end in a panic if and only if one of them has yet to serve a closed channel |
| Watcher.ClosedUnderPublisherExample | internal/config/watch.go:135-161 | The order of steps that ends in a send on a closed channel |
| Watcher.PublishEnds | internal/config/watch.go:168-184 | A lone publisher is never stuck and its Publish ends after at most three steps per channel and one more, whatever subscribers do |
| Watcher.PublicationsProgress | internal/config/watch.go:163-184 | With any number of publishers every step of a publication lowers what is left to do, unless it panics, and no step of a subscriber raises it |
| Watcher.PublisherCanMove | internal/config/watch.go:163-184 | A publication under way is never stuck |
| Watcher.PublicationsEnd | internal/config/watch.go:163-184 | So the publications under way end within a bounded number of their own steps, for any number of concurrent publishers and whatever subscribers do |

## Left out

- Thresholds and the density quotient are reals: NaN and infinite thresholds are excluded. For fewer than 2^53
  addresses and any finite threshold the double quotient, by a power of two, is the real one.
- IPv6 zones, and the order that sort.Slice gives to an IPv4 address and its IPv4-mapped IPv6 form, which compare equal.
- Sorting.Sort: an insertion sort stands for the library's sort; its users rely only on "permutation" and "in order".
- Resolver.ResolveDomain: DNS replies and the outcomes of backoff waits are parameters; jitter, the CNAME chase and
  message parsing are not modelled.
- ResolverPool: the rate limiter only passes or fails; its timing is not modelled, and a run ends when the consumer stops.
- Plans.BuildPlan: prefixes stand for their own String() keys, which tell valid prefixes apart.
- PolicyRouting: an unreadable state file, which the source reads as an empty state, is not told apart from a missing one.
- OwnedRouting.NFTRouter.RunScript: overlap conflicts in nft interval sets and a failing table setup are fault flags; the
  text of scripts and listings is not modelled.
- The iproute2 variant of the ownership protocol (its batch is not atomic), dry runs, and the nftables policy router,
  whose flush-then-add meets the desired set only when old and new do not overlap; both RollbackPolicy bodies are stubs.
- OwnedRouting.HistoryAccounted: a plan and its apply are one event of a history; StalePlanAccountedIff says what an
  addition between the two does.
- Policies: field checks of the other configuration sections are plain range checks.
- SQLiteCache.Cache.NeedsRefresh: the clock is a parameter and durations are whole nanoseconds, so float rounding in
  Seconds() is not modelled; a NULL last_resolved_at occurs only with status unknown.
- SQLiteCache.Cache.SnapshotForDomains: query failures, unparseable stored addresses and the parameter limit of its
  single unchunked query.
- SQLiteCache.Cache.Vacuum: the page statistics and the incremental vacuum after the delete.
- CacheHistories.HistoryKeepsBackedIff: a batch that stops has one result per domain, as those of the orchestrator have
  (its domains come from a set, internal/orchestrator/orchestrator.go:351-365).
- Orchestrator.HolderCanMove: waiting for the two mutexes is folded into the steps.
- Orchestrator: the pipeline between start and outcome, cancellation by the caller's own context, events and metrics;
  a run that panics is a run that fails.
- Watcher: configurations are told apart by version only; validation and the event bus are not modelled.
- HTTP handlers, CLI, scheduler, exporters, source downloads, metrics and logging.
