# DevNest: verified models of its allocators, state machines and codecs

DevNest runs browser workspaces in containers. This project models the parts of it that allocate
scarce names and addresses, move a workspace through its attachment states, admit or refuse
requests, and write configuration that is read back later, and proves what they promise.

- **Topology adapter** (`TopologyTables`, `TopologySteps`, `DbTopologyAdapter`). The three tables
  are maps: runtimes by (topology, node), leases and attachments by (topology, node, workspace).
  Each public method of the class `DbTopologyAdapter` is tied to a step function of the tables and
  of the replies of the database and the host. `TopologyRuns` proves the soundness of every serial
  run, `TopologyHealth` and `AttachOutcomes` the attachment state machine and the health check,
  `JanitorTheorems` the janitor. `TopologyOutcomes` and `JanitorOutcomes` tell what single calls do
  from the columns of the rows, without the model's own helper functions. `EnsureRace`,
  `EnsureFamilies` and `AllocateRace` take the optimistic retry loops apart: a call is a sequence of
  reads and commits, and a commit fails on the uniqueness rules of the table models; `RaceOutcomes`
  shows that the steps add up to the whole calls. `AttachSteps`, `AttachStages` and `AttachRace`
  take attach apart into its three reads and two commits. `TopologyExamples` and `EnsureExamples`
  hold concrete runs.
- **Addresses** (`Ipv4`, `Rotation`, `HostPool`, `SubnetPool`). Networks as ranges of numbers, the
  host candidates, and the two wrap-around scans.
- **Rate limiters** (`RateLimit`, `RedisRateLimit`). The in-memory window and the Redis sorted set,
  each against the full request history and against each other. Clock readings are parameters. The
  in-memory limiter reads its clock before it takes its lock, so its readings can fall back; where a
  result needs them in order, it says so.
- **Route table** (`RouteAdmin`, `RouteDocument`, `RouteTable`, `RouteOutcomes`). Names and rules, the
  document that is persisted, the table that is hydrated from it, and their texts.
- **Deploy script** (`EnvFile`, `EnvFileOutcomes`, `Conninfo`). The environment file writer and reader,
  and the scanner for keyword connection strings.
- **Slugs** (`Slugs`, `TenantRoutingMigration`), **container ensure** (`ContainerEnsure`,
  `ContainerConvergence`, `ContainerOutcomes`) and **health probes** (`Probes`, `ProbeOutcomes`).

`dafny verify dfyconfig.toml` checks everything.

## Where the code does less than one would expect

Each of these is a theorem with its exact condition, with a lemma for a concrete run where one helps.

- A first attach whose verification after the commit fails, whose FAILED write fails and whose lease
  release succeeds leaves an ATTACHED row without a lease (`TopologyRuns.AttachKeepsSound`,
  `TopologyExamples.AttachCanLoseItsLease`). An unhandled error during the wiring, or a failed FAILED
  write, leaves the row ATTACHING (`AttachOutcomes.AttachLeavesAttaching`).
- From the read of its lease on, an attach checks nothing again. A janitor run that falls in before its
  last commit frees the lease as an orphan, whatever the age of the row, and a delete of the topology
  is not blocked before the first commit (`AttachStages.DisturbsExactly`,
  `AttachRace.InterleavedCallExactly`, `AttachRace.DeleteInTheGap`).
- Deleting a topology keeps its leases, and a workspace can then be stuck with an address outside the
  new CIDR (`TopologyExamples.DeleteStrandsLease`).
- Two concurrent allocations for one workspace can return different addresses exactly when it has a
  released row (`AllocateRace.DisagreementExactly`).
- CIDRs can overlap under concurrency exactly when the spec is edited and its values may bring
  networks that overlap (`EnsureFamilies.DisjointExactly`, `EnsureExamples.SpecCidrsCanOverlap`). Two
  calls that read a row before its CIDR was set can both write one (`EnsureRace.CidrChangesExactly`,
  `EnsureExamples.IncompleteRowLosesUpdate`).
- When a row has a CIDR and no gateway, the gateway of the spec is ignored and the first usable host taken
  (`TopologyOutcomes.EnsuredRow`).
- With a limit of two or more, readings that fall back shorten the windows in which the bound of the
  in-memory limiter holds by exactly as much as they fall back; with a limit of one they change nothing
  (`RateLimit.BoundExactly`).
- The documentation of the Redis limiter calls its wait the time to the next slot. It records denied
  requests too, so a client that waits that long is denied again unless enough other requests left
  with the oldest (`RedisRateLimit.ReturnIsAdmittedExactly`, `RedisRateLimit.RedisWaitIsTooShort`,
  `RedisRateLimit.DeniedTwice`). It counts right exactly when the member ids of the period are distinct
  (`RedisRateLimit.RedisCountsExactly`).
- Two workspaces of one owner that are created concurrently get one slug exactly when their bases are
  equal or one runs into the other (`Slugs.LateInsertCollides`).
- In HTTP mode a route whose id ends in `-http` is lost on restart, as is any route with an empty host
  or a backtick (`RouteTable.TableRoundTrip`, `RouteTable.RunAgreesExactly`).
- The scanner for connection strings is documented to follow libpq's quoting. It undoubles quotes, and
  does not undo libpq's backslash escapes (`Conninfo.LibpqEscapesAreNotUndone`).
- `ensure_container` is documented not to apply binds to an existing container. It compares them and
  recreates the container, and a request with a read-only project mount, or with extra mounts but no
  workspace path, recreates it on every call (`ContainerConvergence.UnsettledRun`).
  The old container is removed before limits, ports and extra mounts are checked, so a call that is then
  refused leaves none (`ContainerConvergence.RaisedCall`).
- The fallback "user" of the migration is never used: its `_slugify` already falls back to "workspace"
  (`TenantRoutingMigration.MigrationIgnoresUserFallback`).

## Model

| member | source | states |
|---|---|---|
| Ipv4.OverlapsMeansShared | backend/app/libs/topology/db_topology_adapter.py:170-171 | the end-point comparison used for overlap holds exactly when the two networks share an address |
| Ipv4.HostCount | backend/app/libs/topology/db_topology_adapter.py:300-326 | usable host counts are at least 1, and at most 6 or at least 14, so never 11, the count at which reserving ten and a gateway would leave nothing |
| HostPool.IterCandidateWorkspaceHosts | backend/app/libs/topology/db_topology_adapter.py:300-326 | the loop returns the candidate list of the CIDR and gateway |
| HostPool.CandidatesAreUsableHosts | backend/app/libs/topology/db_topology_adapter.py:300-326 | candidates are usable hosts other than the gateway, strictly increasing, and none of the ten reserved ones in a large network |
| HostPool.CandidatesExactly | backend/app/libs/topology/db_topology_adapter.py:300-326 | an address is a candidate if and only if it is a usable host other than the gateway and, in a network of 16 addresses or more, past the first ten |
| HostPool.CandidatesExist | backend/app/libs/topology/db_topology_adapter.py:300-326 | there is a candidate if and only if some usable host is not the gateway |
| Rotation.ScanFindsFirstFree | backend/app/libs/topology/db_topology_adapter.py:329-344 | a rotating sweep fails only if no position is free, and otherwise returns the free position it meets first, for every offset |
| HostPool.PickFirstFreeHost | backend/app/libs/topology/db_topology_adapter.py:329-344 | the rotating loop returns what the scan function says |
| HostPool.PickFailsOnlyWhenExhausted | backend/app/libs/topology/db_topology_adapter.py:329-344 | for every offset, nothing is picked if and only if all candidates are used |
| HostPool.PickAtZeroKeepsOrder | backend/app/libs/topology/db_topology_adapter.py:329-344 | a first attempt picks the earliest unused candidate |
| TopologyFacts.PickedIpIsFree | backend/app/libs/topology/db_topology_adapter.py:926-944 | a picked address is a usable host of the runtime's network, not its gateway, and held by no active lease of the node |
| SubnetPool.ChildrenAreDisjoint | backend/app/libs/topology/db_topology_adapter.py:174-176 | two different pool children share no address |
| SubnetPool.ChildrenExactly | backend/app/libs/topology/db_topology_adapter.py:76-78 | the pool children are the /20 networks from 10.128.0.0 to 10.255.240.0 |
| SubnetPool.AllocateChildSubnet | backend/app/libs/topology/db_topology_adapter.py:179-201 | the rotating loop returns the first child free of overlaps |
| SubnetPool.FirstFreeChildIsFree | backend/app/libs/topology/db_topology_adapter.py:179-201 | the child overlaps no used network, and none is found only if each of the children is overlapped |
| SubnetPool.PoolServesUntilFull | backend/app/libs/topology/db_topology_adapter.py:179-201 | while the other nodes hold fewer networks than the pool has children, none of them larger than a child, a node gets a child |
| SubnetPool.OneNetworkFillsPool | backend/app/libs/topology/db_topology_adapter.py:179-201 | one larger network can use up the pool alone, so the size matters |
| SubnetPool.ChoiceIsSound | backend/app/libs/topology/db_topology_adapter.py:204-258 | the gateway lies in the chosen network; a stored CIDR is kept, any other choice avoids the networks of all other nodes |
| TopologyAdapter.DbTopologyAdapter.AssignCidr | backend/app/libs/topology/db_topology_adapter.py:757-820 | the retry loop writes the row of the attempt that commits, or nothing |
| TopologyAdapter.DbTopologyAdapter.EnsureNodeTopology | backend/app/libs/topology/db_topology_adapter.py:736-827 | the runtime rows and the reply after a call |
| TopologyAdapter.DbTopologyAdapter.AllocateWorkspaceIp | backend/app/libs/topology/db_topology_adapter.py:829-971 | the leases and the reply after a call, over up to 24 attempts |
| TopologyAdapter.DbTopologyAdapter.AttachWorkspace | backend/app/libs/topology/db_topology_adapter.py:973-1314 | all three tables and the reply after a call |
| TopologyAdapter.DbTopologyAdapter.AttachFailureBestEffort | backend/app/libs/topology/db_topology_adapter.py:1316-1368 | marks the row FAILED and frees the lease only if asked to, each only if its write succeeds |
| TopologyAdapter.DbTopologyAdapter.DetachWorkspace | backend/app/libs/topology/db_topology_adapter.py:1392-1450 | the attachment rows and the reply after a call |
| TopologyAdapter.DbTopologyAdapter.ReleaseWorkspaceIpLease | backend/app/libs/topology/db_topology_adapter.py:1452-1476 | the leases and the reply after a call |
| TopologyAdapter.DbTopologyAdapter.DeleteTopology | backend/app/libs/topology/db_topology_adapter.py:1478-1539 | the rows and the reply after a call; leases stay |
| TopologyAdapter.DbTopologyAdapter.DetachAndReleaseAll | backend/app/libs/topology/db_topology_adapter.py:1940-1955 | the sweep loop detaches and frees the given rows except the failing ones, and counts the detached ones |
| TopologyAdapter.DbTopologyAdapter.RunTopologyJanitor | backend/app/libs/topology/db_topology_adapter.py:1913-2018 | the tables and the counts after the three sweeps |
| TopologyRuns.EnsureKeepsRuntimes | backend/app/libs/topology/db_topology_adapter.py:736-827 | ensuring keeps runtimes sound and a stored CIDR, gateway and bridge unchanged |
| TopologyRuns.AttachKeepsSound | backend/app/libs/topology/db_topology_adapter.py:973-1368 | an attach call keeps a state sound if and only if it is not a first attach whose final verification fails, whose FAILED write fails and whose lease release succeeds |
| TopologyRuns.ReleaseKeepsSound | backend/app/libs/topology/db_topology_adapter.py:1452-1476 | an explicit release keeps a state sound if and only if it frees nothing or its workspace is not ATTACHED |
| TopologyRuns.JanitorKeepsSound | backend/app/libs/topology/db_topology_adapter.py:1913-2018 | the janitor keeps every state sound, whichever of its repairs fail |
| TopologyRuns.RunsStaySound | backend/app/libs/topology/db_topology_adapter.py:736-2018 | in every legal serial run each ATTACHED row has a runtime, an active lease with its address, and an address inside the runtime's CIDR |
| TopologyRuns.AttachedAddressesDiffer | backend/app/libs/topology/db_topology_adapter.py:829-1539 | so no two ATTACHED workspaces of a node share an address |
| TopologyExamples.AttachCanLoseItsLease | backend/app/libs/topology/db_topology_adapter.py:1276-1306 | concrete tables and replies for which the excluded attach leaves an ATTACHED row without a lease |
| AttachOutcomes.AttachLeavesAttaching | backend/app/libs/topology/db_topology_adapter.py:1038-1368 | a call that commits ATTACHING leaves its row so if and only if an unhandled error escapes the Linux wiring, or a handled failure comes before ATTACHED and the FAILED write fails; any other call changes no row and no lease, and other rows never change |
| AttachOutcomes.StepLeavesNoneExactly | backend/app/libs/topology/db_topology_adapter.py:1038-2018 | among all calls, such an attach alone brings an ATTACHING row into tables without one |
| AttachOutcomes.RunLeavesNoneAttaching | backend/app/libs/topology/db_topology_adapter.py:1038-2018 | if in a run no error escapes the wiring and every failing attach can write FAILED, no reachable state has an ATTACHING row |
| AttachOutcomes.HandledFailureIsRetryable | backend/app/libs/topology/db_topology_adapter.py:1316-1368 | after a failure that attach handles the call raises, the row is FAILED if that was written, a first attach has freed its lease if that was written, a re-attach has kept it, and no other lease changed |
| AttachOutcomes.RetrySucceeds | backend/app/libs/topology/db_topology_adapter.py:829-1368 | after such a failure a fault-free allocate and attach ends ATTACHED if and only if the lease was kept or a host is free |
| AttachOutcomes.RetryAlwaysSucceeds | backend/app/libs/topology/db_topology_adapter.py:829-1368 | in runs from empty tables without topology deletes it always does, because every lease is a candidate and the freed address is free again |
| TopologyHealth.ReturningAttachIsAttached | backend/app/libs/topology/db_topology_adapter.py:1038-1314 | a returning attach ends ATTACHED on the requested address, leased to its workspace |
| TopologyHealth.HealthyMeansAttached | backend/app/libs/topology/db_topology_adapter.py:1617-1791 | in a sound state the health check passes if and only if the row is ATTACHED and the host checks, if on, find nothing |
| TopologyHealth.StepKeepsAttached | backend/app/libs/topology/db_topology_adapter.py:1478-1492 | no step for another workspace, no topology delete and no janitor run while the workspace is live changes an ATTACHED row, its lease or its runtime |
| TopologyHealth.AttachThenHealthy | backend/app/libs/topology/db_topology_adapter.py:1617-1791 | with the host checks off, the check passes from a returning attach on, through any such run |
| TopologyHealth.AllocateThenAttach | backend/app/libs/topology/db_topology_adapter.py:829-1314 | a fault-free allocate then attach ends ATTACHED if and only if the runtime is READY and the workspace has a lease inside its CIDR or a host is free |
| TopologyHealth.AttachableWithoutDeletes | backend/app/libs/topology/db_topology_adapter.py:829-1314 | after any run without topology deletes, a READY runtime and a free host suffice |
| TopologyExamples.DeleteStrandsLease | backend/app/libs/topology/db_topology_adapter.py:1478-1526 | a run with a delete after which a workspace is stuck with a lease outside the re-created CIDR |
| TopologyOutcomes.EnsuredRow | backend/app/libs/topology/db_topology_adapter.py:204-258 | the columns a returning ensure stores: bridge and CIDR as stored, else from the spec, else a pool child; the gateway as stored, else from the spec unless the CIDR was stored, else the first usable host |
| TopologyOutcomes.EnsureReturnsExactly | backend/app/libs/topology/db_topology_adapter.py:736-827 | without lost races, ensure returns if and only if node and spec are usable, its writes succeed, and an incomplete row has a CIDR with a fitting gateway: the stored one, else the spec's if no other node is in its way, else the first child that is left |
| TopologyOutcomes.EnsureErrors | backend/app/libs/topology/db_topology_adapter.py:736-827 | the error of a raising ensure, and that its row keeps the chosen columns exactly if only the last write failed |
| TopologyOutcomes.EnsureBearsConflicts | backend/app/libs/topology/db_topology_adapter.py:758-814 | with the pool to choose from, ensure returns if and only if it loses fewer than sixteen races |
| TopologyOutcomes.AllocateReturnsExactly | backend/app/libs/topology/db_topology_adapter.py:829-971 | on a READY runtime a first allocation raises if and only if every assignable address is actively leased, 24 races are lost, or its row cannot be written |
| TopologyOutcomes.AllocateReturnsLeast | backend/app/libs/topology/db_topology_adapter.py:890-971 | what it returns is an assignable address that no active lease of the node holds, the least one if no race is lost, and only that lease is written |
| TopologyOutcomes.AllocateNeedsReady | backend/app/libs/topology/db_topology_adapter.py:898-921 | without a READY runtime with CIDR and gateway it raises and changes nothing |
| TopologyOutcomes.FailedBridgeRefuses | backend/app/libs/topology/db_topology_adapter.py:474-582 | a failing bridge setup leaves the runtime DEGRADED, and the node then refuses allocations |
| TopologyOutcomes.AttachNeedsReadyBridge | backend/app/libs/topology/db_topology_adapter.py:996-1037 | and an attach whose own bridge setup fails raises and writes no row and no lease |
| TopologyOutcomes.AttachReturnsExactly | backend/app/libs/topology/db_topology_adapter.py:973-1314 | attach returns, with the requested address, if and only if the ensured runtime is READY and holds the address, an active lease of the workspace holds it too, and the known row matches the host or commits and wiring succeed |
| TopologyOutcomes.AttachCommitsExactly | backend/app/libs/topology/db_topology_adapter.py:996-1176 | it commits a row if and only if these checks pass, the write succeeds, and no known row is taken as it is |
| TopologyOutcomes.AttachedRow | backend/app/libs/topology/db_topology_adapter.py:1145-1368 | that row column by column, with the status the later replies decide; no other row changes |
| TopologyOutcomes.AttachTouches | backend/app/libs/topology/db_topology_adapter.py:973-1368 | attach changes a lease only to end its own workspace's, after a handled failure of a workspace without a row |
| TopologyOutcomes.AttachErrors | backend/app/libs/topology/db_topology_adapter.py:973-1368 | which error a raising attach raises |
| TopologyOutcomes.ReleaseOutcome | backend/app/libs/topology/db_topology_adapter.py:1452-1476 | a release ends the active lease and keeps its address in the row, or changes nothing |
| TopologyOutcomes.DetachOutcome | backend/app/libs/topology/db_topology_adapter.py:1392-1450 | a detach returns true if and only if it turns a row that is not DETACHED into a DETACHED one without container; otherwise nothing changes |
| TopologyOutcomes.DeleteOutcome | backend/app/libs/topology/db_topology_adapter.py:1478-1539 | a delete removes the runtime and the rows of its node if and only if they are all DETACHED and the write succeeds; leases and other nodes stay |
| TopologyOutcomes.DeleteReturnsExactly | backend/app/libs/topology/db_topology_adapter.py:1478-1539 | when it returns: a runtime must be removed with its bridge, where bridges are on |
| TopologyOutcomes.DetachUnblocksDelete | backend/app/libs/topology/db_topology_adapter.py:1478-1539 | after the only row in the way of a delete is detached, the delete removes the runtime and the row |
| TopologyOutcomes.HealthyExactly | backend/app/libs/topology/db_topology_adapter.py:1617-1791 | on any tables the check passes if and only if the row is ATTACHED and filled in, an active lease holds its address, the node has a runtime whose CIDR, if set, fits gateway and address, and the host checks find nothing |
| JanitorTheorems.JanitorRepairs | backend/app/libs/topology/db_topology_adapter.py:1913-2018 | after a fault-free run every active lease of the node belongs to an ATTACHED row, no stale ATTACHING or FAILED row and no ATTACHED row of a terminal workspace is left |
| JanitorTheorems.SecondRunIsQuiet | backend/app/libs/topology/db_topology_adapter.py:1913-2018 | a second run at the same clock changes nothing and reports zero counts |
| JanitorTheorems.JanitorTouchesOnlyBroken | backend/app/libs/topology/db_topology_adapter.py:1913-2018 | whatever fails, runtimes, other nodes, and the row and lease of an ATTACHED live workspace are untouched |
| JanitorTheorems.CountsAccountForLeases | backend/app/libs/topology/db_topology_adapter.py:1913-2018 | the reported orphans and the swept rows account exactly for the leases that were freed |
| JanitorOutcomes.RowOutcome | backend/app/libs/topology/db_topology_adapter.py:1932-2007 | a row of the node is detached if and only if it is ATTACHING or FAILED and last written more than the staleness limit ago, or ATTACHED for a terminal workspace, and its detach does not fail; any other row stays as it is |
| JanitorOutcomes.LeaseOutcome | backend/app/libs/topology/db_topology_adapter.py:1932-2007 | an active lease of the node is ended if and only if its row is swept so or is not ATTACHED, and the release does not fail |
| JanitorOutcomes.CountOutcome | backend/app/libs/topology/db_topology_adapter.py:1932-2018 | the three counts are the sizes of the sets of stale rows, orphan leases and drifted rows, told from the columns |
| EnsureRace.CidrsStayDisjoint | backend/app/libs/topology/db_topology_adapter.py:736-827 | under any interleaving of ensure attempts the CIDRs of a pool topology never overlap and each gateway lies in its CIDR |
| EnsureRace.CidrNeverChanges | backend/app/libs/topology/db_topology_adapter.py:736-827 | for every spec and every interleaving: a set CIDR stays until its row is deleted, unless a call that read the row before it was set is about to write a different one |
| EnsureRace.CidrChangesExactly | backend/app/libs/topology/db_topology_adapter.py:787-802 | and if there is such a call, some interleaving without a deletion of the row changes the CIDR |
| EnsureRace.GatewayNeverChanges | backend/app/libs/topology/db_topology_adapter.py:736-827 | the same for the gateway |
| EnsureRace.StoredStaysFromEmpty | backend/app/libs/topology/db_topology_adapter.py:736-827 | from empty tables there is never such a call: for every spec and every interleaving, a stored CIDR and gateway stay until the row is deleted |
| EnsureRace.EveryCallStops | backend/app/libs/topology/db_topology_adapter.py:758-814 | a call stops within sixteen attempts in any interleaving |
| EnsureFamilies.DisjointExactly | backend/app/libs/topology/db_topology_adapter.py:204-258 | for any set of specs that the calls of a topology may read: its CIDRs stay disjoint in every interleaving from empty tables if and only if no two different networks that these specs may bring overlap |
| EnsureFamilies.UneditedSpecStaysDisjoint | backend/app/libs/topology/db_topology_adapter.py:736-827 | so while the spec of a topology is not edited its CIDRs never overlap, whether set by the spec or drawn from the pool |
| EnsureFamilies.PoolAndNamed | backend/app/libs/topology/db_topology_adapter.py:179-258 | and a spec edited between the pool, with the gateway left open, and a CIDR is safe if and only if that CIDR is a pool child or overlaps none |
| EnsureExamples.SpecCidrsCanOverlap | backend/app/libs/topology/models/topology_runtime.py:28-31 | a run from empty tables, for every two different overlapping networks, after which two nodes hold them; the constraint compares texts |
| EnsureExamples.IncompleteRowLosesUpdate | backend/app/libs/topology/db_topology_adapter.py:787-802 | a run from a stored row without CIDR in which two calls return different CIDRs and the first is overwritten |
| RaceOutcomes.EnsureAttemptIsCall | backend/app/libs/topology/db_topology_adapter.py:736-827 | an attempt that nothing interrupts stores what the whole call of the serial model stores, and stops as it returns or raises |
| RaceOutcomes.EnsureConflict | backend/app/libs/topology/db_topology_adapter.py:758-814 | when a commit of ensure fails for good, is turned away, or goes through, and what its call does next |
| AllocateRace.IpsStayUnique | backend/app/libs/topology/models/ip_allocation.py:24-33 | directly from the commit guard, the partial unique index: no interleaving makes two active leases of a node hold one address |
| AllocateRace.RacingFirstAllocationsAgree | backend/app/libs/topology/db_topology_adapter.py:829-971 | racing first allocations for one workspace return the same address, the one it leases |
| AllocateRace.GrantsOfTwoWorkspacesDiffer | backend/app/libs/topology/db_topology_adapter.py:829-971 | racing allocations for two workspaces of a node return different addresses |
| AllocateRace.DisagreementExactly | backend/app/libs/topology/db_topology_adapter.py:957-971 | on a READY runtime with two free hosts, some run without a release of the workspace grants it two different addresses if and only if it has a released row |
| AllocateRace.ReleasedRowLosesUpdate | backend/app/libs/topology/db_topology_adapter.py:957-971 | two allocations that re-lease the same released row and pick differently both succeed, and the address of the first is free for other workspaces |
| AllocateRace.EveryCallStops | backend/app/libs/topology/db_topology_adapter.py:854-884 | a call stops within 24 attempts in any interleaving |
| RaceOutcomes.AllocateAttemptIsCall | backend/app/libs/topology/db_topology_adapter.py:829-971 | attempt a, which nothing interrupts, ends as the whole call of the serial model that lost a races before, with the same leases |
| RaceOutcomes.AllocateConflict | backend/app/libs/topology/db_topology_adapter.py:854-971 | when a commit of allocate is turned away, and whether its call goes on |
| AttachSteps.WholeCallIsItsSteps | backend/app/libs/topology/db_topology_adapter.py:973-1368 | every attach call that nothing interrupts is a run of its steps: ensure, the reads of runtime, lease and row, the two commits, and the end with its clean-up |
| AttachStages.DisturbsExactly | backend/app/libs/topology/db_topology_adapter.py:996-1368 | after the read of the runtime, of the lease, of the row, or the first commit: exactly which whole calls (delete, release, detach, janitor) take away what the rest of an attach relies on |
| AttachRace.InterleavedCallExactly | backend/app/libs/topology/db_topology_adapter.py:996-2018 | so with one legal call between any two steps of an attach, and the rest of the attach behind it, the tables end sound if and only if the call was none of these |
| AttachStages.UndoneIsSoundExactly | backend/app/libs/topology/db_topology_adapter.py:1316-1368 | the clean-up of a failed call keeps the tables sound if and only if it does not free the lease of a row that is ATTACHED and stays so |
| AttachRace.InterleavedRunsStaySound | backend/app/libs/topology/db_topology_adapter.py:973-2018 | every interleaving of the reads and commits of attach calls with each other and with whole calls keeps the tables sound, if the calls are legal as in serial runs, none takes away what an attach in progress relies on, and no clean-up frees the lease of a row left ATTACHED |
| AttachRace.RunsFromEmptyStaySound | backend/app/libs/topology/db_topology_adapter.py:973-2018 | in particular from empty tables |
| AttachRace.DeleteInTheGap | backend/app/libs/topology/db_topology_adapter.py:1478-1526 | a run for any sound tables in which a delete between the reads and the first commit of a first attach leaves an ATTACHED row on a node without runtime |
| RateLimit.SlidingWindowRateLimiter.IsAllowed | backend/app/libs/security/rate_limit.py:147-159 | the decision and the new windows, with the eviction loop |
| RateLimit.KeysAreIndependent | backend/app/libs/security/rate_limit.py:147-159 | the window of a key depends on that key's requests alone |
| RateLimit.DecisionMatchesHistory | backend/app/libs/security/rate_limit.py:147-159 | with readings in order, each decision is the one that counting in the full history of admitted requests gives |
| RateLimit.DecisionUnderSkew | backend/app/libs/security/rate_limit.py:147-159 | with readings that fall back by at most `skew`, admission means room in a window shorter by it, and denial a full window longer by it at both ends |
| RateLimit.EveryWindowWithinLimit | backend/app/libs/security/rate_limit.py:147-159 | with readings in order, every window (t - period, t] of every run holds at most `calls` admitted requests |
| RateLimit.EveryWindowUnderSkew | backend/app/libs/security/rate_limit.py:149-159 | with readings that fall back by at most `skew`, every window shorter than the period by it does |
| RateLimit.BoundExactly | backend/app/libs/security/rate_limit.py:147-159 | with readings that fall back by at most `skew`, all runs keep windows of a width within the limit if and only if the width is at most period - skew, or not positive, or at most the period with a limit of one |
| RateLimit.OneInPeriod | backend/app/libs/security/rate_limit.py:147-159 | a limit of one holds in every window of a period, in whatever order the readings come |
| RateLimit.FallingClockExceedsLimit | backend/app/libs/security/rate_limit.py:149-151 | for every limit of two or more, every skew up to the period and every larger width, a run that puts more admitted requests into a window of that width |
| RateLimit.RetryAfterIsExact | backend/app/libs/security/rate_limit.py:161-168 | after a denial, whatever the clock read before, requests before now + wait are denied, and the next request is admitted if and only if it does not come before that |
| RateLimit.HeaderIsEnough | backend/app/libs/security/rate_limit.py:213-224 | waiting the whole seconds of the Retry-After header suffices, whatever requests are denied in between |
| RateLimit.TakenPlaceIsDenied | backend/app/libs/security/rate_limit.py:213-224 | an admitted one in between can take the place |
| RedisRateLimit.RedisRateLimiter.IsAllowed | backend/app/libs/security/rate_limit.py:89-110 | the sorted sets, the cached client and the decision, failing open |
| RedisRateLimit.RedisRateLimiter.RetryAfterSeconds | backend/app/libs/security/rate_limit.py:112-127 | the time until the oldest member of the period leaves, or zero |
| RedisRateLimit.CallSeesLastPeriod | backend/app/libs/security/rate_limit.py:89-110 | a call finds exactly the members of the last period, whether or not idle keys expire |
| RedisRateLimit.ExpiryNeverMatters | backend/app/libs/security/rate_limit.py:102-105 | the key expiry of period + 5 never changes a decision |
| RedisRateLimit.AliveSize | backend/app/libs/security/rate_limit.py:97-105 | the set has one member per request of the period if and only if no two of these share an id, and fewer otherwise |
| RedisRateLimit.RedisCountsEveryRequest | backend/app/libs/security/rate_limit.py:97-105 | with distinct ids in the period, a request is admitted if and only if fewer than `calls` requests, admitted or not, precede it there |
| RedisRateLimit.RedisCountsExactly | backend/app/libs/security/rate_limit.py:97-105 | for every limit the decision is that count if and only if the ids of the period are distinct |
| RedisRateLimit.SharedIdsAdmitMore | backend/app/libs/security/rate_limit.py:101-101 | whatever ids are shared, a request the full count admits is admitted |
| RedisRateLimit.SharedIdUndercounts | backend/app/libs/security/rate_limit.py:101-101 | with a repeated member id a third request is admitted out of two |
| RedisRateLimit.RedisIsStricter | backend/app/libs/security/rate_limit.py:89-159 | on one trace with distinct ids in the period, whatever Redis admits the in-memory limiter admits |
| RedisRateLimit.WaitIsUntilOldestLeaves | backend/app/libs/security/rate_limit.py:112-127 | now plus the returned wait is the moment at which the oldest request left leaves the period |
| RedisRateLimit.ReturnIsAdmittedExactly | backend/app/libs/security/rate_limit.py:97-127 | a client that comes back when the returned wait ends is admitted if and only if fewer than `calls` requests came after the instant of the oldest, the denied one and all that came since included |
| RedisRateLimit.RedisWaitIsTooShort | backend/app/libs/security/rate_limit.py:97-127 | so after a denial it is denied again, for any limit and whatever comes in between, if the oldest request was alone in its instant and was still there when the wait was asked for |
| RedisRateLimit.DeniedTwice | backend/app/libs/security/rate_limit.py:97-127 | one request in ten seconds: admitted at 0, denied at 5 with a wait of 5, denied again at 10 |
| RouteAdmin.WidOfNames | devnest-gateway/route_admin/route_admin_app.py:84-93 | an id is read back from its mirror name always, from its primary name if it does not end in -http |
| RouteAdmin.RuleRoundTrip | devnest-gateway/route_admin/route_admin_app.py:100-101 | host and prefix are read back from the rule made of them if and only if the host is not empty and neither holds a backtick |
| RouteAdmin.NormalizeTwice | devnest-gateway/route_admin/route_admin_app.py:208-216 | a normalized target normalizes to itself |
| RouteOutcomes.TargetOutcome | devnest-gateway/route_admin/route_admin_app.py:208-216 | a target is kept if it is an http or https URL, gets http:// in front if it names no scheme, and is refused if blank or of another scheme, whatever white space is around it |
| RouteOutcomes.RegisteredRow | devnest-gateway/route_admin/route_admin_app.py:311-326 | the row registered for an id, host, target and prefix, and when the request is refused |
| RouteOutcomes.WrittenRoute | devnest-gateway/route_admin/route_admin_app.py:219-300 | each row's routers and service in the document: their names, rule text, entry points and target |
| RouteOutcomes.NoOtherRoutes | devnest-gateway/route_admin/route_admin_app.py:246-300 | the document holds nothing else |
| RouteOutcomes.LoadedRow | devnest-gateway/route_admin/route_admin_app.py:125-182 | a plain rule of a primary router is loaded if and only if its service has a target that a request could have registered, and with that target's URL |
| RouteOutcomes.SpacedRuleIsRead | devnest-gateway/route_admin/route_admin_app.py:99-101 | any white space around a rule and its conjunction is accepted |
| RouteDocument.WrittenRouters | devnest-gateway/route_admin/route_admin_app.py:258-296 | written in sorted order no primary router is overwritten by a mirror of the same name, and every other router is a mirror |
| RouteTable.RouteAdminApp.BuildDocument | devnest-gateway/route_admin/route_admin_app.py:254-300 | the loop writes the routers and services that the document of the table must have |
| RouteTable.RouteAdminApp.Register | devnest-gateway/route_admin/route_admin_app.py:311-341 | the new table, with its document on disk, or a refusal that changes nothing |
| RouteTable.RouteAdminApp.Deregister | devnest-gateway/route_admin/route_admin_app.py:345-352 | the new table, with its document on disk, or a refusal that changes nothing |
| RouteTable.RouteAdminApp.Hydrate | devnest-gateway/route_admin/route_admin_app.py:125-180 | the loop over ids loads the table that the document stands for |
| RouteTable.RowRoundTrip | devnest-gateway/route_admin/route_admin_app.py:104-300 | a row comes back unchanged if and only if its rule is readable and, in HTTP mode, its id does not end in -http or the id with one more -http is routed too |
| RouteTable.TableRoundTrip | devnest-gateway/route_admin/route_admin_app.py:104-300 | hydrating the persisted document gives back exactly the table if and only if every row is readable and, in HTTP mode, no id ends in -http |
| RouteTable.StepAgreesExactly | devnest-gateway/route_admin/route_admin_app.py:104-352 | after any call that persists, whatever the requests before it, hydrating gives back the table if and only if every row is readable and, in HTTP mode, no id ends in -http |
| RouteTable.RunAgreesExactly | devnest-gateway/route_admin/route_admin_app.py:104-352 | over any run of arbitrary requests and restarts in either mode, memory and document agree throughout if and only if every persisted table was such |
| RouteTable.RunsStaySynced | devnest-gateway/route_admin/route_admin_app.py:104-352 | so they agree if only readable rows are registered, and no id ending in -http unless all processes run in HTTPS mode |
| EnvFile.ReplacesAreEscape | scripts/write_integration_deploy_env.py:216-222 | the two sequential replaces equal one escape per character |
| EnvFile.UnescapeInverts | scripts/write_integration_deploy_env.py:225-239 | unescaping undoes escaping, quotes and trailing backslashes included |
| EnvFile.ParseEnvValue | scripts/write_integration_deploy_env.py:225-239 | the unescape loop returns the value of the text |
| EnvFile.ParseEnvFile | scripts/write_integration_deploy_env.py:242-253 | the line loop returns the dictionary of the text |
| EnvFile.WriteDict | scripts/write_integration_deploy_env.py:256-288 | the text holds the listed keys in their order and then the others sorted |
| EnvFile.EachKeyOnce | scripts/write_integration_deploy_env.py:284-286 | the file defines every key of the data, and each exactly once |
| EnvFile.ParsedIsWritable | scripts/write_integration_deploy_env.py:242-253 | whatever the text, every parsed key is well formed and every parsed value is on one line |
| EnvFile.FileRoundTrip | scripts/write_integration_deploy_env.py:216-288 | parsing the written file gives back the dictionary if and only if every key is well formed and no value has a line separator |
| EnvFileOutcomes.WrittenLine | scripts/write_integration_deploy_env.py:216-222 | the line of a key, and that reading it gives the value without carriage returns and line feeds |
| EnvFileOutcomes.WrittenOrder | scripts/write_integration_deploy_env.py:256-288 | of two written keys the earlier one is listed before the other, or alone is listed, or comes first alphabetically |
| EnvFileOutcomes.LineOutcome | scripts/write_integration_deploy_env.py:242-253 | any line with an equals sign defines the key before it, without white space around it, with the value of the text after it |
| EnvFileOutcomes.PassedOver | scripts/write_integration_deploy_env.py:244-249 | a line is passed over if and only if it is blank, a comment or without an equals sign |
| EnvFileOutcomes.EscapesAreUndone | scripts/write_integration_deploy_env.py:225-239 | in a quoted value a backslash stands for the character after it, whichever it is, and one at the very end for itself |
| EnvFileOutcomes.LastLineWins | scripts/write_integration_deploy_env.py:242-253 | the last line that defines a key gives its value |
| EnvFileOutcomes.LineIsSplitOff | scripts/write_integration_deploy_env.py:244-244 | the text is split at every line break, a carriage return and a line feed counting as one |
| Conninfo.ParseLibpqKeywordConninfo | scripts/write_integration_deploy_env.py:77-120 | the scanner terminates and returns the dictionary of the string, or the malformed-string error |
| Conninfo.ConninfoRoundTrip | scripts/write_integration_deploy_env.py:77-120 | scanning printed key='value' pairs gives back their dictionary, last value winning, for arbitrary values, if and only if every key is trimmed, lower-case and without equals sign |
| Conninfo.WrittenPairsAreRead | scripts/write_integration_deploy_env.py:77-120 | pairs written key=value, quoted and plain mixed and set apart by any white space, are read as their dictionary, with the keys in lower case |
| Conninfo.LastPairWins | scripts/write_integration_deploy_env.py:77-120 | in that dictionary a key has the value of its last pair |
| Conninfo.LooseWordIsRefused | scripts/write_integration_deploy_env.py:92-95 | a word without equals sign after well-formed pairs makes the whole string malformed |
| Conninfo.LibpqEscapesAreNotUndone | scripts/write_integration_deploy_env.py:77-120 | scanning a pair whose value is quoted by libpq's backslash rule gives back exactly that pair if and only if the value holds no quote and no backslash; the rest of such a value is scanned as further pairs |
| Slugs.SlugIsShaped | backend/app/libs/routing/workspace_routing.py:25-31 | a slug has lower-case letters, digits and single hyphens, at most 128 of them, no leading hyphen, and a trailing one only if cut |
| Slugs.SlugifyTwice | backend/app/libs/routing/workspace_routing.py:25-31 | slugging a slug changes nothing if and only if the cut left no trailing hyphen |
| Slugs.SlugIsOnePass | backend/app/libs/routing/workspace_routing.py:25-31 | a slug holds the letters and digits of the name in lower case and in order, with one hyphen between two of them if and only if white space or a hyphen stands between them, cut at 128 characters |
| Slugs.SlugOfWords | backend/app/libs/routing/workspace_routing.py:25-31 | so the slug of words set apart by any white space and hyphens is the words in lower case joined by single hyphens |
| Slugs.FallbacksExactly | backend/app/libs/routing/workspace_routing.py:196-215 | the fallback is used if and only if the name has no letter and no digit |
| Slugs.DecimalReads | backend/app/libs/routing/workspace_routing.py:206-215 | the number of a suffix is written in decimal without a zero in front |
| Slugs.CreatedSlug | backend/app/libs/routing/workspace_routing.py:196-215 | a new workspace gets the first candidate that no live workspace of its owner has |
| Slugs.CandidatesAreDistinct | backend/app/libs/routing/workspace_routing.py:206-215 | base, base-2, base-3, ... never repeat |
| Slugs.AllocateUnique | backend/app/libs/routing/workspace_routing.py:206-215 | the loop terminates with the first free candidate |
| Slugs.FirstFreeIsFirst | backend/app/libs/routing/workspace_routing.py:206-215 | that candidate is free, all before it are taken, and it is met within the number of taken names plus one probes |
| Slugs.RunsStayUnique | backend/app/libs/routing/workspace_routing.py:196-215 | over any serial run of creations and deletions the live workspaces of one owner have distinct slugs |
| Slugs.SameChoiceExactly | backend/app/libs/routing/workspace_routing.py:206-215 | two allocations over the same names choose alike if and only if the bases are equal, or one base is free and all earlier candidates of the other one are taken before it |
| Slugs.LateInsertCollides | backend/app/libs/routing/workspace_routing.py:196-215 | two creations that read before either inserts lose uniqueness if and only if their bases are so related |
| Slugs.DifferentBasesCollide | backend/app/libs/routing/workspace_routing.py:206-215 | with a taken, the bases a and a-2 both get a-2 |
| TenantRoutingMigration.BackfillUsers | backend/alembic/versions/0016_workspace_tenant_routing.py:62-77 | every user gets the first slug free among the earlier users |
| TenantRoutingMigration.BackfillWorkspaces | backend/alembic/versions/0016_workspace_tenant_routing.py:79-95 | every workspace gets the first slug free among the earlier ones of its owner |
| TenantRoutingMigration.BackfillIsUnique | backend/alembic/versions/0016_workspace_tenant_routing.py:62-95 | all users have distinct slugs, and all workspaces of one owner have |
| TenantRoutingMigration.BackfilledSlug | backend/alembic/versions/0016_workspace_tenant_routing.py:62-95 | a row gets the first candidate of its name that no earlier row of its owner was given |
| TenantRoutingMigration.MigrationIgnoresUserFallback | backend/alembic/versions/0016_workspace_tenant_routing.py:21-26 | migration and sign-up start a user from the same base if and only if the username leaves a slug |
| ContainerEnsure.ExtraBinds | backend/app/libs/runtime/docker_runtime.py:261-294 | extra mounts are accepted if and only if they are complete, off the project path and distinct, and are then passed on in order |
| ContainerEnsure.LastPortWins | backend/app/libs/runtime/docker_runtime.py:351-373 | an entry that is the last for its container port decides its host port |
| ContainerEnsure.PortsAreRefused | backend/app/libs/runtime/docker_runtime.py:351-373 | a port list is refused if and only if it has a container port that is not positive |
| ContainerEnsure.DockerRuntimeAdapter.EnsureContainer | backend/app/libs/runtime/docker_runtime.py:444-651 | the containers and the reply after a call |
| ContainerConvergence.CreatedSignatures | backend/app/libs/runtime/docker_runtime.py:202-294 | the signatures of a created container are the project bind and those of the extra mounts |
| ContainerConvergence.RepeatedCall | backend/app/libs/runtime/docker_runtime.py:491-531 | after a creating call the same request reuses the container if and only if it settles: workspace path given and project mount not read-only, or no workspace path and no extra mounts; else it replaces it |
| ContainerConvergence.SettledRun | backend/app/libs/runtime/docker_runtime.py:444-651 | a settled container is returned by every later call, and nothing is created or removed, whatever the engine would reply |
| ContainerConvergence.UnsettledRun | backend/app/libs/runtime/docker_runtime.py:491-531 | a request that does not settle replaces its container on every one of its calls |
| ContainerConvergence.OneCallSettles | backend/app/libs/runtime/docker_runtime.py:444-651 | one call on an obliging engine reaches a container with exactly the requested binds, kept by all later calls |
| ContainerConvergence.ReturnedContainer | backend/app/libs/runtime/docker_runtime.py:444-651 | a returned container is in the engine, and has the requested binds if reused or the created ones if new |
| ContainerConvergence.RaisedCall | backend/app/libs/runtime/docker_runtime.py:483-543 | a call that raises leaves the engine as it was, except that it has lost the container it found if and only if the binds differed and the engine removed it |
| ContainerOutcomes.FreshCallExactly | backend/app/libs/runtime/docker_runtime.py:444-651 | on an engine without containers: exactly which requests and replies create one, and its name and binds in order |
| ContainerOutcomes.AcceptedMount | backend/app/libs/runtime/docker_runtime.py:261-294 | an extra mount is refused if and only if it lacks a host or a destination or is on the project path, white space and final slashes aside |
| ContainerOutcomes.ProjectPathOutcome | backend/app/libs/runtime/docker_runtime.py:232-258 | the project directory comes from the argument that names one, must be absolute, and the two must agree if both do |
| ContainerOutcomes.GivenIdWins | backend/app/libs/runtime/docker_runtime.py:444-490 | the container with the given id is taken before the one with the name |
| ContainerOutcomes.OneBindIsKept | backend/app/libs/runtime/docker_runtime.py:491-531 | a container with one bind is kept if and only if that bind mounts the workspace path writable on the project path |
| ContainerOutcomes.KeptInAnyOrder | backend/app/libs/runtime/docker_runtime.py:491-531 | the order in which binds are reported plays no part |
| Probes.CheckTopologyState | backend/app/libs/probes/probe_runner.py:270-411 | healthy if and only if there is no issue, that is, both checks pass with an address and a valid port |
| Probes.PrependTopologyOkNoListenerHint | backend/app/libs/probes/probe_runner.py:84-111 | the loop hints the dial issues and leaves the others |
| Probes.AugmentUnreachableServiceProbe | backend/app/libs/probes/probe_runner.py:747-795 | the loop adds the diagnostics to the first dial issue only |
| Probes.DecoratorsKeepKinds | backend/app/libs/probes/probe_runner.py:747-795 | both decorators keep number, order, code, component and severity of the issues, and every issue that is not about connecting |
| Probes.HintTwice | backend/app/libs/probes/probe_runner.py:84-111 | hinting hinted issues changes nothing |
| Probes.RollUpIsCoherent | backend/app/libs/probes/probe_runner.py:797-891 | for all answers: healthy if and only if the issue list is empty, if and only if the three parts are healthy; a missing address is reported exactly once |
| Probes.HealthyMeansServing | backend/app/libs/probes/probe_runner.py:179-891 | healthy if and only if the container runs, the topology checks pass, and the service answers within the configured checks |
| ProbeOutcomes.ReportedExactly | backend/app/libs/probes/probe_runner.py:179-891 | each of the thirteen codes is reported if and only if its cause is there: a missing container, a stopped one, a timeout, a refused connection and so on, whatever the other answers |
| ProbeOutcomes.IssuesAreFiled | backend/app/libs/probes/probe_runner.py:114-891 | every issue is an error of the part of the system its code speaks about |
| ProbeOutcomes.FailedDialText | backend/app/libs/probes/probe_runner.py:84-111 | the message of a failed connection: the hint in front if the topology is healthy, the first 2400 characters of diagnostics behind, 5000 characters at most |
| ProbeOutcomes.FirstDialIsDiagnosed | backend/app/libs/probes/probe_runner.py:747-795 | of several failed connections the first carries the diagnostics, and nothing else changes |

## Left out

- Bridge, veth and namespace commands: a command succeeds, fails in a handled way or raises something unhandled, as the environment of each step says.
- Sessions, refresh and expiry of rows, logging, metrics: a commit is atomic, or fails and leaves the tables as they were.
- Hash-derived bridge and interface names, attachment ids, timestamps other than the one the janitor reads, and the wording of issues: they decide nothing here.
- Node ids are in stored form, stripped and cut at 128 characters (`Text.CleanedTwice` says when cutting twice would differ); blank text and NULL are one value; addresses are numbers; IPv6 text counts as malformed text.
- Concurrency in the serial runs: the number of uniqueness conflicts a call meets is a parameter that leaves no other trace. The interleavings themselves are in the race modules, for ensure calls, for allocate calls, and for the reads and commits of attach calls, with one attach per workspace at a time, its ensure part and every other call whole. The reads of one ensure or allocate attempt are one step.
- AllocateRace.ReleasedRowLosesUpdate: as in all results of the race modules, rows are identified by (topology, node, workspace) instead of a row number, which differ only if a row is deleted and created again between a read and its commit.
- `format_service_reachability_diagnostics` and `check_topology`: the probes take their answers as parameters.
- Redis beyond one sorted set per key with expiry, and its readings out of order; the middleware around the limiters, except for the rounding of the Retry-After header.
- YAML and file writes of the route table: a structured document replaced atomically, either well formed or empty. TLS options, middlewares and the length checks of the request body do not take part in hydration.
- `str.lower` beyond ASCII letters, in connection-string keys, slugs and container states.
- URL handling of the deploy script, the validation of the parsed dictionary, and the text encoding of its file.
- Length limits of suffixed slugs: the code enforces none. The database writes of the migration, one per row by primary key, are the list of slugs given to the rows.
- Container image, environment, labels, security options and published ports of an existing container: only the binds decide reuse. A bind is a record rather than a text with colons, and the engine reports it as created. A container is looked up by its full id or its name.
- `start`, `stop`, `restart` and `delete` of containers: single calls with a state test.
- Sockets, `nc`, `curl` and HTTP: their outcomes are parameters of the probes. Message texts appear only where the decorators read or change them.
- Frontend, autoscaler, placement, job worker, orchestrator, cleanup queue, settings and the other migrations: not part of this model.
