/** What single calls of the adapter do, told from the columns of the rows they find and write. */
module TopologyOutcomes {
  import opened Wrappers
  import opened Ipv4
  import opened Text
  import opened Rotation
  import opened HostPool
  import opened TopologyTables
  import opened SubnetPool
  import opened TopologySteps
  import opened TopologyRuns

  // ---------------------------------------------------------------- ensure

  /** The gateway and the CIDR of a runtime as its columns hold them. */
  function CidrOf(runtimes: map<NodeKey, Runtime>, n: NodeKey): CidrField {
    if n in runtimes then runtimes[n].cidr else NoCidr
  }

  function GatewayOf(runtimes: map<NodeKey, Runtime>, n: NodeKey): AddrField {
    if n in runtimes then runtimes[n].gateway else NoAddr
  }

  function BridgeOf(runtimes: map<NodeKey, Runtime>, n: NodeKey): string {
    if n in runtimes then runtimes[n].bridge else ""
  }

  /** The first address of a network that is not its own. */
  function LeastHost(net: Network): nat {
    if net.hostBits <= 1 then net.base else net.base + 1
  }

  /** What the choice makes of the stored columns and of the spec, on whichever attempt. */
  lemma ChosenPair(
    runtimes: map<NodeKey, Runtime>, n: NodeKey, existing: Option<Runtime>, spec: Spec, attempt: nat)
    requires spec.Plan? && ChooseCidrAndGateway(runtimes, n, existing, spec, attempt).Returned?
    ensures var (net, g) := ChooseCidrAndGateway(runtimes, n, existing, spec, attempt).value;
            && (if existing.Some? && existing.value.cidr != NoCidr then
                  && existing.value.cidr == Cidr(net)
                  && Addr(g) == if existing.value.gateway != NoAddr then existing.value.gateway else Addr(LeastHost(net))
                else
                  && (if spec.cidr != NoCidr then spec.cidr == Cidr(net) else IsChild(net))
                  && Addr(g) == if spec.gateway != NoAddr then spec.gateway else Addr(LeastHost(net)))
  {
    if existing.None? || existing.value.cidr.NoCidr? {
      FirstFreeChildIsFree(UsedNetworks(runtimes, n), n, attempt);
    }
    HostCount(ChooseCidrAndGateway(runtimes, n, existing, spec, attempt).value.0);
  }

  lemma ThisOrNext(runtimes: map<NodeKey, Runtime>, n: NodeKey, spec: Spec, attempt: nat, conflicts: nat)
    requires spec.Plan? && attempt < ENSURE_MAX_ATTEMPTS
    requires SettledChoice(runtimes, n, spec, attempt, conflicts).Returned?
    ensures var settled := SettledChoice(runtimes, n, spec, attempt, conflicts);
            if conflicts == 0 then settled == ChooseCidrAndGateway(runtimes, n, Stored(runtimes, n), spec, attempt)
            else attempt + 1 < ENSURE_MAX_ATTEMPTS
                 && settled == SettledChoice(runtimes, n, spec, attempt + 1, conflicts - 1)
  {
    SettledChoiceStep(runtimes, n, spec, attempt, conflicts);
  }

  /** The pair that is written comes from one of the attempts. */
  lemma {:induction false} SettledAttempt(
    runtimes: map<NodeKey, Runtime>, n: NodeKey, spec: Spec, attempt: nat, conflicts: nat) returns (a: nat)
    requires spec.Plan? && attempt < ENSURE_MAX_ATTEMPTS
    requires SettledChoice(runtimes, n, spec, attempt, conflicts).Returned?
    ensures SettledChoice(runtimes, n, spec, attempt, conflicts)
            == ChooseCidrAndGateway(runtimes, n, Stored(runtimes, n), spec, a)
    decreases conflicts
  {
    ThisOrNext(runtimes, n, spec, attempt, conflicts);
    if conflicts == 0 {
      a := attempt;
    } else {
      a := SettledAttempt(runtimes, n, spec, attempt + 1, conflicts - 1);
    }
  }

  /** A returning ensure leaves every row but its own alone, and its own with these columns: the bridge name and the
      CIDR that were stored, else those of the spec, else a pool child; the gateway that was stored, else that of the
      spec unless the CIDR was stored, else the first usable host. */
  lemma EnsuredRow(cfg: Config, runtimes: map<NodeKey, Runtime>, n: NodeKey, env: EnsureEnv)
    requires EnsureStep(cfg, runtimes, n, env).1.Returned?
    ensures env.spec.Plan?
    ensures var (runtimes', r) := EnsureStep(cfg, runtimes, n, env);
            var cidr, gateway, bridge := CidrOf(runtimes, n), GatewayOf(runtimes, n), BridgeOf(runtimes, n);
            && n in runtimes' && runtimes' - {n} == runtimes - {n} && r.value == runtimes'[n]
            && runtimes'[n].bridge == (if bridge != "" then bridge else env.spec.bridge)
            && (if cidr != NoCidr then runtimes'[n].cidr == cidr
                else if env.spec.cidr != NoCidr then runtimes'[n].cidr == env.spec.cidr
                else runtimes'[n].cidr.Cidr? && IsChild(runtimes'[n].cidr.net))
            && (if gateway != NoAddr then runtimes'[n].gateway == gateway
                else if cidr == NoCidr && env.spec.gateway != NoAddr then runtimes'[n].gateway == env.spec.gateway
                else runtimes'[n].cidr.Cidr? && runtimes'[n].gateway == Addr(LeastHost(runtimes'[n].cidr.net)))
            && runtimes'[n].status == if cfg.linuxBridge && !env.bridgeReady then Degraded else Ready
  {
    if !(n in runtimes && runtimes[n].Complete()) {
      var a := SettledAttempt(runtimes, n, env.spec, 0, env.conflicts);
      ChosenPair(runtimes, n, Stored(runtimes, n), env.spec, a);
    }
  }

  predicate Fits(wanted: AddrField, net: Network) {
    wanted == NoAddr || (wanted.Addr? && net.Contains(wanted.ip))
  }

  /** Another node of the topology stores a network that overlaps this one. */
  ghost predicate InUse(runtimes: map<NodeKey, Runtime>, n: NodeKey, net: Network) {
    exists m :: m in runtimes && m.topologyId == n.topologyId && m.nodeId != n.nodeId && runtimes[m].cidr.Cidr?
                && runtimes[m].cidr.net.Overlaps(net)
  }

  lemma OverlapsBothWays(a: Network, b: Network)
    ensures a.Overlaps(b) <==> b.Overlaps(a)
  {
  }

  lemma InUseMeansOverlapsAny(runtimes: map<NodeKey, Runtime>, n: NodeKey, net: Network)
    ensures InUse(runtimes, n, net) <==> OverlapsAny(net, UsedNetworks(runtimes, n))
  {
    if InUse(runtimes, n, net) {
      var m :| m in runtimes && m.topologyId == n.topologyId && m.nodeId != n.nodeId && runtimes[m].cidr.Cidr?
               && runtimes[m].cidr.net.Overlaps(net);
      OverlapsBothWays(runtimes[m].cidr.net, net);
      assert runtimes[m].cidr.net in UsedNetworks(runtimes, n);
    }
    if OverlapsAny(net, UsedNetworks(runtimes, n)) {
      var u :| u in UsedNetworks(runtimes, n) && net.Overlaps(u);
      var m :| m in runtimes && m.topologyId == n.topologyId && m != n && runtimes[m].cidr.Cidr?
               && runtimes[m].cidr.net == u;
      OverlapsBothWays(u, net);
      assert runtimes[m].cidr.net.Overlaps(net);
    }
  }

  /** Child k is the first one that no other node of the topology has taken. */
  ghost predicate FirstLeft(runtimes: map<NodeKey, Runtime>, n: NodeKey, k: nat) {
    k < CHILDREN && !InUse(runtimes, n, Child(k)) && forall j: nat :: j < k ==> InUse(runtimes, n, Child(j))
  }

  /** There is a CIDR with a gateway that fits it: the stored one, else the one of the spec if no other node is in its
      way, else the first pool child that is left. */
  ghost predicate Choosable(runtimes: map<NodeKey, Runtime>, n: NodeKey, spec: Spec)
    requires spec.Plan?
  {
    if CidrOf(runtimes, n) != NoCidr then
      CidrOf(runtimes, n).Cidr? && Fits(GatewayOf(runtimes, n), CidrOf(runtimes, n).net)
    else if spec.cidr != NoCidr then
      spec.cidr.Cidr? && !InUse(runtimes, n, spec.cidr.net) && Fits(spec.gateway, spec.cidr.net)
    else exists k: nat :: FirstLeft(runtimes, n, k) && Fits(spec.gateway, Child(k))
  }

  lemma FirstChoice(runtimes: map<NodeKey, Runtime>, n: NodeKey, spec: Spec)
    requires spec.Plan?
    ensures ChooseCidrAndGateway(runtimes, n, Stored(runtimes, n), spec, 0).Returned? <==> Choosable(runtimes, n, spec)
  {
    if CidrOf(runtimes, n) == NoCidr && spec.cidr.Cidr? {
      InUseMeansOverlapsAny(runtimes, n, spec.cidr.net);
    } else if CidrOf(runtimes, n) == NoCidr && spec.cidr == NoCidr {
      FirstLeftIsPicked(runtimes, n);
    }
  }

  lemma FirstLeftIsPicked(runtimes: map<NodeKey, Runtime>, n: NodeKey)
    ensures forall k: nat ::
              FirstLeft(runtimes, n, k)
              <==> k < CHILDREN && FirstFreeChild(UsedNetworks(runtimes, n), n, 0) == Some(Child(k))
  {
    var used := UsedNetworks(runtimes, n);
    forall j: nat | j < CHILDREN ensures InUse(runtimes, n, Child(j)) <==> OverlapsAny(Child(j), used) {
      InUseMeansOverlapsAny(runtimes, n, Child(j));
    }
    forall k: nat | k < CHILDREN
      ensures FirstFreeChild(used, n, 0) == Some(Child(k))
              <==> !OverlapsAny(Child(k), used) && forall j: nat :: j < k ==> OverlapsAny(Child(j), used)
    {
      FirstFreeAtZero(used, n, k);
    }
  }

  /** Without conflicts, ensure returns exactly if the node is named, the spec is usable, its writes go through, and an
      incomplete row can be completed. */
  lemma EnsureReturnsExactly(cfg: Config, runtimes: map<NodeKey, Runtime>, n: NodeKey, env: EnsureEnv)
    requires env.conflicts == 0
    ensures EnsureStep(cfg, runtimes, n, env).1.Returned?
            <==> && n.nodeId != "" && env.spec.Plan? && env.syncCommits
                 && (CidrOf(runtimes, n) == NoCidr || GatewayOf(runtimes, n) == NoAddr || BridgeOf(runtimes, n) == "" ==>
                       env.rowCommits && Choosable(runtimes, n, env.spec))
  {
    if env.spec.Plan? {
      FirstChoice(runtimes, n, env.spec);
    }
  }

  /** Whatever the replies, a stored column stays, and so do all other rows. */
  lemma EnsureKeepsColumns(cfg: Config, runtimes: map<NodeKey, Runtime>, n: NodeKey, env: EnsureEnv)
    ensures var runtimes' := EnsureStep(cfg, runtimes, n, env).0;
            && runtimes' - {n} == runtimes - {n} && (n in runtimes ==> n in runtimes')
            && (CidrOf(runtimes, n) != NoCidr ==> CidrOf(runtimes', n) == CidrOf(runtimes, n))
            && (GatewayOf(runtimes, n) != NoAddr ==> GatewayOf(runtimes', n) == GatewayOf(runtimes, n))
            && (BridgeOf(runtimes, n) != "" ==> BridgeOf(runtimes', n) == BridgeOf(runtimes, n))
  {
  }

  /** With the pool to choose from, ensure bears fifteen lost races for a row and no more. */
  lemma EnsureBearsConflicts(cfg: Config, runtimes: map<NodeKey, Runtime>, n: NodeKey, env: EnsureEnv)
    requires n.nodeId != "" && n !in runtimes && env.spec.Plan? && env.spec.cidr == NoCidr && env.spec.gateway == NoAddr
    requires env.rowCommits && env.syncCommits && exists k: nat :: k < CHILDREN && !InUse(runtimes, n, Child(k))
    ensures EnsureStep(cfg, runtimes, n, env).1.Returned? <==> env.conflicts < 16
  {
    var k: nat :| k < CHILDREN && !InUse(runtimes, n, Child(k));
    InUseMeansOverlapsAny(runtimes, n, Child(k));
    PoolSettles(runtimes, n, env.spec, env.conflicts, k);
    NewRowReturns(cfg, runtimes, n, env);
  }

  lemma PoolSettles(runtimes: map<NodeKey, Runtime>, n: NodeKey, spec: Spec, conflicts: nat, k: nat)
    requires spec.Plan? && spec.cidr == NoCidr && spec.gateway == NoAddr && n !in runtimes
    requires k < CHILDREN && !OverlapsAny(Child(k), UsedNetworks(runtimes, n))
    ensures SettledChoice(runtimes, n, spec, 0, conflicts).Returned? <==> conflicts < 16
  {
    var settles := Settling(runtimes, n, spec);
    forall a: nat, c: nat | a < 16 ensures GoesOn(settles, a, c) {
      OneMoreAttempt(runtimes, n, spec, a, c, k);
    }
    SettlesInTime(settles, 0, conflicts);
  }

  /** Whether attempt a settles when so many conflicts are still to come. */
  function Settling(runtimes: map<NodeKey, Runtime>, n: NodeKey, spec: Spec): (nat, nat) -> bool
    requires spec.Plan?
  {
    (a: nat, conflicts: nat) => a < 16 && SettledChoice(runtimes, n, spec, a, conflicts).Returned?
  }

  lemma PoolChoiceReturns(runtimes: map<NodeKey, Runtime>, n: NodeKey, spec: Spec, attempt: nat, k: nat)
    requires spec.Plan? && spec.cidr == NoCidr && spec.gateway == NoAddr && n !in runtimes
    requires k < CHILDREN && !OverlapsAny(Child(k), UsedNetworks(runtimes, n))
    ensures ChooseCidrAndGateway(runtimes, n, Stored(runtimes, n), spec, attempt).Returned?
  {
    FirstFreeChildIsFree(UsedNetworks(runtimes, n), n, attempt);
  }

  lemma OneMoreAttempt(runtimes: map<NodeKey, Runtime>, n: NodeKey, spec: Spec, a: nat, conflicts: nat, k: nat)
    requires spec.Plan? && spec.cidr == NoCidr && spec.gateway == NoAddr && n !in runtimes && a < 16
    requires k < CHILDREN && !OverlapsAny(Child(k), UsedNetworks(runtimes, n))
    ensures GoesOn(Settling(runtimes, n, spec), a, conflicts)
  {
    PoolChoiceReturns(runtimes, n, spec, a, k);
    StepSettles(runtimes, n, spec, a, conflicts);
    AsStep(runtimes, n, spec, a, conflicts);
  }

  lemma StepSettles(runtimes: map<NodeKey, Runtime>, n: NodeKey, spec: Spec, a: nat, conflicts: nat)
    requires spec.Plan? && a < 16 && ChooseCidrAndGateway(runtimes, n, Stored(runtimes, n), spec, a).Returned?
    ensures SettledChoice(runtimes, n, spec, a, conflicts).Returned?
            <==> conflicts == 0 || (a + 1 < 16 && SettledChoice(runtimes, n, spec, a + 1, conflicts - 1).Returned?)
  {
    SettledChoiceStep(runtimes, n, spec, a, conflicts);
  }

  lemma AsStep(runtimes: map<NodeKey, Runtime>, n: NodeKey, spec: Spec, a: nat, conflicts: nat)
    requires spec.Plan? && a < 16
    requires SettledChoice(runtimes, n, spec, a, conflicts).Returned?
             <==> conflicts == 0 || (a + 1 < 16 && SettledChoice(runtimes, n, spec, a + 1, conflicts - 1).Returned?)
    ensures GoesOn(Settling(runtimes, n, spec), a, conflicts)
  {
  }

  lemma NewRowReturns(cfg: Config, runtimes: map<NodeKey, Runtime>, n: NodeKey, env: EnsureEnv)
    requires n.nodeId != "" && n !in runtimes && env.spec.Plan? && env.rowCommits && env.syncCommits
    ensures EnsureStep(cfg, runtimes, n, env).1.Returned?
            <==> SettledChoice(runtimes, n, env.spec, 0, env.conflicts).Returned?
  {
  }

  /** Attempt a settles at once without a conflict, and otherwise if there is a next attempt and that one settles. */
  predicate GoesOn(settles: (nat, nat) -> bool, a: nat, conflicts: nat) {
    settles(a, conflicts) <==> conflicts == 0 || (a + 1 < 16 && settles(a + 1, conflicts - 1))
  }

  lemma {:induction false} SettlesInTime(settles: (nat, nat) -> bool, a: nat, conflicts: nat)
    requires a < 16 && forall b: nat, c: nat :: b < 16 ==> GoesOn(settles, b, c)
    ensures settles(a, conflicts) <==> a + conflicts < 16
    decreases conflicts
  {
    assert GoesOn(settles, a, conflicts);
    if conflicts > 0 && a + 1 < 16 {
      SettlesInTime(settles, a + 1, conflicts - 1);
    }
  }

  /** On an empty topology a retry starts at a child spread by topology, node and attempt. */
  lemma RetriesSpreadChildren(n: NodeKey, retryIndex: nat)
    requires retryIndex > 0
    ensures FirstFreeChild({}, n, retryIndex)
            == Some(Child((retryIndex * 7919 + n.topologyId * 17 + OrdinalSum(n.nodeId)) % 2048))
  {
  }

  /** An ensure call raises the handled error, except where the bridge is off and the last write fails. Then, and
      whenever only that write fails, an incomplete row has its columns all the same. */
  lemma EnsureErrors(cfg: Config, runtimes: map<NodeKey, Runtime>, n: NodeKey, env: EnsureEnv)
    requires EnsureStep(cfg, runtimes, n, env).1.Raised?
    ensures var (runtimes', r) := EnsureStep(cfg, runtimes, n, env);
            var (synced, reply) := EnsureStep(cfg, runtimes, n, env.(syncCommits := true));
            && r == Raised(if reply.Returned? && !cfg.linuxBridge then UnhandledError else RuntimeCreateError)
            && (if reply.Returned? then
                  && n in runtimes' && n in synced && runtimes' - {n} == synced - {n}
                  && runtimes'[n].bridge == synced[n].bridge && runtimes'[n].cidr == synced[n].cidr
                  && runtimes'[n].gateway == synced[n].gateway
                  && runtimes'[n].status == (if n in runtimes then runtimes[n].status else Ready)
                else runtimes' == runtimes)
  {
  }

  // ---------------------------------------------------------------- allocate

  /** An active lease of the node holds the address. */
  ghost predicate Leased(leases: map<WorkspaceKey, Lease>, n: NodeKey, a: int) {
    exists j :: j in leases && j.node == n && leases[j].active && leases[j].ip == a
  }

  /** On a READY runtime whose gateway lies in its CIDR, a first allocation raises exactly if every assignable address
      is leased, or its races are lost 24 times, or its row cannot be written; a raise changes nothing. */
  lemma AllocateReturnsExactly(t: Tables, k: WorkspaceKey, env: AllocateEnv)
    requires k.node in t.runtimes && RuntimeSound(k.node, t.runtimes[k.node]) && t.runtimes[k.node].status == Ready
    requires !ActiveLease(t.leases, k)
    ensures var row, (leases, r) := t.runtimes[k.node], AllocateStep(t, k, env);
            && (r.Raised? <==>
                  || (forall a: int :: Assignable(row.cidr.net, row.gateway.ip, a) ==> Leased(t.leases, k.node, a))
                  || env.conflicts >= 24 || !env.commits)
            && (r.Raised? ==> r == Raised(IpAllocationError) && leases == t.leases)
  {
    var row := t.runtimes[k.node];
    AllLeasedMeansExhausted(t, k);
    PickFailsAlike(t.runtimes, t.leases, k, 0, env.conflicts);
    PickFailsAlike(t.runtimes, t.leases, k, env.conflicts, 0);
  }

  lemma LeasedMeansUsed(leases: map<WorkspaceKey, Lease>, n: NodeKey, a: nat)
    ensures Leased(leases, n, a) <==> a in LeasedIps(leases, n)
  {
  }

  lemma AllLeasedMeansExhausted(t: Tables, k: WorkspaceKey)
    requires k.node in t.runtimes && RuntimeSound(k.node, t.runtimes[k.node]) && t.runtimes[k.node].status == Ready
    ensures AllocateRefusal(t.runtimes, k.node).None?
    ensures var row := t.runtimes[k.node];
            PickedIp(t.runtimes, t.leases, k, 0).Raised?
            <==> forall a: int :: Assignable(row.cidr.net, row.gateway.ip, a) ==> Leased(t.leases, k.node, a)
    ensures PickedIp(t.runtimes, t.leases, k, 0).Raised? ==>
              PickedIp(t.runtimes, t.leases, k, 0) == Raised(IpAllocationError)
  {
    var row := t.runtimes[k.node];
    var candidates := Candidates(row.cidr.net, row.gateway.ip);
    PickFailsOnlyWhenExhausted(candidates, LeasedIps(t.leases, k.node), 0);
    forall a: int | Assignable(row.cidr.net, row.gateway.ip, a) ensures a in candidates {
      CandidatesExactly(row.cidr.net, row.gateway.ip, a);
    }
    forall i | 0 <= i < |candidates| ensures Assignable(row.cidr.net, row.gateway.ip, candidates[i]) {
      CandidatesExactly(row.cidr.net, row.gateway.ip, candidates[i]);
      assert candidates[i] in candidates;
    }
    forall a: nat | a in candidates ensures Leased(t.leases, k.node, a) <==> a in LeasedIps(t.leases, k.node) {
      LeasedMeansUsed(t.leases, k.node, a);
    }
  }

  /** What it returns is an assignable address that is not leased, the least one if no race is lost; and it leases it.
      */
  lemma AllocateReturnsLeast(t: Tables, k: WorkspaceKey, env: AllocateEnv)
    requires k.node in t.runtimes && RuntimeSound(k.node, t.runtimes[k.node])
    requires !ActiveLease(t.leases, k) && AllocateStep(t, k, env).1.Returned?
    ensures var row, (leases, r) := t.runtimes[k.node], AllocateStep(t, k, env);
            var ip := r.value.workspaceIp;
            && !r.value.leasedExisting && leases == t.leases[k := Lease(ip, true)]
            && Assignable(row.cidr.net, row.gateway.ip, ip) && !Leased(t.leases, k.node, ip)
            && (env.conflicts == 0 ==>
                  forall a: nat :: a < ip && Assignable(row.cidr.net, row.gateway.ip, a) ==> Leased(t.leases, k.node, a))
  {
    var row := t.runtimes[k.node];
    var candidates, used := Candidates(row.cidr.net, row.gateway.ip), LeasedIps(t.leases, k.node);
    var ip := AllocateStep(t, k, env).1.value.workspaceIp;
    assert ip in candidates && ip !in used;
    CandidatesExactly(row.cidr.net, row.gateway.ip, ip);
    LeasedMeansUsed(t.leases, k.node, ip);
    if env.conflicts == 0 {
      forall a: nat | a < ip && Assignable(row.cidr.net, row.gateway.ip, a) ensures Leased(t.leases, k.node, a) {
        CandidatesExactly(row.cidr.net, row.gateway.ip, a);
        LeasedMeansUsed(t.leases, k.node, a);
        LeastIsPicked(row.cidr.net, row.gateway.ip, used, ip, a);
      }
    }
  }

  /** A first attempt picks no address while a smaller candidate is unused. */
  lemma LeastIsPicked(net: Network, gateway: nat, used: set<nat>, ip: nat, a: nat)
    requires PickFreeHost(Candidates(net, gateway), used, 0) == Some(ip)
    requires a in Candidates(net, gateway) && a < ip
    ensures a in used
  {
    var candidates := Candidates(net, gateway);
    CandidatesAreUsableHosts(net, gateway);
    var i :| 0 <= i < |candidates| && candidates[i] == a;
    if a !in used {
      var f := FirstUnused(candidates, used, i);
      PickAtZeroKeepsOrder(candidates, used, f);
    }
  }

  lemma {:induction false} FirstUnused(candidates: seq<nat>, used: set<nat>, i: nat) returns (f: nat)
    requires i < |candidates| && candidates[i] !in used
    ensures f <= i && candidates[f] !in used && forall j :: 0 <= j < f ==> candidates[j] in used
  {
    if j: nat :| j < i && candidates[j] !in used {
      f := FirstUnused(candidates, used, j);
    } else {
      f := i;
    }
  }

  /** An active lease is returned again, and nothing is written. */
  lemma AllocateKeepsLease(t: Tables, k: WorkspaceKey, env: AllocateEnv)
    requires ActiveLease(t.leases, k) && AllocateStep(t, k, env).1.Returned?
    ensures AllocateStep(t, k, env) == (t.leases, Returned(AllocateResult(t.leases[k].ip, true)))
  {
  }

  /** Allocation needs a READY runtime with a CIDR and a gateway: without one it raises and changes nothing. */
  lemma AllocateNeedsReady(t: Tables, k: WorkspaceKey, env: AllocateEnv)
    requires k.node !in t.runtimes || t.runtimes[k.node].status != Ready
             || CidrOf(t.runtimes, k.node) == NoCidr || GatewayOf(t.runtimes, k.node) == NoAddr
    ensures AllocateStep(t, k, env)
            == (t.leases, Raised(if k.node in t.runtimes then IpAllocationError else RuntimeNotFoundError))
  {
  }

  /** A runtime whose CIDR does not parse makes a first allocation fail unhandled; a gateway that does not parse or lies
      outside the CIDR makes it fail with the handled error. */
  lemma AllocateOnBrokenRow(t: Tables, k: WorkspaceKey, env: AllocateEnv)
    requires k.node in t.runtimes && t.runtimes[k.node].status == Ready && !ActiveLease(t.leases, k)
    requires t.runtimes[k.node].cidr != NoCidr && t.runtimes[k.node].gateway != NoAddr
    requires t.runtimes[k.node].cidr.Cidr? ==> !Fits(t.runtimes[k.node].gateway, t.runtimes[k.node].cidr.net)
    ensures AllocateStep(t, k, env)
            == (t.leases, Raised(if t.runtimes[k.node].cidr.BadCidr? then UnhandledError else IpAllocationError))
  {
  }

  /** While no lease is active, attempt r starts at a candidate spread by workspace, node and attempt. */
  lemma RetriesSpreadHosts(t: Tables, k: WorkspaceKey, retryIndex: nat)
    requires k.node in t.runtimes && RuntimeSound(k.node, t.runtimes[k.node]) && t.runtimes[k.node].status == Ready
    requires retryIndex > 0 && forall j :: j in t.leases ==> !t.leases[j].active
    ensures var candidates := Candidates(t.runtimes[k.node].cidr.net, t.runtimes[k.node].gateway.ip);
            var spread := retryIndex * 10_007 + k.workspaceId * 31 + OrdinalSum(k.node.nodeId);
            candidates != [] ==>
              PickedIp(t.runtimes, t.leases, k, retryIndex) == Returned(candidates[spread % |candidates|])
  {
    var candidates := Candidates(t.runtimes[k.node].cidr.net, t.runtimes[k.node].gateway.ip);
    var spread := retryIndex * 10_007 + k.workspaceId * 31 + OrdinalSum(k.node.nodeId);
    assert LeasedIps(t.leases, k.node) == {};
    if candidates != [] {
      PickAtOffset(candidates, ScanOffset(k, |candidates|, retryIndex));
      RemainderTwice(spread, |candidates|);
    }
  }

  lemma PickAtOffset(candidates: seq<nat>, offset: nat)
    requires candidates != []
    ensures PickFreeHost(candidates, {}, offset) == Some(candidates[offset % |candidates|])
  {
    ScanStep(|candidates|, offset % |candidates|, FreeIn(candidates, {}), 0);
  }

  lemma RemainderTwice(a: int, n: nat)
    requires n > 0
    ensures a % n % n == a % n
  {
  }

  // ---------------------------------------------------------------- readiness

  /** A failing bridge setup leaves the runtime DEGRADED, and the node refuses allocations and attaches until an ensure
      call sets the bridge up. */
  lemma FailedBridgeRefuses(
    cfg: Config, t: Tables, n: NodeKey, env: EnsureEnv, k: WorkspaceKey, allocateEnv: AllocateEnv)
    requires cfg.linuxBridge && !env.bridgeReady && k.node == n
    requires EnsureStep(cfg, t.runtimes, n, env).1.Returned?
    ensures var t' := t.(runtimes := EnsureStep(cfg, t.runtimes, n, env).0);
            && n in t'.runtimes && t'.runtimes[n].status == Degraded
            && AllocateStep(t', k, allocateEnv) == (t'.leases, Raised(IpAllocationError))
  {
    EnsuredRow(cfg, t.runtimes, n, env);
  }

  lemma AttachNeedsReadyBridge(cfg: Config, t: Tables, k: WorkspaceKey, req: AttachRequest, env: AttachEnv)
    requires cfg.linuxBridge && !env.ensure.bridgeReady
    ensures var (t', r) := AttachStep(cfg, t, k, req, env);
            r.Raised? && t'.leases == t.leases && t'.attachments == t.attachments
  {
    if EnsureStep(cfg, t.runtimes, k.node, env.ensure).1.Returned? {
      EnsuredRow(cfg, t.runtimes, k.node, env.ensure);
    }
  }

  // ---------------------------------------------------------------- attach

  /** The runtime, once ensured, is READY and its CIDR holds the requested address, which an active lease of the
      workspace holds too; and the request names a container and a network namespace. */
  predicate PassesChecks(
    runtimes: map<NodeKey, Runtime>, leases: map<WorkspaceKey, Lease>, k: WorkspaceKey, req: AttachRequest)
  {
    && Cleaned(req.container) != "" && req.netnsOk
    && k.node in runtimes && runtimes[k.node].status == Ready
    && runtimes[k.node].cidr.Cidr? && runtimes[k.node].cidr.net.Contains(req.workspaceIp)
    && k in leases && leases[k] == Lease(req.workspaceIp, true)
  }

  /** The row is ATTACHED already, for this container and address. */
  predicate IsKnown(t: Tables, k: WorkspaceKey, req: AttachRequest) {
    && k in t.attachments && t.attachments[k].status == Attached
    && t.attachments[k].containerId == Cleaned(req.container) && t.attachments[k].workspaceIp == Addr(req.workspaceIp)
  }

  lemma GuardMeansPasses(t: Tables, k: WorkspaceKey, req: AttachRequest)
    requires k.node in t.runtimes && t.runtimes[k.node].Complete() && Cleaned(req.container) != ""
    ensures Guard(t, k, req).None? <==> PassesChecks(t.runtimes, t.leases, k, req)
    ensures Guard(t, k, req).Some? ==> Guard(t, k, req).value == AttachmentError
  {
  }

  lemma ReturnedIsComplete(cfg: Config, runtimes: map<NodeKey, Runtime>, n: NodeKey, env: EnsureEnv)
    requires EnsureStep(cfg, runtimes, n, env).1.Returned?
    ensures var runtimes' := EnsureStep(cfg, runtimes, n, env).0; n in runtimes' && runtimes'[n].Complete()
  {
  }

  /** Attach commits a row exactly if the checks pass and a known row, if there is one, is found not to match the host.
      */
  lemma AttachCommitsExactly(cfg: Config, t: Tables, k: WorkspaceKey, req: AttachRequest, env: AttachEnv)
    ensures var (runtimes, ensured) := EnsureStep(cfg, t.runtimes, k.node, env.ensure);
            CommitsAttaching(cfg, t, k, req, env)
            <==> && ensured.Returned? && PassesChecks(runtimes, t.leases, k, req) && env.attachingCommits
                 && (IsKnown(t, k, req) ==> cfg.linuxAttachment && env.fastVerify == Mismatch)
  {
    if EnsureStep(cfg, t.runtimes, k.node, env.ensure).1.Returned? {
      EnsuredRow(cfg, t.runtimes, k.node, env.ensure);
    }
  }

  /** Everything after the checks goes well: a known row is found to match the host, or the row is committed, wired and
      committed again, and found to match. */
  predicate Succeeds(cfg: Config, t: Tables, k: WorkspaceKey, req: AttachRequest, env: AttachEnv) {
    if IsKnown(t, k, req) && (cfg.linuxAttachment ==> env.fastVerify != Mismatch)
    then cfg.linuxAttachment ==> env.fastVerify == Clean
    else env.attachingCommits && env.attachedCommits
         && (cfg.linuxAttachment ==> env.wiring == WiringDone && env.postVerify == Clean)
  }

  lemma PathReturns(cfg: Config, t: Tables, k: WorkspaceKey, req: AttachRequest, env: AttachEnv)
    requires Guard(t, k, req).None?
    ensures var r := AttachEnsured(cfg, t, k, req, env).1;
            (r.Returned? <==> Succeeds(cfg, t, k, req, env)) && (r.Returned? ==> r.value == req.workspaceIp)
  {
  }

  /** And it returns, with the requested address, exactly if the checks pass and everything after them goes well. */
  lemma AttachReturnsExactly(cfg: Config, t: Tables, k: WorkspaceKey, req: AttachRequest, env: AttachEnv)
    ensures var (runtimes, ensured) := EnsureStep(cfg, t.runtimes, k.node, env.ensure);
            var r := AttachStep(cfg, t, k, req, env).1;
            && (r.Returned? <==>
                  ensured.Returned? && PassesChecks(runtimes, t.leases, k, req) && Succeeds(cfg, t, k, req, env))
            && (r.Returned? ==> r.value == req.workspaceIp)
  {
    var (runtimes, ensured) := EnsureStep(cfg, t.runtimes, k.node, env.ensure);
    if Cleaned(req.container) != "" && ensured.Returned? {
      var t1 := t.(runtimes := runtimes);
      ReturnedIsComplete(cfg, t.runtimes, k.node, env.ensure);
      GuardMeansPasses(t1, k, req);
      assert Succeeds(cfg, t1, k, req, env) == Succeeds(cfg, t, k, req, env);
      if Guard(t1, k, req).None? {
        PathReturns(cfg, t1, k, req, env);
      }
    }
  }

  /** The row that an attach call leaves when it commits one, column by column; other rows stay. */
  lemma AttachedRow(cfg: Config, t: Tables, k: WorkspaceKey, req: AttachRequest, env: AttachEnv)
    requires CommitsAttaching(cfg, t, k, req, env)
    ensures var t' := AttachStep(cfg, t, k, req, env).0;
            && k in t'.attachments && t'.attachments - {k} == t.attachments - {k} && k.node in t'.runtimes
            && var a, status := t'.attachments[k],
                   if EscapesWiring(cfg, env) then Attaching
                   else if FailsBeforeAttached(cfg, env) then if env.failedCommits then Failed else Attaching
                   else if FailsAfterAttached(cfg, env) && env.failedCommits then Failed
                   else Attached;
               a == Attachment(status, Cleaned(req.container), Addr(req.workspaceIp), BridgeOf(t'.runtimes, k.node),
                               GatewayOf(t'.runtimes, k.node), env.now)
  {
  }

  /** Attach stores what ensuring stores, and touches a lease only to free its own workspace's: after a handled failure
      of a workspace without a row. */
  lemma AttachTouches(cfg: Config, t: Tables, k: WorkspaceKey, req: AttachRequest, env: AttachEnv)
    ensures var t' := AttachStep(cfg, t, k, req, env).0;
            var frees := CommitsAttaching(cfg, t, k, req, env) && k !in t.attachments && env.releaseCommits
                         && (FailsBeforeAttached(cfg, env) || FailsAfterAttached(cfg, env));
            && t'.runtimes == (if Cleaned(req.container) == "" then t.runtimes
                               else EnsureStep(cfg, t.runtimes, k.node, env.ensure).0)
            && (if frees then k in t.leases && t'.leases == t.leases[k := Lease(t.leases[k].ip, false)]
                else t'.leases == t.leases)
            && (!CommitsAttaching(cfg, t, k, req, env) ==> t'.attachments == t.attachments)
  {
  }

  /** The check of the host itself raised, before or after the wiring, or the wiring let an error through. */
  predicate Escapes(cfg: Config, t: Tables, k: WorkspaceKey, req: AttachRequest, env: AttachEnv) {
    && cfg.linuxAttachment
    && if IsKnown(t, k, req) && env.fastVerify != Mismatch then env.fastVerify == CheckRaises
       else env.attachingCommits
            && (|| env.wiring == WiringEscapes
                || (env.wiring == WiringDone && env.attachedCommits && env.postVerify == CheckRaises))
  }

  lemma PathError(cfg: Config, t: Tables, k: WorkspaceKey, req: AttachRequest, env: AttachEnv)
    requires Guard(t, k, req).None? && AttachEnsured(cfg, t, k, req, env).1.Raised?
    ensures AttachEnsured(cfg, t, k, req, env).1
            == Raised(if Escapes(cfg, t, k, req, env) then UnhandledError else AttachmentError)
  {
  }

  /** The error of a raising attach: that of ensuring, or the handled one, except where something escapes. */
  lemma AttachErrors(cfg: Config, t: Tables, k: WorkspaceKey, req: AttachRequest, env: AttachEnv)
    requires AttachStep(cfg, t, k, req, env).1.Raised?
    ensures var (runtimes, ensured) := EnsureStep(cfg, t.runtimes, k.node, env.ensure);
            AttachStep(cfg, t, k, req, env).1
            == Raised(if Cleaned(req.container) == "" then AttachmentError
                      else if ensured.Raised? then ensured.error
                      else if PassesChecks(runtimes, t.leases, k, req) && Escapes(cfg, t, k, req, env)
                      then UnhandledError
                      else AttachmentError)
  {
    var (runtimes, ensured) := EnsureStep(cfg, t.runtimes, k.node, env.ensure);
    if Cleaned(req.container) != "" && ensured.Returned? {
      var t1 := t.(runtimes := runtimes);
      ReturnedIsComplete(cfg, t.runtimes, k.node, env.ensure);
      GuardMeansPasses(t1, k, req);
      assert Escapes(cfg, t1, k, req, env) == Escapes(cfg, t, k, req, env);
      if Guard(t1, k, req).None? {
        PathError(cfg, t1, k, req, env);
      }
    }
  }

  // ---------------------------------------------------------------- release, detach and delete

  /** A release ends the active lease of its workspace and keeps its address in the row; without one, or when it cannot
      be written, nothing changes. */
  lemma ReleaseOutcome(leases: map<WorkspaceKey, Lease>, k: WorkspaceKey, commits: bool)
    ensures var (leases', r), active := ReleaseStep(leases, k, commits), k in leases && leases[k].active;
            && leases' == (if active && commits then leases[k := Lease(leases[k].ip, false)] else leases)
            && r == if active && !commits then Raised(IpAllocationError) else Returned(active)
  {
  }


  /** A detach clears the row of its workspace, or finds nothing to do, or fails and changes nothing. */
  lemma DetachOutcome(cfg: Config, attachments: map<WorkspaceKey, Attachment>, k: WorkspaceKey, env: DetachEnv)
    ensures var (attachments', r) := DetachStep(cfg, attachments, k, env);
            && attachments'.Keys == attachments.Keys && attachments' - {k} == attachments - {k}
            && (r == Returned(true) <==>
                  && k in attachments && attachments[k].status != Detached
                  && env.commits && (cfg.linuxAttachment ==> env.vethRemoved))
            && (r == Returned(true) ==>
                  var a := attachments[k];
                  attachments'[k] == Attachment(Detached, "", a.workspaceIp, a.bridge, a.gateway, env.now))
            && (r != Returned(true) ==> attachments' == attachments)
            && (r == Returned(false) <==> k !in attachments || attachments[k].status == Detached)
            && (r.Raised? ==> r == Raised(DetachError))
  {
  }

  /** A delete removes the runtime and the rows of a node exactly if no row of it stands in the way, and never a lease.
      */
  lemma DeleteOutcome(cfg: Config, t: Tables, n: NodeKey, env: DeleteEnv)
    ensures var (t', r) := DeleteStep(cfg, t, n, env);
            var deletes := n.nodeId != "" && env.commits
                           && forall k :: k in t.attachments && k.node == n ==> t.attachments[k].status == Detached;
            && t'.leases == t.leases
            && t'.runtimes == (if deletes then t.runtimes - {n} else t.runtimes)
            && (forall k :: k in t'.attachments <==> k in t.attachments && !(deletes && k.node == n))
            && (forall k :: k in t'.attachments ==> t'.attachments[k] == t.attachments[k])
  {
    assert n !in t.runtimes ==> t.runtimes - {n} == t.runtimes;
  }

  /** A delete returns exactly if no row stands in the way, the removal is written if there is a runtime, and a named
      bridge can be taken down where bridges are on. */
  lemma DeleteReturnsExactly(cfg: Config, t: Tables, n: NodeKey, env: DeleteEnv)
    ensures var r := DeleteStep(cfg, t, n, env).1;
            && (r.Returned? <==>
                  && n.nodeId != ""
                  && (forall k :: k in t.attachments && k.node == n ==> t.attachments[k].status == Detached)
                  && (n in t.runtimes ==>
                        env.commits && (cfg.linuxBridge && t.runtimes[n].bridge != "" ==> env.bridgeRemoved)))
            && (r.Raised? ==> r == Raised(DeleteError))
  {
  }

  /** After the only row of a node that was in the way is detached, a delete of the node is not refused. */
  lemma DetachUnblocksDelete(cfg: Config, t: Tables, k: WorkspaceKey, env: DetachEnv, deleteEnv: DeleteEnv)
    requires DetachStep(cfg, t.attachments, k, env).1 == Returned(true) && k.node.nodeId != "" && deleteEnv.commits
    requires forall j :: j in t.attachments && j.node == k.node && j != k ==> t.attachments[j].status == Detached
    ensures var t1 := t.(attachments := DetachStep(cfg, t.attachments, k, env).0);
            var t2 := DeleteStep(cfg, t1, k.node, deleteEnv).0;
            k.node !in t2.runtimes && k !in t2.attachments
  {
    var t1 := t.(attachments := DetachStep(cfg, t.attachments, k, env).0);
    DeleteOutcome(cfg, t1, k.node, deleteEnv);
  }

  // ---------------------------------------------------------------- health check

  /** On any tables, sound or not, the check passes exactly if the row is ATTACHED and filled in, an active lease holds
      its address, the node has a runtime whose CIDR, if it has one, fits the gateway and the address, and the host
      checks find nothing when they run. */
  lemma HealthyExactly(cfg: Config, t: Tables, k: WorkspaceKey, linux: seq<Issue>)
    ensures Healthy(cfg, t, k, linux)
            <==> && k in t.attachments && k in t.leases && k.node in t.runtimes
                 && var a, lease, row := t.attachments[k], t.leases[k], t.runtimes[k.node];
                    && a.status == Attached && a.containerId != "" && a.bridge != "" && a.gateway != NoAddr
                    && lease.active && a.workspaceIp == Addr(lease.ip)
                    && (row.cidr == NoCidr
                        || (row.cidr.Cidr? && row.cidr.net.Contains(lease.ip) && Fits(row.gateway, row.cidr.net)))
                    && (cfg.linuxAttachment ==> linux == [])
  {
    if k in t.attachments {
      HealthyParts(cfg, t, k, linux);
    }
  }

  lemma HealthyParts(cfg: Config, t: Tables, k: WorkspaceKey, linux: seq<Issue>)
    requires k in t.attachments
    ensures var a := t.attachments[k];
            Healthy(cfg, t, k, linux)
            <==> && a.status == Attached && a.containerId != "" && a.workspaceIp != NoAddr && a.bridge != ""
                 && a.gateway != NoAddr && ActiveLease(t.leases, k) && a.workspaceIp == Addr(t.leases[k].ip)
                 && k.node in t.runtimes
                 && RuntimeConsistencyIssues(t.runtimes[k.node].cidr, t.runtimes[k.node].gateway) == []
                 && WorkspaceIpIssues(t.runtimes[k.node].cidr, a.workspaceIp) == []
                 && (cfg.linuxAttachment ==> linux == [])
  {
  }
}
