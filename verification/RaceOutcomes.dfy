/** Calls that nothing interrupts: the steps of the race models add up to the whole calls of the serial model. */
module RaceOutcomes {
  import opened Wrappers
  import opened Ipv4
  import opened TopologyTables
  import opened SubnetPool
  import opened TopologySteps
  import opened TopologyOutcomes
  import A = AllocateRace
  import E = EnsureRace

  // ---------------------------------------------------------------- allocate

  /** The read of an attempt and, if it found an address to write, its commit. */
  function AllocateAttempt(st: A.State, c: nat, commits: bool): A.State
    requires c in st.calls && st.calls[c].phase.Reading?
  {
    var read := A.RaceNext(st, A.Read(c));
    if read.calls[c].phase.Writing? then A.RaceNext(read, if commits then A.Commit(c) else A.CommitFails(c)) else read
  }

  /** Where a call is after the whole call returned or raised. */
  function AllocateEnd(r: Outcome<AllocateResult, Error>): A.Phase {
    match r
    case Returned(result) => A.Granted(result.workspaceIp)
    case Raised(e) => A.GivenUp(e)
  }

  /** Attempt a, which nothing interrupts, ends the call as the whole call ends that lost a races before, with the same
      leases. */
  lemma AllocateAttemptIsCall(st: A.State, c: nat, commits: bool)
    requires c in st.calls && st.calls[c].phase.Reading? && st.calls[c].phase.attempt < 24
    ensures var k, attempt := st.calls[c].k, st.calls[c].phase.attempt;
            var (leases, r) := AllocateStep(Tables(st.runtimes, st.leases, map[]), k, AllocateEnv(attempt, commits));
            AllocateAttempt(st, c, commits)
            == st.(leases := leases, calls := st.calls[c := st.calls[c].(phase := AllocateEnd(r))])
  {
    var k, attempt := st.calls[c].k, st.calls[c].phase.attempt;
    if AllocateRefusal(st.runtimes, k.node).None? && !ActiveLease(st.leases, k) {
      SettlesAtAttempt(st.runtimes, st.leases, k, attempt);
      if PickedIp(st.runtimes, st.leases, k, attempt).Returned? {
        PickedFits(st, k, attempt);
      }
    }
  }

  lemma SettlesAtAttempt(
    runtimes: map<NodeKey, Runtime>, leases: map<WorkspaceKey, Lease>, k: WorkspaceKey, attempt: nat)
    requires AllocateRefusal(runtimes, k.node).None? && attempt < 24
    ensures SettledIp(runtimes, leases, k, attempt) == PickedIp(runtimes, leases, k, attempt)
  {
  }

  lemma PickedFits(st: A.State, k: WorkspaceKey, attempt: nat)
    requires AllocateRefusal(st.runtimes, k.node).None?
    requires PickedIp(st.runtimes, st.leases, k, attempt).Returned?
    ensures !A.Conflicts(st, k, PickedIp(st.runtimes, st.leases, k, attempt).value, k in st.leases)
  {
    var ip := PickedIp(st.runtimes, st.leases, k, attempt).value;
    assert ip !in LeasedIps(st.leases, k.node);
    forall j | j in st.leases && j != k && j.node == k.node && st.leases[j].active ensures st.leases[j].ip != ip {
      assert st.leases[j].ip in LeasedIps(st.leases, k.node);
    }
  }

  /** A commit is turned away exactly if an active lease of another workspace of the node holds the address, or a row
      of the workspace appeared that the read did not see. The call then goes on while it has attempts left and its
      runtime is still READY with its columns set. */
  lemma AllocateConflict(st: A.State, c: nat)
    requires c in st.calls && st.calls[c].phase.Writing?
    ensures var (k, phase) := (st.calls[c].k, st.calls[c].phase);
            var row := Lease(phase.ip, true);
            var turnedAway := (k in st.leases && !phase.update)
                              || exists j :: j in st.leases && j != k && j.node == k.node && st.leases[j] == row;
            var st' := A.RaceNext(st, A.Commit(c));
            && (!turnedAway ==> st'.calls[c].phase == A.Granted(phase.ip) && st'.leases == st.leases[k := row])
            && (turnedAway ==>
                  && st'.leases == st.leases
                  && (st'.calls[c].phase == A.Reading(phase.attempt + 1)
                      <==> && phase.attempt < 23 && k.node in st.runtimes && st.runtimes[k.node].status == Ready
                           && CidrOf(st.runtimes, k.node) != NoCidr && GatewayOf(st.runtimes, k.node) != NoAddr)
                  && (st'.calls[c].phase.Reading? || st'.calls[c].phase.GivenUp?))
  {
  }

  // ---------------------------------------------------------------- ensure

  function EnsureAttempt(st: E.State, c: nat, commits: bool): E.State
    requires c in st.calls && st.calls[c].phase.Reading?
  {
    var read := E.RaceNext(st, E.Read(c));
    if read.calls[c].phase.Writing? && read.calls[c].spec.Plan? then
      E.RaceNext(read, if commits then E.Commit(c) else E.CommitFails(c))
    else read
  }

  /** The state holds the columns of the node that a whole call stores, and what other nodes hold. */
  predicate SameColumns(a: map<NodeKey, Runtime>, b: map<NodeKey, Runtime>, n: NodeKey) {
    && a - {n} == b - {n} && (n in a <==> n in b)
    && CidrOf(a, n) == CidrOf(b, n) && GatewayOf(a, n) == GatewayOf(b, n) && BridgeOf(a, n) == BridgeOf(b, n)
  }

  /** The first attempt of a call, which nothing interrupts, stores the columns that the whole call stores, and stops
      the call as that one returns or raises; the bridge is synced in a step of its own. A stored CIDR must be the only
      one of its topology, as the database sees to. */
  lemma EnsureAttemptIsCall(cfg: Config, st: E.State, c: nat, commits: bool, bridgeReady: bool)
    requires c in st.calls && st.calls[c].phase == E.Reading(0) && st.calls[c].n.nodeId != "" && st.calls[c].spec.Plan?
    requires CidrFree(st.runtimes, st.calls[c].n, CidrOf(st.runtimes, st.calls[c].n))
    ensures var env := EnsureEnv(st.calls[c].spec, 0, commits, bridgeReady, true);
            var (runtimes, r) := EnsureStep(cfg, st.runtimes, st.calls[c].n, env);
            var st' := EnsureAttempt(st, c, commits);
            && st'.calls == st.calls[c := st.calls[c].(phase := E.Stopped(r.Returned?))]
            && SameColumns(st'.runtimes, runtimes, st.calls[c].n)
  {
    var n, spec := st.calls[c].n, st.calls[c].spec;
    var existing := Stored(st.runtimes, n);
    if !(existing.Some? && existing.value.Complete()) {
      SettledChoiceStep(st.runtimes, n, spec, 0, 0);
      var choice := ChooseCidrAndGateway(st.runtimes, n, existing, spec, 0);
      if choice.Returned? {
        ChosenFits(st.runtimes, n, spec, 0);
        ChosenAttempt(cfg, st, c, commits, bridgeReady, choice.value.0, choice.value.1);
      }
    }
  }

  lemma ChosenAttempt(
    cfg: Config, st: E.State, c: nat, commits: bool, bridgeReady: bool, net: Network, gateway: nat)
    requires c in st.calls && st.calls[c].phase == E.Reading(0) && st.calls[c].n.nodeId != "" && st.calls[c].spec.Plan?
    requires var n := st.calls[c].n;
             var existing := Stored(st.runtimes, n);
             && !(existing.Some? && existing.value.Complete())
             && ChooseCidrAndGateway(st.runtimes, n, existing, st.calls[c].spec, 0) == Returned((net, gateway))
             && SettledChoice(st.runtimes, n, st.calls[c].spec, 0, 0) == Returned((net, gateway))
             && CidrFree(st.runtimes, n, if CidrOf(st.runtimes, n) == NoCidr then Cidr(net) else CidrOf(st.runtimes, n))
    ensures var env := EnsureEnv(st.calls[c].spec, 0, commits, bridgeReady, true);
            var (runtimes, r) := EnsureStep(cfg, st.runtimes, st.calls[c].n, env);
            var st' := EnsureAttempt(st, c, commits);
            && st'.calls == st.calls[c := st.calls[c].(phase := E.Stopped(r.Returned?))]
            && SameColumns(st'.runtimes, runtimes, st.calls[c].n)
  {
  }

  lemma ChosenFits(runtimes: map<NodeKey, Runtime>, n: NodeKey, spec: Spec, attempt: nat)
    requires spec.Plan? && CidrFree(runtimes, n, CidrOf(runtimes, n))
    requires ChooseCidrAndGateway(runtimes, n, Stored(runtimes, n), spec, attempt).Returned?
    ensures var (net, _) := ChooseCidrAndGateway(runtimes, n, Stored(runtimes, n), spec, attempt).value;
            CidrFree(runtimes, n, if CidrOf(runtimes, n) == NoCidr then Cidr(net) else CidrOf(runtimes, n))
  {
    if CidrOf(runtimes, n) == NoCidr {
      var net := ChooseCidrAndGateway(runtimes, n, Stored(runtimes, n), spec, attempt).value.0;
      FirstFreeChildIsFree(UsedNetworks(runtimes, n), n, attempt);
      assert !OverlapsAny(net, UsedNetworks(runtimes, n));
      forall m | m in runtimes && m != n && m.topologyId == n.topologyId ensures runtimes[m].cidr != Cidr(net) {
        if runtimes[m].cidr == Cidr(net) {
          assert net in UsedNetworks(runtimes, n) && net.Overlaps(net);
        }
      }
    }
  }

  /** A commit fails for good if the row it updates is gone. It is turned away if a row appeared that the read did not see,
      or another node of the topology holds the CIDR it leaves; the call then goes on while it has attempts left. */
  lemma EnsureConflict(st: E.State, c: nat)
    requires c in st.calls && st.calls[c].phase.Writing? && st.calls[c].spec.Plan?
    ensures var (n, phase) := (st.calls[c].n, st.calls[c].phase);
            var wanted := if phase.seen.Some? && phase.seen.value.cidr != NoCidr then CidrOf(st.runtimes, n)
                          else Cidr(phase.net);
            var gone := phase.seen.Some? && n !in st.runtimes;
            var turnedAway := (phase.seen.None? && n in st.runtimes)
                              || (wanted != NoCidr
                                  && exists m :: m in st.runtimes && m != n && m.topologyId == n.topologyId
                                                 && st.runtimes[m].cidr == wanted);
            var st' := E.RaceNext(st, E.Commit(c));
            && (gone || turnedAway ==> st'.runtimes == st.runtimes)
            && (gone ==> st'.calls[c].phase == E.Stopped(false))
            && (!gone && turnedAway ==>
                  st'.calls[c].phase == if phase.attempt < 15 then E.Reading(phase.attempt + 1) else E.Stopped(false))
            && (!gone && !turnedAway ==>
                  st'.calls[c].phase == E.Stopped(true) && n in st'.runtimes && st'.runtimes[n].cidr == wanted)
  {
  }
}
