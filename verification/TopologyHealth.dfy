/** What the callers of the health check, and of allocate and attach, can rely on. */
module TopologyHealth {
  import opened Text
  import opened HostPool
  import opened TopologyTables
  import opened TopologySteps
  import opened TopologyFacts
  import opened JanitorSteps
  import opened TopologyRuns

  // ---------------------------------------------------------------- attach outcomes

  /** A returning attach ends ATTACHED on the requested address, which its workspace leases. */
  lemma ReturningAttachIsAttached(cfg: Config, t: Tables, k: WorkspaceKey, req: AttachRequest, env: AttachEnv)
    requires AttachStep(cfg, t, k, req, env).1.Returned?
    ensures var (t', r) := AttachStep(cfg, t, k, req, env);
            && IsAttached(t', k) && t'.attachments[k].workspaceIp == Addr(req.workspaceIp)
            && t'.attachments[k].containerId == Cleaned(req.container)
            && ActiveLease(t'.leases, k) && t'.leases[k].ip == req.workspaceIp == r.value
            && !LosesLease(cfg, t, k, req, env)
  {
  }

  // ---------------------------------------------------------------- health

  /** In a sound state the check finds an attachment healthy exactly when its row is ATTACHED and the host checks,
      if they run, find nothing. */
  lemma HealthyMeansAttached(cfg: Config, t: Tables, k: WorkspaceKey, linux: seq<Issue>)
    requires Sound(t)
    ensures Healthy(cfg, t, k, linux) <==> IsAttached(t, k) && (cfg.linuxAttachment ==> linux == [])
  {
    if k in t.attachments {
      var att := t.attachments[k];
      if att.status.Attached? {
        assert AttachmentSound(t, k);
        assert RuntimeSound(k.node, t.runtimes[k.node]);
        var lead := CheckIssues(cfg, t, k, []);
        assert lead == [];
        assert CheckIssues(cfg, t, k, linux) == if cfg.linuxAttachment then [] + linux else [];
      } else {
        assert When(true, StatusNotAttached) == [StatusNotAttached];
        assert CheckIssues(cfg, t, k, linux)[0] == StatusNotAttached;
      }
    }
  }

  /** A step that does not attach, detach or release k, nor runs the janitor while k's workspace is terminal. */
  predicate LeavesAlone(s: Step, k: WorkspaceKey) {
    match s
    case Attach(j, _, _) => j != k
    case Detach(j, _) => j != k
    case Release(j, _) => j != k
    case Janitor(n, env) => k.node == n ==> k.workspaceId !in env.terminal
    case _ => true
  }

  /** The row of k, its lease and the CIDR of its runtime are the same in both states. */
  ghost predicate SameFor(t: Tables, t': Tables, k: WorkspaceKey)
    requires k in t.attachments && k in t.leases && k.node in t.runtimes
  {
    && k in t'.attachments && t'.attachments[k] == t.attachments[k]
    && k in t'.leases && t'.leases[k] == t.leases[k]
    && k.node in t'.runtimes && t'.runtimes[k.node].cidr == t.runtimes[k.node].cidr
  }

  lemma JanitorLeavesAlone(t: Tables, n: NodeKey, env: JanitorEnv, k: WorkspaceKey)
    requires IsAttached(t, k) && k in t.leases && k.node in t.runtimes
    requires k.node == n ==> k.workspaceId !in env.terminal
    ensures SameFor(t, JanitorStep(t, n, env).0, k)
  {
    var t1 := AfterStuck(t, n, env);
    assert SameFor(t, t1, k);
    var t2 := AfterOrphans(t1, n, env);
    assert SameFor(t, t2, k);
  }

  lemma AttachLeavesAlone(cfg: Config, t: Tables, j: WorkspaceKey, req: AttachRequest, env: AttachEnv, k: WorkspaceKey)
    requires Sound(t) && k in t.attachments && k in t.leases && k.node in t.runtimes && j != k
    ensures SameFor(t, AttachStep(cfg, t, j, req, env).0, k)
  {
    EnsureKeepsRuntimes(cfg, t, j.node, env.ensure);
    var t1 := t.(runtimes := EnsureStep(cfg, t.runtimes, j.node, env.ensure).0);
    assert SameFor(t, t1, k);
    EnsuredLeavesAlone(cfg, t1, j, req, env, k);
  }

  lemma EnsuredLeavesAlone(cfg: Config, t: Tables, j: WorkspaceKey, req: AttachRequest, env: AttachEnv, k: WorkspaceKey)
    requires k in t.attachments && k in t.leases && k.node in t.runtimes && j != k
    ensures SameFor(t, AttachEnsured(cfg, t, j, req, env).0, k)
  {
  }

  /** Such a step keeps an ATTACHED row, its lease and its runtime; a delete of its topology is refused. */
  lemma StepKeepsAttached(cfg: Config, t: Tables, s: Step, k: WorkspaceKey)
    requires Sound(t) && IsAttached(t, k) && LeavesAlone(s, k)
    ensures k in t.leases && k.node in t.runtimes && SameFor(t, Next(cfg, t, s), k)
  {
    assert AttachmentSound(t, k);
    match s
    case Ensure(n, env) => EnsureKeepsRuntimes(cfg, t, n, env);
    case Attach(j, req, env) => AttachLeavesAlone(cfg, t, j, req, env, k);
    case Delete(n, env) =>
      if k.node == n {
        assert Blocked(t.attachments, n);
      }
    case Janitor(n, env) => JanitorLeavesAlone(t, n, env, k);
    case _ =>
  }

  lemma {:induction false} RunKeepsAttached(cfg: Config, t: Tables, steps: seq<Step>, k: WorkspaceKey)
    requires Sound(t) && LegalRun(cfg, t, steps)
    requires IsAttached(t, k) && forall s :: s in steps ==> LeavesAlone(s, k)
    ensures IsAttached(Run(cfg, t, steps), k)
    ensures Run(cfg, t, steps).attachments[k] == t.attachments[k]
    decreases |steps|
  {
    if steps != [] {
      NextKeepsSound(cfg, t, steps[0]);
      StepKeepsAttached(cfg, t, steps[0], k);
      RunKeepsAttached(cfg, Next(cfg, t, steps[0]), steps[1..], k);
    }
  }

  /** With the Linux checks off, an attachment is healthy from a returning attach on, through any run that leaves it
      alone. */
  lemma AttachThenHealthy(
    cfg: Config, t: Tables, k: WorkspaceKey, req: AttachRequest, env: AttachEnv, later: seq<Step>, linux: seq<Issue>)
    requires Sound(t) && !cfg.linuxAttachment
    requires AttachStep(cfg, t, k, req, env).1.Returned?
    requires LegalRun(cfg, AttachStep(cfg, t, k, req, env).0, later) && forall s :: s in later ==> LeavesAlone(s, k)
    ensures Healthy(cfg, Run(cfg, AttachStep(cfg, t, k, req, env).0, later), k, linux)
  {
    var t' := AttachStep(cfg, t, k, req, env).0;
    ReturningAttachIsAttached(cfg, t, k, req, env);
    AttachKeepsSound(cfg, t, k, req, env);
    RunKeepsAttached(cfg, t', later, k);
    RunsStaySound(cfg, t', later);
    HealthyMeansAttached(cfg, Run(cfg, t', later), k, linux);
  }

  // ---------------------------------------------------------------- liveness of allocate + attach

  /** Replies of an attach call in which nothing fails. */
  predicate FaultFree(req: AttachRequest, env: AttachEnv) {
    && Cleaned(req.container) != "" && req.netnsOk
    && env.ensure.spec.Plan? && env.ensure.bridgeReady && env.ensure.syncCommits
    && !env.fastVerify.CheckRaises? && env.attachingCommits && env.wiring.WiringDone?
    && env.attachedCommits && env.postVerify.Clean?
  }

  predicate HasFreeHost(t: Tables, n: NodeKey)
    requires n in t.runtimes && t.runtimes[n].cidr.Cidr? && t.runtimes[n].gateway.Addr?
  {
    exists h :: h in Candidates(t.runtimes[n].cidr.net, t.runtimes[n].gateway.ip) && h !in LeasedIps(t.leases, n)
  }

  /** A workspace can be served: a READY runtime, and a lease inside its CIDR or else a free host. */
  predicate Servable(t: Tables, k: WorkspaceKey) {
    && k.node in t.runtimes && t.runtimes[k.node].status.Ready?
    && t.runtimes[k.node].cidr.Cidr? && t.runtimes[k.node].gateway.Addr?
    && if ActiveLease(t.leases, k) then t.runtimes[k.node].cidr.net.Contains(t.leases[k].ip) else HasFreeHost(t, k.node)
  }

  /** The attach request that follows an allocation, for the address it returned. */
  function Following(req: AttachRequest, grant: AllocateResult): AttachRequest {
    req.(workspaceIp := grant.workspaceIp)
  }

  lemma AllocateServes(t: Tables, k: WorkspaceKey)
    requires Sound(t)
    ensures var (leases, r) := AllocateStep(t, k, AllocateEnv(0, true));
            && (r.Returned? <==> k.node in t.runtimes && t.runtimes[k.node].status.Ready?
                                 && (ActiveLease(t.leases, k) || HasFreeHost(t, k.node)))
            && (r.Returned? ==> ActiveLease(leases, k) && leases[k].ip == r.value.workspaceIp
                                && r.value.leasedExisting == ActiveLease(t.leases, k)
                                && leases == (if ActiveLease(t.leases, k) then t.leases else t.leases[k := leases[k]])
                                && (ActiveLease(t.leases, k) || t.runtimes[k.node].cidr.net.Contains(leases[k].ip)))
  {
    if AllocateRefusal(t.runtimes, k.node).None? && !ActiveLease(t.leases, k) {
      var row := t.runtimes[k.node];
      assert RuntimeSound(k.node, row);
      PickFailsOnlyWhenExhausted(Candidates(row.cidr.net, row.gateway.ip), LeasedIps(t.leases, k.node), 0);
      if PickedIp(t.runtimes, t.leases, k, 0).Returned? {
        PickedIpIsFree(t.runtimes, t.leases, k, 0);
      }
    } else if k.node in t.runtimes {
      assert RuntimeSound(k.node, t.runtimes[k.node]);
    }
  }

  /** On a READY runtime, a fault-free attach for the leased address succeeds exactly when the CIDR holds it. */
  lemma FaultFreeAttach(cfg: Config, t: Tables, k: WorkspaceKey, req: AttachRequest, env: AttachEnv)
    requires FaultFree(req, env) && k.node in t.runtimes && RuntimeSound(k.node, t.runtimes[k.node])
    requires t.runtimes[k.node].status.Ready?
    requires ActiveLease(t.leases, k) && t.leases[k].ip == req.workspaceIp
    ensures AttachStep(cfg, t, k, req, env).1.Returned? <==> t.runtimes[k.node].cidr.net.Contains(req.workspaceIp)
  {
    var runtimes := EnsureStep(cfg, t.runtimes, k.node, env.ensure).0;
    assert runtimes == t.runtimes;
  }

  /** A fault-free allocate then attach ends ATTACHED exactly when the workspace can be served. */
  lemma AllocateThenAttach(cfg: Config, t: Tables, k: WorkspaceKey, req: AttachRequest, env: AttachEnv)
    requires Sound(t) && FaultFree(req, env)
    ensures var (leases, r) := AllocateStep(t, k, AllocateEnv(0, true));
            (r.Returned? && AttachStep(cfg, t.(leases := leases), k, Following(req, r.value), env).1.Returned?)
            <==> Servable(t, k)
  {
    AllocateServes(t, k);
    var (leases, r) := AllocateStep(t, k, AllocateEnv(0, true));
    if k.node in t.runtimes {
      assert RuntimeSound(k.node, t.runtimes[k.node]);
    }
    if r.Returned? {
      FaultFreeAttach(cfg, t.(leases := leases), k, Following(req, r.value), env);
    }
  }

  /** Every active lease lies in the CIDR of its node's runtime. */
  ghost predicate LeasesInside(t: Tables) {
    forall k :: ActiveLease(t.leases, k) ==>
      k.node in t.runtimes && t.runtimes[k.node].cidr.Cidr? && t.runtimes[k.node].cidr.net.Contains(t.leases[k].ip)
  }

  /** No lease becomes active or changes its address. */
  ghost predicate OnlyReleases(leases: map<WorkspaceKey, Lease>, leases': map<WorkspaceKey, Lease>) {
    forall k :: ActiveLease(leases', k) ==> ActiveLease(leases, k) && leases'[k] == leases[k]
  }

  lemma JanitorOnlyReleases(t: Tables, n: NodeKey, env: JanitorEnv)
    ensures OnlyReleases(t.leases, JanitorStep(t, n, env).0.leases)
  {
    var t1 := AfterStuck(t, n, env);
    assert OnlyReleases(t.leases, t1.leases);
    var t2 := AfterOrphans(t1, n, env);
    assert OnlyReleases(t1.leases, t2.leases);
    assert OnlyReleases(t2.leases, AfterDrift(t2, n, env).leases);
  }

  lemma AttachOnlyReleases(cfg: Config, t: Tables, k: WorkspaceKey, req: AttachRequest, env: AttachEnv)
    ensures var t' := AttachStep(cfg, t, k, req, env).0;
            && OnlyReleases(t.leases, t'.leases)
            && t'.runtimes in {t.runtimes, EnsureStep(cfg, t.runtimes, k.node, env.ensure).0}
  {
  }

  /** Leases that only shrink stay inside runtimes whose CIDRs stay. */
  lemma ReleasesKeepInside(t: Tables, t': Tables)
    requires LeasesInside(t) && OnlyReleases(t.leases, t'.leases)
    requires forall n :: n in t.runtimes ==> n in t'.runtimes && t'.runtimes[n].cidr == t.runtimes[n].cidr
    ensures LeasesInside(t')
  {
  }

  lemma AllocateKeepsLeasesInside(t: Tables, k: WorkspaceKey, env: AllocateEnv)
    requires Sound(t) && LeasesInside(t)
    ensures LeasesInside(t.(leases := AllocateStep(t, k, env).0))
  {
    if AllocateStep(t, k, env).0 != t.leases {
      PickedIpIsFree(t.runtimes, t.leases, k, env.conflicts);
    }
  }

  lemma StepKeepsLeasesInside(cfg: Config, t: Tables, s: Step)
    requires Sound(t) && LeasesInside(t) && !s.Delete?
    ensures LeasesInside(Next(cfg, t, s))
  {
    match s
    case Ensure(n, env) =>
      EnsureKeepsRuntimes(cfg, t, n, env);
      ReleasesKeepInside(t, Next(cfg, t, s));
    case Attach(k, req, env) =>
      EnsureKeepsRuntimes(cfg, t, k.node, env.ensure);
      AttachOnlyReleases(cfg, t, k, req, env);
      ReleasesKeepInside(t, Next(cfg, t, s));
    case Allocate(k, env) =>
      AllocateKeepsLeasesInside(t, k, env);
    case Janitor(n, env) =>
      JanitorOnlyReleases(t, n, env);
      ReleasesKeepInside(t, Next(cfg, t, s));
    case _ =>
  }

  lemma {:induction false} RunKeepsLeasesInside(cfg: Config, t: Tables, steps: seq<Step>)
    requires Sound(t) && LegalRun(cfg, t, steps) && LeasesInside(t)
    requires forall s :: s in steps ==> !s.Delete?
    ensures Sound(Run(cfg, t, steps)) && LeasesInside(Run(cfg, t, steps))
    decreases |steps|
  {
    if steps != [] {
      NextKeepsSound(cfg, t, steps[0]);
      StepKeepsLeasesInside(cfg, t, steps[0]);
      RunKeepsLeasesInside(cfg, Next(cfg, t, steps[0]), steps[1..]);
    }
  }

  /** So after any run without topology deletes, from tables without leases, a READY runtime with a free host (or a
      lease already held) suffices. */
  lemma AttachableWithoutDeletes(
    cfg: Config, t: Tables, steps: seq<Step>, k: WorkspaceKey, req: AttachRequest, env: AttachEnv)
    requires Sound(t) && LegalRun(cfg, t, steps) && LeasesInside(t) && FaultFree(req, env)
    requires forall s :: s in steps ==> !s.Delete?
    requires var t' := Run(cfg, t, steps);
             k.node in t'.runtimes && t'.runtimes[k.node].status.Ready?
             && t'.runtimes[k.node].cidr.Cidr? && t'.runtimes[k.node].gateway.Addr?
             && (ActiveLease(t'.leases, k) || HasFreeHost(t', k.node))
    ensures var t' := Run(cfg, t, steps);
            var (leases, r) := AllocateStep(t', k, AllocateEnv(0, true));
            && r.Returned?
            && IsAttached(AttachStep(cfg, t'.(leases := leases), k, Following(req, r.value), env).0, k)
  {
    RunKeepsLeasesInside(cfg, t, steps);
    var t' := Run(cfg, t, steps);
    AllocateThenAttach(cfg, t', k, req, env);
    var (leases, r) := AllocateStep(t', k, AllocateEnv(0, true));
    ReturningAttachIsAttached(cfg, t'.(leases := leases), k, Following(req, r.value), env);
  }
}
