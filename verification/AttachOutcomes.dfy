/** How attach calls end, in terms of the replies they met. */
module AttachOutcomes {
  import opened Wrappers
  import opened HostPool
  import opened TopologyTables
  import opened TopologySteps
  import opened TopologyFacts
  import opened JanitorSteps
  import opened TopologyRuns
  import opened TopologyHealth

  /** The replies that leave the row of a call ATTACHING. */
  predicate LeavesAttaching(cfg: Config, env: AttachEnv) {
    EscapesWiring(cfg, env) || (FailsBeforeAttached(cfg, env) && !env.failedCommits)
  }

  /** A call that commits its ATTACHING row leaves it so exactly when an unhandled error escapes the wiring, or a
      handled failure comes before ATTACHED and the FAILED write fails too. A call that does not commit it changes no
      row and no lease, and no call changes the row of another workspace. */
  lemma AttachLeavesAttaching(cfg: Config, t: Tables, k: WorkspaceKey, req: AttachRequest, env: AttachEnv)
    ensures var t' := AttachStep(cfg, t, k, req, env).0;
            && (!CommitsAttaching(cfg, t, k, req, env) ==> t'.attachments == t.attachments && t'.leases == t.leases)
            && (CommitsAttaching(cfg, t, k, req, env) ==>
                  k in t'.attachments && (t'.attachments[k].status.Attaching? <==> LeavesAttaching(cfg, env)))
            && t'.attachments - {k} == t.attachments - {k}
  {
    if CommitsAttaching(cfg, t, k, req, env) {
      CommittedOutcome(cfg, t, k, req, env);
    } else {
      UncommittedOutcome(cfg, t, k, req, env);
    }
  }

  lemma CommittedOutcome(cfg: Config, t: Tables, k: WorkspaceKey, req: AttachRequest, env: AttachEnv)
    requires CommitsAttaching(cfg, t, k, req, env)
    ensures var attachments := AttachStep(cfg, t, k, req, env).0.attachments;
            && k in attachments && attachments == t.attachments[k := attachments[k]]
            && (attachments[k].status.Attaching? <==> LeavesAttaching(cfg, env))
  {
  }

  lemma UncommittedOutcome(cfg: Config, t: Tables, k: WorkspaceKey, req: AttachRequest, env: AttachEnv)
    requires !CommitsAttaching(cfg, t, k, req, env)
    ensures var t' := AttachStep(cfg, t, k, req, env).0; t'.attachments == t.attachments && t'.leases == t.leases
  {
  }

  ghost predicate NoneAttaching(t: Tables) {
    forall k :: k in t.attachments ==> !t.attachments[k].status.Attaching?
  }

  /** The only steps that bring an ATTACHING row into tables without one. */
  predicate LeavesOne(cfg: Config, t: Tables, s: Step) {
    s.Attach? && CommitsAttaching(cfg, t, s.k, s.req, s.attachEnv) && LeavesAttaching(cfg, s.attachEnv)
  }

  lemma StepLeavesNoneExactly(cfg: Config, t: Tables, s: Step)
    requires NoneAttaching(t)
    ensures NoneAttaching(Next(cfg, t, s)) <==> !LeavesOne(cfg, t, s)
  {
    match s
    case Attach(k, req, env) =>
      AttachLeavesAttaching(cfg, t, k, req, env);
      var t' := Next(cfg, t, s);
      forall j | j in t'.attachments && j != k ensures !t'.attachments[j].status.Attaching? {
        assert j in t'.attachments - {k} && (t'.attachments - {k})[j] == (t.attachments - {k})[j];
      }
    case Janitor(n, env) => JanitorMarksNone(t, n, env);
    case _ =>
  }

  lemma JanitorMarksNone(t: Tables, n: NodeKey, env: JanitorEnv)
    requires NoneAttaching(t)
    ensures NoneAttaching(JanitorStep(t, n, env).0)
  {
    var t1 := AfterStuck(t, n, env);
    assert NoneAttaching(t1);
    var t2 := AfterOrphans(t1, n, env);
    assert NoneAttaching(t2);
    assert NoneAttaching(AfterDrift(t2, n, env));
  }

  /** Over any run: if no attach call lets an error escape the wiring, and each one that fails can write FAILED, then no
      row of any reachable state is ATTACHING. */
  lemma {:induction false} RunLeavesNoneAttaching(cfg: Config, t: Tables, steps: seq<Step>)
    requires NoneAttaching(t)
    requires forall s :: s in steps && s.Attach? ==> !LeavesAttaching(cfg, s.attachEnv)
    ensures NoneAttaching(Run(cfg, t, steps))
    decreases |steps|
  {
    if steps != [] {
      assert steps[0] in steps;
      StepLeavesNoneExactly(cfg, t, steps[0]);
      RunLeavesNoneAttaching(cfg, Next(cfg, t, steps[0]), steps[1..]);
    }
  }

  /** After a failure that attach handles: the call raises, the row is FAILED if that could be written, a first attach
      has freed its lease if that could be written, a re-attach keeps it, and all other leases are as before. */
  lemma HandledFailureIsRetryable(cfg: Config, t: Tables, k: WorkspaceKey, req: AttachRequest, env: AttachEnv)
    requires CommitsAttaching(cfg, t, k, req, env) && (FailsBeforeAttached(cfg, env) || FailsAfterAttached(cfg, env))
    ensures var (t', r) := AttachStep(cfg, t, k, req, env);
            && r == Raised(AttachmentError)
            && k in t'.attachments && (env.failedCommits ==> t'.attachments[k].status.Failed?)
            && ActiveLease(t.leases, k)
            && t'.leases == (if k !in t.attachments && env.releaseCommits then Released(t.leases, k) else t.leases)
  {
  }

  /** And the retry it invites succeeds: a fault-free allocate then attach after it ends ATTACHED exactly when the lease
      was kept or the runtime has a free host. */
  lemma RetrySucceeds(
    cfg: Config, t: Tables, k: WorkspaceKey, req: AttachRequest, env: AttachEnv, req2: AttachRequest, env2: AttachEnv)
    requires Sound(t) && CommitsAttaching(cfg, t, k, req, env) && env.failedCommits
    requires FailsBeforeAttached(cfg, env) || FailsAfterAttached(cfg, env)
    requires FaultFree(req2, env2)
    ensures var t' := AttachStep(cfg, t, k, req, env).0;
            var (leases, r) := AllocateStep(t', k, AllocateEnv(0, true));
            (r.Returned? && AttachStep(cfg, t'.(leases := leases), k, Following(req2, r.value), env2).1.Returned?)
            <==> k in t.attachments || !env.releaseCommits || FreeHostAt(t', k.node)
  {
    AttachKeepsSound(cfg, t, k, req, env);
    var t' := AttachStep(cfg, t, k, req, env).0;
    AllocateThenAttach(cfg, t', k, req2, env2);
    HandledFailureIsRetryable(cfg, t, k, req, env);
    FailedAttachKeepsRuntime(cfg, t, k, req, env);
  }

  predicate FreeHostAt(t: Tables, n: NodeKey) {
    n in t.runtimes && t.runtimes[n].cidr.Cidr? && t.runtimes[n].gateway.Addr? && HasFreeHost(t, n)
  }

  lemma FailedAttachKeepsRuntime(cfg: Config, t: Tables, k: WorkspaceKey, req: AttachRequest, env: AttachEnv)
    requires Sound(t) && CommitsAttaching(cfg, t, k, req, env)
    ensures var t' := AttachStep(cfg, t, k, req, env).0;
            && k.node in t'.runtimes && t'.runtimes[k.node].status.Ready? && ActiveLease(t.leases, k)
            && t'.runtimes[k.node].cidr.Cidr? && t'.runtimes[k.node].cidr.net.Contains(t.leases[k].ip)
            && t'.runtimes[k.node].gateway.Addr?
  {
    EnsureKeepsSound(cfg, t, k.node, env.ensure);
    var runtimes := EnsureStep(cfg, t.runtimes, k.node, env.ensure).0;
    assert AttachStep(cfg, t, k, req, env).0.runtimes == runtimes;
    assert RuntimeSound(k.node, runtimes[k.node]);
  }

  // ---------------------------------------------------------------- the retry in runs without topology deletes

  /** Every active lease holds a candidate of its node's runtime. */
  ghost predicate LeasesAreCandidates(t: Tables) {
    forall k :: ActiveLease(t.leases, k) ==> IsCandidate(t.runtimes, k.node, t.leases[k].ip)
  }

  predicate IsCandidate(runtimes: map<NodeKey, Runtime>, n: NodeKey, ip: nat) {
    && n in runtimes && runtimes[n].cidr.Cidr? && runtimes[n].gateway.Addr?
    && ip in Candidates(runtimes[n].cidr.net, runtimes[n].gateway.ip)
  }

  lemma ReleasesKeepCandidates(t: Tables, t': Tables)
    requires LeasesAreCandidates(t) && OnlyReleases(t.leases, t'.leases)
    requires forall n :: n in t.runtimes ==>
               n in t'.runtimes && t'.runtimes[n] == t.runtimes[n].(status := t'.runtimes[n].status)
    ensures LeasesAreCandidates(t')
  {
    forall k | ActiveLease(t'.leases, k) ensures IsCandidate(t'.runtimes, k.node, t'.leases[k].ip) {
      assert IsCandidate(t.runtimes, k.node, t.leases[k].ip);
    }
  }

  lemma AllocateKeepsCandidates(t: Tables, k: WorkspaceKey, env: AllocateEnv)
    requires LeasesAreCandidates(t)
    ensures LeasesAreCandidates(t.(leases := AllocateStep(t, k, env).0))
  {
    if AllocateStep(t, k, env).0 != t.leases {
      PickedIpIsFree(t.runtimes, t.leases, k, env.conflicts);
    }
  }

  lemma StepKeepsCandidates(cfg: Config, t: Tables, s: Step)
    requires Sound(t) && LeasesAreCandidates(t) && !s.Delete?
    ensures LeasesAreCandidates(Next(cfg, t, s))
  {
    match s
    case Ensure(n, env) =>
      EnsureKeepsRuntimes(cfg, t, n, env);
      ReleasesKeepCandidates(t, Next(cfg, t, s));
    case Attach(k, req, env) =>
      EnsureKeepsRuntimes(cfg, t, k.node, env.ensure);
      AttachOnlyReleases(cfg, t, k, req, env);
      ReleasesKeepCandidates(t, Next(cfg, t, s));
    case Allocate(k, env) => AllocateKeepsCandidates(t, k, env);
    case Janitor(n, env) =>
      JanitorOnlyReleases(t, n, env);
      ReleasesKeepCandidates(t, Next(cfg, t, s));
    case _ =>
  }

  lemma {:induction false} RunKeepsCandidates(cfg: Config, t: Tables, steps: seq<Step>)
    requires Sound(t) && LegalRun(cfg, t, steps) && LeasesAreCandidates(t)
    requires forall s :: s in steps ==> !s.Delete?
    ensures Sound(Run(cfg, t, steps)) && LeasesAreCandidates(Run(cfg, t, steps))
    decreases |steps|
  {
    if steps != [] {
      NextKeepsSound(cfg, t, steps[0]);
      StepKeepsCandidates(cfg, t, steps[0]);
      RunKeepsCandidates(cfg, Next(cfg, t, steps[0]), steps[1..]);
    }
  }

  /** An address that a workspace has just freed is a free host again. */
  lemma FreedIsFree(t: Tables, k: WorkspaceKey)
    requires ConstraintsHold(t) && ActiveLease(t.leases, k) && IsCandidate(t.runtimes, k.node, t.leases[k].ip)
    ensures FreeHostAt(t.(leases := Released(t.leases, k)), k.node)
  {
    assert IpFree(t.leases, k, t.leases[k].ip);
    assert t.leases[k].ip !in LeasedIps(Released(t.leases, k), k.node);
  }

  /** So without topology deletes, from empty tables on, the retry after a handled failure always succeeds: the lease
      was kept, or the address it freed is free. */
  lemma RetryAlwaysSucceeds(
    cfg: Config, steps: seq<Step>, k: WorkspaceKey, req: AttachRequest, env: AttachEnv,
    req2: AttachRequest, env2: AttachEnv)
    requires var empty := Tables(map[], map[], map[]);
             LegalRun(cfg, empty, steps) && CommitsAttaching(cfg, Run(cfg, empty, steps), k, req, env)
    requires forall s :: s in steps ==> !s.Delete?
    requires env.failedCommits && (FailsBeforeAttached(cfg, env) || FailsAfterAttached(cfg, env))
    requires FaultFree(req2, env2)
    ensures var t' := AttachStep(cfg, Run(cfg, Tables(map[], map[], map[]), steps), k, req, env).0;
            var (leases, r) := AllocateStep(t', k, AllocateEnv(0, true));
            r.Returned? && AttachStep(cfg, t'.(leases := leases), k, Following(req2, r.value), env2).1.Returned?
  {
    EmptyIsSound();
    RunKeepsCandidates(cfg, Tables(map[], map[], map[]), steps);
    var t := Run(cfg, Tables(map[], map[], map[]), steps);
    RetrySucceeds(cfg, t, k, req, env, req2, env2);
    if k !in t.attachments && env.releaseCommits {
      FreedHostAfterFailure(cfg, t, k, req, env);
    }
  }

  lemma FreedHostAfterFailure(cfg: Config, t: Tables, k: WorkspaceKey, req: AttachRequest, env: AttachEnv)
    requires Sound(t) && LeasesAreCandidates(t) && CommitsAttaching(cfg, t, k, req, env)
    requires FailsBeforeAttached(cfg, env) || FailsAfterAttached(cfg, env)
    requires k !in t.attachments && env.releaseCommits
    ensures FreeHostAt(AttachStep(cfg, t, k, req, env).0, k.node)
  {
    EnsureKeepsRuntimes(cfg, t, k.node, env.ensure);
    EnsureKeepsSound(cfg, t, k.node, env.ensure);
    HandledFailureIsRetryable(cfg, t, k, req, env);
    var t1 := t.(runtimes := EnsureStep(cfg, t.runtimes, k.node, env.ensure).0);
    ReleasesKeepCandidates(t, t1);
    FreedIsFree(t1, k);
  }
}
