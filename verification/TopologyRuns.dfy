/** Runs of the adapter's public calls, one at a time, against arbitrary replies: what every reachable state satisfies.
    */
module TopologyRuns {
  import opened Text
  import opened TopologyTables
  import opened SubnetPool
  import opened TopologySteps
  import opened TopologyFacts
  import opened JanitorSteps

  datatype Step =
    | Ensure(n: NodeKey, ensureEnv: EnsureEnv)
    | Allocate(k: WorkspaceKey, allocateEnv: AllocateEnv)
    | Attach(k: WorkspaceKey, req: AttachRequest, attachEnv: AttachEnv)
    | Detach(k: WorkspaceKey, detachEnv: DetachEnv)
    | Release(k: WorkspaceKey, commits: bool)
    | Delete(n: NodeKey, deleteEnv: DeleteEnv)
    | Janitor(n: NodeKey, janitorEnv: JanitorEnv)

  function Next(cfg: Config, t: Tables, s: Step): Tables {
    match s
    case Ensure(n, env) => t.(runtimes := EnsureStep(cfg, t.runtimes, n, env).0)
    case Allocate(k, env) => t.(leases := AllocateStep(t, k, env).0)
    case Attach(k, req, env) => AttachStep(cfg, t, k, req, env).0
    case Detach(k, env) => t.(attachments := DetachStep(cfg, t.attachments, k, env).0)
    case Release(k, commits) => t.(leases := ReleaseStep(t.leases, k, commits).0)
    case Delete(n, env) => DeleteStep(cfg, t, n, env).0
    case Janitor(n, env) => JanitorStep(t, n, env).0
  }

  function Run(cfg: Config, t: Tables, steps: seq<Step>): Tables
    decreases |steps|
  {
    if steps == [] then t else Run(cfg, Next(cfg, t, steps[0]), steps[1..])
  }

  // ---------------------------------------------------------------- soundness of every reachable state

  /** A stored runtime is complete and its gateway lies in its network. */
  ghost predicate RuntimeSound(n: NodeKey, r: Runtime) {
    n.nodeId != "" && r.Complete() && r.cidr.Cidr? && r.gateway.Addr? && r.cidr.net.Contains(r.gateway.ip)
  }

  /** An ATTACHED row has a runtime, an active lease on its address, and that address lies in the runtime's CIDR. */
  ghost predicate AttachmentSound(t: Tables, k: WorkspaceKey)
    requires k in t.attachments
  {
    var a := t.attachments[k];
    && k.node in t.runtimes && t.runtimes[k.node].cidr.Cidr?
    && ActiveLease(t.leases, k) && a.workspaceIp == Addr(t.leases[k].ip)
    && t.runtimes[k.node].cidr.net.Contains(t.leases[k].ip)
    && a.containerId != "" && a.bridge != "" && !a.gateway.NoAddr?
  }

  ghost predicate Sound(t: Tables) {
    && ConstraintsHold(t)
    && (forall n :: n in t.runtimes ==> RuntimeSound(n, t.runtimes[n]))
    && (forall k :: k in t.attachments && t.attachments[k].status.Attached? ==> AttachmentSound(t, k))
  }

  lemma EmptyIsSound()
    ensures Sound(Tables(map[], map[], map[]))
  {
  }

  /** The call passes its checks, is not answered on the fast path, and its ATTACHING row is committed. */
  predicate CommitsAttaching(cfg: Config, t: Tables, k: WorkspaceKey, req: AttachRequest, env: AttachEnv) {
    && Cleaned(req.container) != ""
    && var (runtimes, ensured) := EnsureStep(cfg, t.runtimes, k.node, env.ensure);
       var t1 := t.(runtimes := runtimes);
       && ensured.Returned? && Guard(t1, k, req).None?
       && !(EarlyEligible(t1, k, req) && (cfg.linuxAttachment ==> !env.fastVerify.Mismatch?))
       && env.attachingCommits
  }

  /** An error that attach does not handle escapes the wiring. */
  predicate EscapesWiring(cfg: Config, env: AttachEnv) {
    cfg.linuxAttachment && env.wiring.WiringEscapes?
  }

  /** The wiring or the ATTACHED commit fails in a way that attach handles. */
  predicate FailsBeforeAttached(cfg: Config, env: AttachEnv) {
    if !cfg.linuxAttachment then !env.attachedCommits
    else env.wiring.WiringFails? || (env.wiring.WiringDone? && !env.attachedCommits)
  }

  /** The row is committed ATTACHED, and then the plumbing is found not to match. */
  predicate FailsAfterAttached(cfg: Config, env: AttachEnv) {
    cfg.linuxAttachment && env.wiring.WiringDone? && env.attachedCommits && env.postVerify.Mismatch?
  }

  /** A first attach whose final verification fails, whose FAILED write fails, and whose lease release succeeds. */
  predicate LosesLease(cfg: Config, t: Tables, k: WorkspaceKey, req: AttachRequest, env: AttachEnv) {
    && CommitsAttaching(cfg, t, k, req, env) && FailsAfterAttached(cfg, env)
    && k !in t.attachments && !env.failedCommits && env.releaseCommits
  }

  /** Explicit releases only for workspaces that are not ATTACHED, and no attach that loses its lease. */
  predicate Legal(cfg: Config, t: Tables, s: Step) {
    match s
    case Release(k, _) => !IsAttached(t, k)
    case Attach(k, req, env) => !LosesLease(cfg, t, k, req, env)
    case _ => true
  }

  predicate LegalRun(cfg: Config, t: Tables, steps: seq<Step>)
    decreases |steps|
  {
    steps == [] || (Legal(cfg, t, steps[0]) && LegalRun(cfg, Next(cfg, t, steps[0]), steps[1..]))
  }

  lemma {:induction false} SettledChoiceIsSound(
    runtimes: map<NodeKey, Runtime>, n: NodeKey, spec: Spec, attempt: nat, conflicts: nat)
    requires spec.Plan? && attempt < ENSURE_MAX_ATTEMPTS
    requires SettledChoice(runtimes, n, spec, attempt, conflicts).Returned?
    requires n !in runtimes
    ensures var (net, gateway) := SettledChoice(runtimes, n, spec, attempt, conflicts).value;
            net.Contains(gateway) && CidrFree(runtimes, n, Cidr(net))
            && (spec.cidr.NoCidr? ==> IsChild(net)) && (spec.cidr.Cidr? ==> net == spec.cidr.net)
    decreases conflicts
  {
    ChoiceIsSound(runtimes, n, Stored(runtimes, n), spec, attempt);
    if conflicts > 0 {
      SettledChoiceIsSound(runtimes, n, spec, attempt + 1, conflicts - 1);
    }
  }

  /** An ensure of a complete row, or one that fails, changes nothing but the status of its row. */
  lemma EnsureKeepsRows(cfg: Config, t: Tables, n: NodeKey, env: EnsureEnv)
    requires forall m :: m in t.runtimes ==> t.runtimes[m].Complete()
    ensures var r := EnsureStep(cfg, t.runtimes, n, env).0;
            && (forall m :: m in t.runtimes ==> m in r && r[m] == t.runtimes[m].(status := r[m].status))
            && (forall m :: m in r && m !in t.runtimes ==> m == n)
  {
  }

  /** A row that an ensure creates is sound and its CIDR is unused. */
  lemma EnsureCreatesSound(cfg: Config, t: Tables, n: NodeKey, env: EnsureEnv)
    requires n !in t.runtimes
    ensures var r := EnsureStep(cfg, t.runtimes, n, env).0;
            n in r ==> RuntimeSound(n, r[n]) && CidrFree(t.runtimes, n, r[n].cidr)
  {
    if n.nodeId != "" && env.spec.Plan? && SettledChoice(t.runtimes, n, env.spec, 0, env.conflicts).Returned? {
      SettledChoiceIsSound(t.runtimes, n, env.spec, 0, env.conflicts);
    }
  }

  /** Ensuring a node keeps the runtimes sound and, once a runtime is stored, its CIDR, gateway and bridge. */
  lemma EnsureKeepsRuntimes(cfg: Config, t: Tables, n: NodeKey, env: EnsureEnv)
    requires Sound(t)
    ensures var runtimes := EnsureStep(cfg, t.runtimes, n, env).0;
            && (forall m :: m in runtimes ==> RuntimeSound(m, runtimes[m]) && CidrFree(runtimes, m, runtimes[m].cidr))
            && (forall m :: m in t.runtimes ==> m in runtimes && runtimes[m] == t.runtimes[m].(status := runtimes[m].status))
            && (forall m :: m in runtimes && m !in t.runtimes ==> m == n)
  {
    EnsureKeepsRows(cfg, t, n, env);
    if n !in t.runtimes {
      EnsureCreatesSound(cfg, t, n, env);
    }
    RowsStaySound(t, n, EnsureStep(cfg, t.runtimes, n, env).0);
  }

  lemma RowsStaySound(t: Tables, n: NodeKey, r: map<NodeKey, Runtime>)
    requires Sound(t)
    requires forall m :: m in t.runtimes ==> m in r && r[m] == t.runtimes[m].(status := r[m].status)
    requires forall m :: m in r && m !in t.runtimes ==> m == n
    requires n in r && n !in t.runtimes ==> RuntimeSound(n, r[n]) && CidrFree(t.runtimes, n, r[n].cidr)
    ensures forall m :: m in r ==> RuntimeSound(m, r[m]) && CidrFree(r, m, r[m].cidr)
  {
    forall m | m in r ensures RuntimeSound(m, r[m]) && CidrFree(r, m, r[m].cidr) {
      if m in t.runtimes {
        assert CidrFree(t.runtimes, m, t.runtimes[m].cidr) && RuntimeSound(m, t.runtimes[m]);
      }
    }
  }

  lemma EnsureKeepsSound(cfg: Config, t: Tables, n: NodeKey, env: EnsureEnv)
    requires Sound(t)
    ensures Sound(t.(runtimes := EnsureStep(cfg, t.runtimes, n, env).0))
  {
    EnsureKeepsRuntimes(cfg, t, n, env);
    forall k | k in t.attachments && t.attachments[k].status.Attached?
      ensures AttachmentSound(t.(runtimes := EnsureStep(cfg, t.runtimes, n, env).0), k)
    {
      assert AttachmentSound(t, k);
    }
  }

  lemma AllocateKeepsSound(cfg: Config, t: Tables, k: WorkspaceKey, env: AllocateEnv)
    requires Sound(t)
    ensures Sound(t.(leases := AllocateStep(t, k, env).0))
  {
    var leases := AllocateStep(t, k, env).0;
    if leases != t.leases {
      PickedIpIsFree(t.runtimes, t.leases, k, env.conflicts);
      var ip := leases[k].ip;
      LeaseKeepsConstraints(t, k, ip);
      forall j | j in t.attachments && t.attachments[j].status.Attached?
        ensures AttachmentSound(t.(leases := leases), j)
      {
        assert AttachmentSound(t, j);
      }
    }
  }

  lemma ReleaseKeepsConstraints(t: Tables, k: WorkspaceKey)
    requires ConstraintsHold(t)
    ensures ConstraintsHold(t.(leases := Released(t.leases, k)))
  {
    var leases := Released(t.leases, k);
    forall j | j in leases && leases[j].active ensures IpFree(leases, j, leases[j].ip) {
      assert IpFree(t.leases, j, t.leases[j].ip);
    }
  }

  lemma LosingPath(cfg: Config, t: Tables, k: WorkspaceKey, req: AttachRequest, env: AttachEnv)
    ensures PathOf(cfg, t, k, req, env).FailedAfterAttached?
            <==> && Guard(t, k, req).None? && env.attachingCommits && FailsAfterAttached(cfg, env)
                 && !(EarlyEligible(t, k, req) && (cfg.linuxAttachment ==> !env.fastVerify.Mismatch?))
  {
  }

  /** Attach keeps every state sound, except exactly when it loses the lease of a row it left ATTACHED. */
  lemma AttachKeepsSound(cfg: Config, t: Tables, k: WorkspaceKey, req: AttachRequest, env: AttachEnv)
    requires Sound(t)
    ensures Sound(AttachStep(cfg, t, k, req, env).0) <==> !LosesLease(cfg, t, k, req, env)
  {
    if Cleaned(req.container) != "" {
      EnsureKeepsSound(cfg, t, k.node, env.ensure);
      var (runtimes, ensured) := EnsureStep(cfg, t.runtimes, k.node, env.ensure);
      if ensured.Returned? {
        AttachEnsuredKeepsSound(cfg, t.(runtimes := runtimes), k, req, env);
        LosingPath(cfg, t.(runtimes := runtimes), k, req, env);
      }
    }
  }

  lemma AttachEnsuredKeepsSound(cfg: Config, t: Tables, k: WorkspaceKey, req: AttachRequest, env: AttachEnv)
    requires Sound(t) && Cleaned(req.container) != ""
    ensures Sound(AttachEnsured(cfg, t, k, req, env).0) <==>
              !(PathOf(cfg, t, k, req, env).FailedAfterAttached?
                && k !in t.attachments && !env.failedCommits && env.releaseCommits)
  {
    var path := PathOf(cfg, t, k, req, env);
    var t' := AttachEnsured(cfg, t, k, req, env).0;
    if !path.Refused? && !path.AlreadyAttached? {
      ReleaseKeepsConstraints(t, k);
      assert ConstraintsHold(t');
      forall j | j != k && j in t.attachments && t.attachments[j].status.Attached? ensures AttachmentSound(t', j) {
        assert AttachmentSound(t, j);
      }
      if path.FailedAfterAttached? && k !in t.attachments && !env.failedCommits && env.releaseCommits {
        assert t'.attachments[k].status.Attached? && !AttachmentSound(t', k);
      }
    }
  }

  /** Releasing a lease keeps a state sound exactly when it frees nothing or its workspace is not ATTACHED. */
  lemma ReleaseKeepsSound(t: Tables, k: WorkspaceKey, commits: bool)
    requires Sound(t)
    ensures Sound(t.(leases := ReleaseStep(t.leases, k, commits).0)) <==> !(commits && IsAttached(t, k))
  {
    ReleaseKeepsConstraints(t, k);
    var t' := t.(leases := ReleaseStep(t.leases, k, commits).0);
    forall j | j in t.attachments && t.attachments[j].status.Attached? ensures AttachmentSound(t, j) {
    }
    if commits && IsAttached(t, k) {
      assert !AttachmentSound(t', k);
    } else {
      forall j | j in t.attachments && t.attachments[j].status.Attached? ensures AttachmentSound(t', j) {
        assert AttachmentSound(t, j);
      }
    }
  }

  lemma DeleteKeepsSound(cfg: Config, t: Tables, n: NodeKey, env: DeleteEnv)
    requires Sound(t)
    ensures Sound(DeleteStep(cfg, t, n, env).0)
  {
    var t' := DeleteStep(cfg, t, n, env).0;
    forall k | k in t'.attachments && t'.attachments[k].status.Attached? ensures AttachmentSound(t', k) {
      assert AttachmentSound(t, k);
    }
    forall m | m in t'.runtimes ensures CidrFree(t'.runtimes, m, t'.runtimes[m].cidr) {
      assert CidrFree(t.runtimes, m, t.runtimes[m].cidr);
    }
  }

  /** A sweep that frees no lease of a row it leaves ATTACHED keeps every state sound. */
  lemma SweepKeepsSound(t: Tables, detach: set<WorkspaceKey>, release: set<WorkspaceKey>, now: int)
    requires Sound(t)
    requires forall k :: k in release && IsAttached(t, k) ==> k in detach
    ensures Sound(Swept(t, detach, release, now))
  {
    var t' := Swept(t, detach, release, now);
    forall k | k in t'.attachments && t'.attachments[k].status.Attached? ensures AttachmentSound(t', k) {
      assert AttachmentSound(t, k);
    }
    forall k | k in t'.leases && t'.leases[k].active ensures IpFree(t'.leases, k, t'.leases[k].ip) {
      assert IpFree(t.leases, k, t.leases[k].ip);
    }
  }

  /** The janitor keeps every state sound, whichever of its repairs fail. */
  lemma JanitorKeepsSound(t: Tables, n: NodeKey, env: JanitorEnv)
    requires Sound(t)
    ensures Sound(JanitorStep(t, n, env).0)
  {
    var detach := Except(StuckKeys(t, n, env.Cutoff()), env.stuckDetachFails);
    SweepKeepsSound(t, detach, Except(detach, env.stuckReleaseFails), env.now);
    var t1 := AfterStuck(t, n, env);
    SweepKeepsSound(t1, {}, Except(OrphanKeys(t1, n), env.orphanReleaseFails), env.now);
    var t2 := AfterOrphans(t1, n, env);
    var drift := Except(DriftKeys(t2, n, env.terminal), env.driftDetachFails);
    SweepKeepsSound(t2, drift, Except(drift, env.driftReleaseFails), env.now);
  }

  lemma NextKeepsSound(cfg: Config, t: Tables, s: Step)
    requires Sound(t) && Legal(cfg, t, s)
    ensures Sound(Next(cfg, t, s))
  {
    match s
    case Ensure(n, env) => EnsureKeepsSound(cfg, t, n, env);
    case Allocate(k, env) => AllocateKeepsSound(cfg, t, k, env);
    case Attach(k, req, env) => AttachKeepsSound(cfg, t, k, req, env);
    case Detach(k, env) =>
      forall j | j in t.attachments && t.attachments[j].status.Attached? ensures AttachmentSound(t, j) {
      }
    case Release(k, commits) => ReleaseKeepsSound(t, k, commits);
    case Delete(n, env) => DeleteKeepsSound(cfg, t, n, env);
    case Janitor(n, env) => JanitorKeepsSound(t, n, env);
  }

  /** Every state of every legal run is sound. */
  lemma {:induction false} RunsStaySound(cfg: Config, t: Tables, steps: seq<Step>)
    requires Sound(t) && LegalRun(cfg, t, steps)
    ensures Sound(Run(cfg, t, steps))
    decreases |steps|
  {
    if steps != [] {
      NextKeepsSound(cfg, t, steps[0]);
      RunsStaySound(cfg, Next(cfg, t, steps[0]), steps[1..]);
    }
  }

  /** So no two ATTACHED workspaces of a node share an address. */
  lemma AttachedAddressesDiffer(cfg: Config, t: Tables, steps: seq<Step>, j: WorkspaceKey, k: WorkspaceKey)
    requires Sound(t) && LegalRun(cfg, t, steps)
    requires IsAttached(Run(cfg, t, steps), j) && IsAttached(Run(cfg, t, steps), k) && j != k && j.node == k.node
    ensures Run(cfg, t, steps).attachments[j].workspaceIp != Run(cfg, t, steps).attachments[k].workspaceIp
  {
    RunsStaySound(cfg, t, steps);
    var t' := Run(cfg, t, steps);
    assert AttachmentSound(t', j) && AttachmentSound(t', k);
    assert IpFree(t'.leases, j, t'.leases[j].ip);
  }
}
