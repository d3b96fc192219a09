/** The adapter object: its methods change the three tables row by row. */
module TopologyAdapter {
  import opened Wrappers
  import opened Text
  import opened HostPool
  import opened TopologyTables
  import opened SubnetPool
  import opened TopologySteps
  import opened JanitorSteps
  import opened TopologyFacts

  class DbTopologyAdapter {
    const cfg: Config
    var runtimes: map<NodeKey, Runtime>
    var leases: map<WorkspaceKey, Lease>
    var attachments: map<WorkspaceKey, Attachment>

    function Rows(): Tables
      reads this
    {
      Tables(runtimes, leases, attachments)
    }

    constructor (cfg: Config)
      ensures this.cfg == cfg && Rows() == Tables(map[], map[], map[])
    {
      this.cfg := cfg;
      runtimes, leases, attachments := map[], map[], map[];
    }

    method SyncLinuxNodeBridge(n: NodeKey, env: EnsureEnv) returns (r: Outcome<Runtime, Error>)
      requires n in runtimes
      modifies this`runtimes
      ensures (runtimes, r) == SyncStep(cfg, old(runtimes), n, env)
    {
      var row := runtimes[n];
      if !cfg.linuxBridge {
        row := row.(status := Ready);
        if !env.syncCommits {
          return Raised(UnhandledError);
        }
        runtimes := runtimes[n := row];
        return Returned(row);
      }
      if !row.Complete() || !env.bridgeReady {
        row := row.(status := Degraded);
      } else {
        row := row.(status := Ready);
      }
      if !env.syncCommits {
        return Raised(RuntimeCreateError);
      }
      runtimes := runtimes[n := row];
      r := Returned(row);
    }

    /** The retry loop: each attempt chooses again from the rows it reads, until one commits. */
    method AssignCidr(n: NodeKey, env: EnsureEnv) returns (written: bool)
      requires env.spec.Plan?
      modifies this`runtimes
      ensures var choice := SettledChoice(old(runtimes), n, env.spec, 0, env.conflicts);
              && written == (choice.Returned? && env.rowCommits)
              && runtimes == if written
                             then old(runtimes)[n := FilledRow(
                               Stored(old(runtimes), n), env.spec, choice.value.0, choice.value.1)]
                             else old(runtimes)
    {
      ghost var settled := SettledChoice(runtimes, n, env.spec, 0, env.conflicts);
      var attempt := 0;
      while true
        invariant attempt <= env.conflicts && attempt < ENSURE_MAX_ATTEMPTS && runtimes == old(runtimes)
        invariant settled == SettledChoice(runtimes, n, env.spec, attempt, env.conflicts - attempt)
        decreases ENSURE_MAX_ATTEMPTS - attempt
      {
        SettledChoiceStep(runtimes, n, env.spec, attempt, env.conflicts - attempt);
        var existing := Stored(runtimes, n);
        var choice := ChooseCidrAndGateway(runtimes, n, existing, env.spec, attempt);
        if choice.Raised? {
          return false;
        }
        if attempt == env.conflicts {
          if env.rowCommits {
            runtimes := runtimes[n := FilledRow(existing, env.spec, choice.value.0, choice.value.1)];
          }
          return env.rowCommits;
        }
        attempt := attempt + 1;
        if attempt == ENSURE_MAX_ATTEMPTS {
          return false;
        }
      }
    }

    method EnsureNodeTopology(n: NodeKey, env: EnsureEnv) returns (r: Outcome<Runtime, Error>)
      modifies this`runtimes
      ensures (runtimes, r) == EnsureStep(cfg, old(runtimes), n, env)
    {
      if n.nodeId == "" || !env.spec.Plan? {
        return Raised(RuntimeCreateError);
      }
      if n !in runtimes || !runtimes[n].Complete() {
        var written := AssignCidr(n, env);
        if !written {
          return Raised(RuntimeCreateError);
        }
      }
      r := SyncLinuxNodeBridge(n, env);
    }

    method AllocateWorkspaceIpAttempt(k: WorkspaceKey, retryIndex: nat) returns (r: Outcome<nat, Error>)
      requires AllocateRefusal(runtimes, k.node).None?
      ensures r == PickedIp(runtimes, leases, k, retryIndex)
    {
      var runtime := runtimes[k.node];
      if runtime.cidr.BadCidr? {
        return Raised(UnhandledError);
      }
      if !runtime.gateway.Addr? || !runtime.cidr.net.Contains(runtime.gateway.ip) {
        return Raised(IpAllocationError);
      }
      var candidates := IterCandidateWorkspaceHosts(runtime.cidr.net, runtime.gateway.ip);
      var used := LeasedIps(leases, k.node);
      if candidates == [] {
        return Raised(IpAllocationError);
      }
      var chosen := PickFirstFreeHost(candidates, used, ScanOffset(k, |candidates|, retryIndex));
      r := if chosen.None? then Raised(IpAllocationError) else Returned(chosen.value);
    }

    method AllocateWorkspaceIp(k: WorkspaceKey, env: AllocateEnv) returns (r: Outcome<AllocateResult, Error>)
      modifies this`leases
      ensures (leases, r) == AllocateStep(old(Rows()), k, env)
    {
      var refusal := AllocateRefusal(runtimes, k.node);
      if refusal.Some? {
        return Raised(refusal.value);
      }
      if k in leases && leases[k].active {
        return Returned(AllocateResult(leases[k].ip, true));
      }
      var attempt := 0;
      while true
        invariant attempt <= env.conflicts && attempt < ALLOCATE_MAX_ATTEMPTS
        invariant leases == old(leases)
        invariant attempt > 0 ==> PickedIp(runtimes, leases, k, 0).Returned?
        decreases ALLOCATE_MAX_ATTEMPTS - attempt
      {
        var chosen := AllocateWorkspaceIpAttempt(k, attempt);
        PickFailsAlike(runtimes, leases, k, attempt, env.conflicts);
        PickFailsAlike(runtimes, leases, k, attempt, 0);
        if chosen.Raised? {
          return Raised(chosen.error);
        }
        PickFailsAlike(runtimes, leases, k, 0, attempt);
        if attempt == env.conflicts {
          if !env.commits {
            return Raised(IpAllocationError);
          }
          PickedIpIsFree(runtimes, leases, k, attempt);
          assert IpFree(leases, k, chosen.value);
          leases := leases[k := Lease(chosen.value, true)];
          return Returned(AllocateResult(chosen.value, false));
        }
        attempt := attempt + 1;
        if attempt == ALLOCATE_MAX_ATTEMPTS {
          return Raised(IpAllocationError);
        }
      }
    }

    method ReleaseWorkspaceIpLease(k: WorkspaceKey, commits: bool) returns (r: Outcome<bool, Error>)
      modifies this`leases
      ensures (leases, r) == ReleaseStep(old(leases), k, commits)
    {
      if k !in leases || !leases[k].active {
        return Returned(false);
      }
      if !commits {
        return Raised(IpAllocationError);
      }
      leases := leases[k := leases[k].(active := false)];
      r := Returned(true);
    }

    method DetachWorkspace(k: WorkspaceKey, env: DetachEnv) returns (r: Outcome<bool, Error>)
      modifies this`attachments
      ensures (attachments, r) == DetachStep(cfg, old(attachments), k, env)
    {
      if k !in attachments || attachments[k].status.Detached? {
        return Returned(false);
      }
      if cfg.linuxAttachment && !env.vethRemoved {
        return Raised(DetachError);
      }
      if !env.commits {
        return Raised(DetachError);
      }
      attachments := attachments[k := attachments[k].(status := Detached, containerId := "", updatedAt := env.now)];
      r := Returned(true);
    }

    /** Marks the row FAILED and, for a row this call created, frees the lease; neither write may succeed. */
    method AttachFailureBestEffort(k: WorkspaceKey, workspaceIp: nat, releaseIp: bool, env: AttachEnv)
      requires k in attachments
      modifies this`attachments, this`leases
      ensures attachments == if env.failedCommits
                             then old(attachments)[k := old(attachments)[k].(status := Failed, updatedAt := env.now)]
                             else old(attachments)
      ensures leases == if releaseIp && env.releaseCommits && k in old(leases) && old(leases)[k].ip == workspaceIp
                        then Released(old(leases), k) else old(leases)
    {
      if env.failedCommits {
        attachments := attachments[k := attachments[k].(status := Failed, updatedAt := env.now)];
      }
      if !releaseIp {
        return;
      }
      if k in leases && leases[k].active && leases[k].ip == workspaceIp && env.releaseCommits {
        leases := leases[k := leases[k].(active := false)];
      }
    }

    method AttachWorkspace(k: WorkspaceKey, req: AttachRequest, env: AttachEnv) returns (r: Outcome<nat, Error>)
      modifies this
      ensures (Rows(), r) == AttachStep(cfg, old(Rows()), k, req, env)
    {
      if Cleaned(req.container) == "" {
        return Raised(AttachmentError);
      }
      var ensured := EnsureNodeTopology(k.node, env.ensure);
      if ensured.Raised? {
        return Raised(ensured.error);
      }
      r := AttachToEnsuredRuntime(k, req, env);
    }

    method AttachToEnsuredRuntime(k: WorkspaceKey, req: AttachRequest, env: AttachEnv) returns (r: Outcome<nat, Error>)
      modifies this`attachments, this`leases
      ensures (Rows(), r) == AttachEnsured(cfg, old(Rows()), k, req, env)
    {
      var refusal := Guard(Rows(), k, req);
      if refusal.Some? {
        return Raised(refusal.value);
      }
      var isNew := k !in attachments;
      ghost var before := attachments;
      if EarlyEligible(Rows(), k, req) {
        if !cfg.linuxAttachment || env.fastVerify.Clean? {
          return Returned(req.workspaceIp);
        }
        if env.fastVerify.CheckRaises? {
          return Raised(UnhandledError);
        }
      }
      if !env.attachingCommits {
        return Raised(AttachmentError);
      }
      var runtime := runtimes[k.node];
      attachments := attachments[k := Attachment(Attaching, Cleaned(req.container), Addr(req.workspaceIp),
                                                 runtime.bridge, runtime.gateway, env.now)];
      r := WireAndMark(k, req, env, isNew);
      assert attachments == before[k := AttachmentRow(old(Rows()), k, req, FinalStatus(WiredPath(cfg, env), env), env.now)];
    }

    /** The wiring, the ATTACHED commit and the final verification. */
    method WireAndMark(k: WorkspaceKey, req: AttachRequest, env: AttachEnv, isNew: bool) returns (r: Outcome<nat, Error>)
      requires k in attachments && attachments[k].status.Attaching? && attachments[k].updatedAt == env.now
      requires ActiveLease(leases, k) && leases[k].ip == req.workspaceIp
      modifies this`attachments, this`leases
      ensures var path := WiredPath(cfg, env);
              && r == PathReply(path, req)
              && attachments == old(attachments)[k := old(attachments)[k].(status := FinalStatus(path, env))]
              && leases == if GaveUp(path) && isNew && env.releaseCommits then Released(old(leases), k) else old(leases)
    {
      if cfg.linuxAttachment {
        match env.wiring
        case WiringEscapes => return Raised(UnhandledError);
        case WiringFails =>
          AttachFailureBestEffort(k, req.workspaceIp, isNew, env);
          return Raised(AttachmentError);
        case WiringDone =>
      }
      if !env.attachedCommits {
        AttachFailureBestEffort(k, req.workspaceIp, isNew, env);
        return Raised(AttachmentError);
      }
      attachments := attachments[k := attachments[k].(status := AttachmentStatus.Attached, updatedAt := env.now)];
      if cfg.linuxAttachment {
        match env.postVerify
        case Clean =>
        case Mismatch =>
          AttachFailureBestEffort(k, req.workspaceIp, isNew, env);
          return Raised(AttachmentError);
        case CheckRaises => return Raised(UnhandledError);
      }
      r := Returned(req.workspaceIp);
    }

    method DeleteTopology(n: NodeKey, env: DeleteEnv) returns (r: Outcome<(), Error>)
      modifies this`runtimes, this`attachments
      ensures (Rows(), r) == DeleteStep(cfg, old(Rows()), n, env)
    {
      if n.nodeId == "" || Blocked(attachments, n) {
        return Raised(DeleteError);
      }
      var kept := attachments;
      var rows := set k | k in attachments && k.node == n;
      while rows != {}
        invariant rows <= attachments.Keys && forall k :: k in rows ==> k.node == n
        invariant kept == map k | k in attachments && (k.node != n || k in rows) :: attachments[k]
      {
        var k :| k in rows;
        kept := kept - {k};
        rows := rows - {k};
      }
      assert kept == WithoutNode(attachments, n);
      if n !in runtimes {
        if env.commits {
          attachments := kept;
        }
        return Returned(());
      }
      var bridge := runtimes[n].bridge;
      if !env.commits {
        return Raised(DeleteError);
      }
      attachments := kept;
      runtimes := runtimes - {n};
      if cfg.linuxBridge && bridge != "" && !env.bridgeRemoved {
        return Raised(DeleteError);
      }
      r := Returned(());
    }

    method RunTopologyJanitor(n: NodeKey, env: JanitorEnv) returns (r: JanitorResult)
      modifies this`attachments, this`leases
      ensures (Rows(), r) == JanitorStep(old(Rows()), n, env)
    {
      var stale := CleanStuck(n, env);
      var orphans := ReleaseOrphans(n, env);
      var drift := RepairDrift(n, env);
      r := JanitorResult(stale, orphans, drift);
    }

    /** Detach one row, then release its lease; the two writes fail for the given workspaces. */
    method DetachAndRelease(k: WorkspaceKey, detachFails: set<int>, releaseFails: set<int>, now: int)
      returns (detached: bool)
      requires k in attachments && !attachments[k].status.Detached?
      modifies this`attachments, this`leases
      ensures detached == (k.workspaceId !in detachFails)
      ensures attachments == if detached then old(attachments)[k := DetachedRow(old(attachments)[k], now)]
                             else old(attachments)
      ensures leases == if detached && k.workspaceId !in releaseFails then Released(old(leases), k) else old(leases)
    {
      var detach := DetachWorkspace(k, DetachEnv(true, k.workspaceId !in detachFails, now));
      if detach.Raised? {
        return false;
      }
      var _ := ReleaseWorkspaceIpLease(k, k.workspaceId !in releaseFails);
      detached := true;
    }

    /** Detach the given rows and release their leases, one row at a time. */
    method DetachAndReleaseAll(rows: set<WorkspaceKey>, detachFails: set<int>, releaseFails: set<int>, now: int)
      returns (count: nat)
      requires forall k :: k in rows ==> k in attachments && !attachments[k].status.Detached?
      modifies this`attachments, this`leases
      ensures var detach := Except(rows, detachFails);
              && Rows() == Swept(old(Rows()), detach, Except(detach, releaseFails), now)
              && count == |detach|
    {
      ghost var t := Rows();
      var todo := rows;
      ghost var detach: set<WorkspaceKey> := {};
      count := 0;
      while todo != {}
        invariant todo <= rows
        invariant forall j :: j in detach <==> j in rows && j !in todo && j.workspaceId !in detachFails
        invariant forall j :: (j in attachments <==> j in t.attachments) && (j in leases <==> j in t.leases)
        invariant forall j :: j in attachments ==>
                    attachments[j] == if j in detach then DetachedRow(t.attachments[j], now) else t.attachments[j]
        invariant forall j :: j in leases ==>
                    leases[j] == if j in detach && j.workspaceId !in releaseFails
                                 then t.leases[j].(active := false) else t.leases[j]
        invariant count == |detach|
      {
        var k :| k in todo;
        todo := todo - {k};
        var ok := DetachAndRelease(k, detachFails, releaseFails, now);
        if ok {
          detach := detach + {k};
          count := count + 1;
        }
      }
      assert detach == Except(rows, detachFails);
      SweptRows(t, detach, releaseFails, now, attachments, leases);
    }

    method CleanStuck(n: NodeKey, env: JanitorEnv) returns (cleaned: nat)
      modifies this`attachments, this`leases
      ensures Rows() == AfterStuck(old(Rows()), n, env)
      ensures cleaned == |Except(StuckKeys(old(Rows()), n, env.Cutoff()), env.stuckDetachFails)|
    {
      var stuck := StuckKeys(Rows(), n, env.Cutoff());
      cleaned := DetachAndReleaseAll(stuck, env.stuckDetachFails, env.stuckReleaseFails, env.now);
    }

    method ReleaseOrphans(n: NodeKey, env: JanitorEnv) returns (released: nat)
      modifies this`leases
      ensures Rows() == AfterOrphans(old(Rows()), n, env)
      ensures released == |Except(OrphanKeys(old(Rows()), n), env.orphanReleaseFails)|
    {
      ghost var t := Rows();
      var todo := set k | k in leases && k.node == n && leases[k].active;
      ghost var release: set<WorkspaceKey> := {};
      released := 0;
      while todo != {}
        invariant forall j :: j in todo ==> j in t.leases && j.node == n && t.leases[j].active
        invariant forall j :: j in release <==>
                    j in OrphanKeys(t, n) && j !in todo && j.workspaceId !in env.orphanReleaseFails
        invariant forall j :: j in leases <==> j in t.leases
        invariant forall j :: j in leases ==>
                    leases[j] == if j in release then t.leases[j].(active := false) else t.leases[j]
        invariant released == |release|
      {
        var k :| k in todo;
        todo := todo - {k};
        if k !in attachments || !attachments[k].status.Attached? {
          var result := ReleaseWorkspaceIpLease(k, k.workspaceId !in env.orphanReleaseFails);
          if result.Returned? && result.value {
            release := release + {k};
            released := released + 1;
          }
        }
      }
      assert release == Except(OrphanKeys(t, n), env.orphanReleaseFails);
      ReleasedRows(t, release, env.now, leases);
    }

    method RepairDrift(n: NodeKey, env: JanitorEnv) returns (repaired: nat)
      modifies this`attachments, this`leases
      ensures Rows() == AfterDrift(old(Rows()), n, env)
      ensures repaired == |Except(DriftKeys(old(Rows()), n, env.terminal), env.driftDetachFails)|
    {
      var drift := DriftKeys(Rows(), n, env.terminal);
      repaired := DetachAndReleaseAll(drift, env.driftDetachFails, env.driftReleaseFails, env.now);
    }
  }
}
