/** What a janitor run leaves of each row and each lease, told from their columns, and what it counts. */
module JanitorOutcomes {
  import opened TopologyTables
  import opened JanitorSteps

  /** Left in ATTACHING or FAILED since before the staleness limit, and not one of the rows that cannot be detached. */
  predicate Expires(a: Attachment, env: JanitorEnv, workspaceId: int) {
    && (a.status == Attaching || a.status == Failed)
    && a.updatedAt < env.now - (if env.staleSeconds > 0 then env.staleSeconds else 0)
    && workspaceId !in env.stuckDetachFails
  }

  /** Still ATTACHED for a workspace that is stopped, failed or deleted, and not one that cannot be detached. */
  predicate Drifts(a: Attachment, env: JanitorEnv, workspaceId: int) {
    a.status == Attached && workspaceId in env.terminal && workspaceId !in env.driftDetachFails
  }

  /** A row of the node is detached if it expires or drifts, and is otherwise left as it is. */
  lemma RowOutcome(t: Tables, n: NodeKey, env: JanitorEnv, k: WorkspaceKey)
    requires k.node == n
    ensures var t' := JanitorStep(t, n, env).0;
            && (k in t'.attachments <==> k in t.attachments)
            && (k in t.attachments ==>
                  var a := t.attachments[k];
                  t'.attachments[k]
                  == if Expires(a, env, k.workspaceId) || Drifts(a, env, k.workspaceId)
                     then Attachment(Detached, "", a.workspaceIp, a.bridge, a.gateway, env.now)
                     else a)
  {
  }

  /** The workspace of an active lease has no ATTACHED row. */
  predicate Unattached(t: Tables, k: WorkspaceKey) {
    k in t.attachments ==> t.attachments[k].status != Attached
  }

  /** The lease goes with an expiring row. */
  predicate FreedWithStale(t: Tables, env: JanitorEnv, k: WorkspaceKey) {
    k in t.attachments && Expires(t.attachments[k], env, k.workspaceId) && k.workspaceId !in env.stuckReleaseFails
  }

  predicate FreedWithDrift(t: Tables, env: JanitorEnv, k: WorkspaceKey) {
    k in t.attachments && Drifts(t.attachments[k], env, k.workspaceId) && k.workspaceId !in env.driftReleaseFails
  }

  /** An active lease of the node is freed with an expiring or drifting row, or because no ATTACHED row stands behind
      it, each unless its release fails. */
  lemma LeaseOutcome(t: Tables, n: NodeKey, env: JanitorEnv, k: WorkspaceKey)
    requires k.node == n
    ensures var t' := JanitorStep(t, n, env).0;
            && (k in t'.leases <==> k in t.leases)
            && (k in t.leases ==>
                  var freed := FreedWithStale(t, env, k) || FreedWithDrift(t, env, k)
                               || (Unattached(t, k) && k.workspaceId !in env.orphanReleaseFails);
                  t'.leases[k] == Lease(t.leases[k].ip, t.leases[k].active && !freed))
  {
    var t1 := AfterStuck(t, n, env);
    var t2 := AfterOrphans(t1, n, env);
    assert IsAttached(t1, k) <==> !Unattached(t, k);
    assert IsAttached(t2, k) <==> !Unattached(t, k);
    if k in t.leases {
      assert t1.leases[k] == Lease(t.leases[k].ip, t.leases[k].active && !FreedWithStale(t, env, k));
      assert t2.leases[k].active <==>
               t1.leases[k].active && !(Unattached(t, k) && k.workspaceId !in env.orphanReleaseFails);
    }
  }

  /** The three counts: the rows that expired, the leases freed as orphans after that, and the rows that drifted. */
  lemma CountOutcome(t: Tables, n: NodeKey, env: JanitorEnv)
    ensures var r := JanitorStep(t, n, env).1;
            && r.stale == |set k | k in t.attachments && k.node == n && Expires(t.attachments[k], env, k.workspaceId)|
            && r.orphans == |set k | k in t.leases && k.node == n && t.leases[k].active && Unattached(t, k)
                                     && !FreedWithStale(t, env, k) && k.workspaceId !in env.orphanReleaseFails|
            && r.drift == |set k | k in t.attachments && k.node == n && Drifts(t.attachments[k], env, k.workspaceId)|
  {
    var t1 := AfterStuck(t, n, env);
    var t2 := AfterOrphans(t1, n, env);
    assert Except(StuckKeys(t, n, env.Cutoff()), env.stuckDetachFails)
        == set k | k in t.attachments && k.node == n && Expires(t.attachments[k], env, k.workspaceId);
    assert forall k :: IsAttached(t1, k) <==> IsAttached(t, k);
    assert Except(OrphanKeys(t1, n), env.orphanReleaseFails)
        == set k | k in t.leases && k.node == n && t.leases[k].active && Unattached(t, k)
                   && !FreedWithStale(t, env, k) && k.workspaceId !in env.orphanReleaseFails;
    assert t2.attachments == t1.attachments;
    assert Except(DriftKeys(t2, n, env.terminal), env.driftDetachFails)
        == set k | k in t.attachments && k.node == n && Drifts(t.attachments[k], env, k.workspaceId);
  }
}
