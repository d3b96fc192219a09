/** What one janitor run does to the rows of a node. */
module JanitorSteps {
  import opened TopologyTables
  import opened TopologySteps

  /** The clock, the staleness limit, the terminal workspaces, and the workspaces on which each repair fails. */
  datatype JanitorEnv = JanitorEnv(
    now: int,
    staleSeconds: int,
    terminal: set<int>,
    stuckDetachFails: set<int>,
    stuckReleaseFails: set<int>,
    orphanReleaseFails: set<int>,
    driftDetachFails: set<int>,
    driftReleaseFails: set<int>)
  {
    function Cutoff(): int {
      now - if staleSeconds < 0 then 0 else staleSeconds
    }

    predicate FaultFree() {
      && stuckDetachFails == {} && stuckReleaseFails == {} && orphanReleaseFails == {}
      && driftDetachFails == {} && driftReleaseFails == {}
    }
  }

  /** The three repair counts. */
  datatype JanitorResult = JanitorResult(stale: nat, orphans: nat, drift: nat)

  predicate IsStuck(a: Attachment, cutoff: int) {
    (a.status.Attaching? || a.status.Failed?) && a.updatedAt < cutoff
  }

  predicate IsAttached(t: Tables, k: WorkspaceKey) {
    k in t.attachments && t.attachments[k].status.Attached?
  }

  function StuckKeys(t: Tables, n: NodeKey, cutoff: int): set<WorkspaceKey> {
    set k | k in t.attachments && k.node == n && IsStuck(t.attachments[k], cutoff)
  }

  function OrphanKeys(t: Tables, n: NodeKey): set<WorkspaceKey> {
    set k | k in t.leases && k.node == n && t.leases[k].active && !IsAttached(t, k)
  }

  function DriftKeys(t: Tables, n: NodeKey, terminal: set<int>): set<WorkspaceKey> {
    set k | k in t.attachments && k.node == n && t.attachments[k].status.Attached? && k.workspaceId in terminal
  }

  function Except(keys: set<WorkspaceKey>, workspaces: set<int>): set<WorkspaceKey> {
    set k | k in keys && k.workspaceId !in workspaces
  }

  function DetachedAll(attachments: map<WorkspaceKey, Attachment>, keys: set<WorkspaceKey>, now: int)
    : map<WorkspaceKey, Attachment>
  {
    map k | k in attachments :: if k in keys then DetachedRow(attachments[k], now) else attachments[k]
  }

  function ReleasedAll(leases: map<WorkspaceKey, Lease>, keys: set<WorkspaceKey>): map<WorkspaceKey, Lease> {
    map k | k in leases :: if k in keys then leases[k].(active := false) else leases[k]
  }

  function Swept(t: Tables, detach: set<WorkspaceKey>, release: set<WorkspaceKey>, now: int): Tables {
    t.(attachments := DetachedAll(t.attachments, detach, now), leases := ReleasedAll(t.leases, release))
  }

  /** A sweep, row by row. */
  lemma SweptRows(
    t: Tables, detach: set<WorkspaceKey>, releaseFails: set<int>, now: int,
    attachments: map<WorkspaceKey, Attachment>, leases: map<WorkspaceKey, Lease>)
    requires forall j :: (j in attachments <==> j in t.attachments) && (j in leases <==> j in t.leases)
    requires forall j :: j in attachments ==>
               attachments[j] == if j in detach then DetachedRow(t.attachments[j], now) else t.attachments[j]
    requires forall j :: j in leases ==>
               leases[j] == if j in detach && j.workspaceId !in releaseFails
                            then t.leases[j].(active := false) else t.leases[j]
    ensures Swept(t, detach, Except(detach, releaseFails), now) == Tables(t.runtimes, leases, attachments)
  {
    assert attachments == DetachedAll(t.attachments, detach, now);
    assert leases == ReleasedAll(t.leases, Except(detach, releaseFails));
  }

  lemma ReleasedRows(t: Tables, release: set<WorkspaceKey>, now: int, leases: map<WorkspaceKey, Lease>)
    requires forall j :: j in leases <==> j in t.leases
    requires forall j :: j in leases ==>
               leases[j] == if j in release then t.leases[j].(active := false) else t.leases[j]
    ensures Swept(t, {}, release, now) == t.(leases := leases)
  {
    assert leases == ReleasedAll(t.leases, release);
    assert DetachedAll(t.attachments, {}, now) == t.attachments;
  }

  /** Stale rows are detached, and the leases of those that were are released. */
  function AfterStuck(t: Tables, n: NodeKey, env: JanitorEnv): Tables {
    var detach := Except(StuckKeys(t, n, env.Cutoff()), env.stuckDetachFails);
    Swept(t, detach, Except(detach, env.stuckReleaseFails), env.now)
  }

  /** Leases without an ATTACHED row are released. */
  function AfterOrphans(t: Tables, n: NodeKey, env: JanitorEnv): Tables {
    Swept(t, {}, Except(OrphanKeys(t, n), env.orphanReleaseFails), env.now)
  }

  /** ATTACHED rows of terminal workspaces are detached, and their leases released. */
  function AfterDrift(t: Tables, n: NodeKey, env: JanitorEnv): Tables {
    var detach := Except(DriftKeys(t, n, env.terminal), env.driftDetachFails);
    Swept(t, detach, Except(detach, env.driftReleaseFails), env.now)
  }

  function JanitorStep(t: Tables, n: NodeKey, env: JanitorEnv): (r: (Tables, JanitorResult)) {
    var t1 := AfterStuck(t, n, env);
    var t2 := AfterOrphans(t1, n, env);
    var t3 := AfterDrift(t2, n, env);
    var stuck, orphans, drift := StuckKeys(t, n, env.Cutoff()), OrphanKeys(t1, n), DriftKeys(t2, n, env.terminal);
    (t3, JanitorResult(
      |Except(stuck, env.stuckDetachFails)|,
      |Except(orphans, env.orphanReleaseFails)|,
      |Except(drift, env.driftDetachFails)|))
  }
}
