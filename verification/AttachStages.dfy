/** What an attach call relies on between its steps, and which calls of others take it away. */
module AttachStages {
  import opened Wrappers
  import opened TopologyTables
  import opened TopologySteps
  import opened TopologyFacts
  import opened JanitorSteps
  import opened TopologyRuns
  import opened AttachSteps

  // ---------------------------------------------------------------- what a call in progress relies on

  /** The address is leased to the workspace and lies in the CIDR of the node's runtime. */
  predicate Ground(t: Tables, k: WorkspaceKey, ip: nat) {
    && k.node in t.runtimes && t.runtimes[k.node].cidr.Cidr? && t.runtimes[k.node].cidr.net.Contains(ip)
    && ActiveLease(t.leases, k) && t.leases[k].ip == ip
  }

  /** The update leaves the wanted row, or one that differs from it in its status, which is then not ATTACHED. */
  predicate Covers(plan: Plan, seen: Attachment, stored: Attachment) {
    var row := Updated(seen, plan.Wanted(0), stored);
    row.(status := Attaching, updatedAt := 0) == plan.Wanted(0) && !row.status.Attached?
  }

  /** Each stage relies on what its later steps do not check again. */
  ghost predicate StageSound(t: Tables, k: WorkspaceKey, stage: Stage) {
    match stage
    case HasRuntime(plan) => plan.Sound() && (LeaseFits(t, k, plan) ==> Ground(t, k, plan.req.workspaceIp))
    case HasLease(plan) => plan.Sound() && Ground(t, k, plan.req.workspaceIp)
    case HasRow(plan, seen) =>
      && plan.Sound() && (seen.None? ==> k !in t.attachments)
      && (CommitFits(t, k, seen) ==> Ground(t, k, plan.req.workspaceIp))
      && (seen.Some? && k in t.attachments ==> Covers(plan, seen.value, t.attachments[k]))
    case Begun(_, _) => k in t.attachments ==> !t.attachments[k].status.Attached? && AttachmentSound(t, k)
    case Verifying(_, _) => true
  }

  ghost predicate RaceSound(st: State) {
    Sound(st.t) && forall k :: k in st.calls ==> StageSound(st.t, k, st.calls[k])
  }

  // ---------------------------------------------------------------- what a whole other call does to it

  /** The call deletes the runtime of the node, and all attachment rows of the node with it. */
  predicate Deletes(t: Tables, s: Step, n: NodeKey) {
    s.Delete? && s.n == n && n.nodeId != "" && s.deleteEnv.commits && !Blocked(t.attachments, n)
  }

  /** A janitor run detaches the row of k, as stale, or as that of a terminal workspace. */
  predicate JanitorDetaches(t: Tables, n: NodeKey, env: JanitorEnv, k: WorkspaceKey) {
    && k.node == n && k in t.attachments
    && if IsAttached(t, k) then k.workspaceId in env.terminal && k.workspaceId !in env.driftDetachFails
       else IsStuck(t.attachments[k], env.Cutoff()) && k.workspaceId !in env.stuckDetachFails
  }

  /** A janitor run frees the lease of k, together with its row, or as an orphan. */
  predicate JanitorFrees(t: Tables, n: NodeKey, env: JanitorEnv, k: WorkspaceKey) {
    && k.node == n
    && if IsAttached(t, k) then JanitorDetaches(t, n, env, k) && k.workspaceId !in env.driftReleaseFails
       else
         || k.workspaceId !in env.orphanReleaseFails
         || (JanitorDetaches(t, n, env, k) && k.workspaceId !in env.stuckReleaseFails)
  }

  predicate FreesLease(t: Tables, s: Step, k: WorkspaceKey) {
    match s
    case Release(j, commits) => j == k && commits
    case Janitor(n, env) => JanitorFrees(t, n, env, k)
    case _ => false
  }

  predicate DetachesRow(cfg: Config, t: Tables, s: Step, k: WorkspaceKey)
    requires k in t.attachments
  {
    match s
    case Detach(j, env) => j == k && DetachSucceeds(cfg, env) && !t.attachments[k].status.Detached?
    case Janitor(n, env) => JanitorDetaches(t, n, env, k)
    case _ => false
  }

  /** A call that pulls the ground from under an attach in progress: once the runtime is read, a delete, if the lease
      still fits; once the lease is read, a delete, or a call that frees the lease; once the row is read, a call that
      frees the lease, a delete if there was no row, or a call that detaches a row that had the same container; after
      the first commit, a call that frees the lease or detaches the row. */
  predicate Disturbs(cfg: Config, t: Tables, s: Step, k: WorkspaceKey, stage: Stage) {
    match stage
    case HasRuntime(plan) => Deletes(t, s, k.node) && LeaseFits(t, k, plan)
    case HasLease(_) => Deletes(t, s, k.node) || FreesLease(t, s, k)
    case HasRow(plan, seen) =>
      && CommitFits(t, k, seen)
      && (|| FreesLease(t, s, k)
          || (seen.None? && Deletes(t, s, k.node))
          || (seen.Some? && seen.value.containerId == plan.Container() && DetachesRow(cfg, t, s, k)))
    case Begun(_, _) => k in t.attachments && (FreesLease(t, s, k) || DetachesRow(cfg, t, s, k))
    case Verifying(_, _) => false
  }

  lemma RuntimeAfter(cfg: Config, t: Tables, s: Step, n: NodeKey)
    requires Sound(t) && n in t.runtimes
    ensures n in Next(cfg, t, s).runtimes <==> !Deletes(t, s, n)
    ensures !Deletes(t, s, n) ==> Next(cfg, t, s).runtimes[n].cidr == t.runtimes[n].cidr
  {
    match s
    case Ensure(m, env) => EnsureKeepsCidr(cfg, t, m, env, n);
    case Attach(j, req, env) =>
      EnsureKeepsCidr(cfg, t, j.node, env.ensure, n);
      AttachRuntimes(cfg, t, j, req, env);
    case Delete(_, _) => assert RuntimeSound(n, t.runtimes[n]);
    case _ =>
  }

  lemma EnsureKeepsCidr(cfg: Config, t: Tables, m: NodeKey, env: EnsureEnv, n: NodeKey)
    requires Sound(t) && n in t.runtimes
    ensures var runtimes := EnsureStep(cfg, t.runtimes, m, env).0;
            n in runtimes && runtimes[n].cidr == t.runtimes[n].cidr
  {
    assert RuntimeSound(n, t.runtimes[n]);
    EnsureKeepsRuntimes(cfg, t, m, env);
  }

  lemma JanitorRow(t: Tables, n: NodeKey, env: JanitorEnv, k: WorkspaceKey)
    ensures var t' := JanitorStep(t, n, env).0;
            && (k in t'.attachments <==> k in t.attachments)
            && (k in t.attachments ==>
                  t'.attachments[k] == if JanitorDetaches(t, n, env, k) then DetachedRow(t.attachments[k], env.now)
                                       else t.attachments[k])
  {
  }

  lemma JanitorLease(t: Tables, n: NodeKey, env: JanitorEnv, k: WorkspaceKey)
    ensures var t' := JanitorStep(t, n, env).0;
            && (k in t'.leases <==> k in t.leases)
            && (ActiveLease(t.leases, k) ==>
                  t'.leases[k] == if JanitorFrees(t, n, env, k) then t.leases[k].(active := false) else t.leases[k])
            && (k in t.leases && !t.leases[k].active ==> !t'.leases[k].active)
  {
    var t1 := AfterStuck(t, n, env);
    var t2 := AfterOrphans(t1, n, env);
    assert IsAttached(t1, k) <==> IsAttached(t, k);
    assert IsAttached(t2, k) <==> IsAttached(t, k);
  }

  lemma RowAfter(cfg: Config, t: Tables, s: Step, k: WorkspaceKey)
    requires s.Attach? ==> s.k != k
    ensures k !in t.attachments || Deletes(t, s, k.node) ==> k !in Next(cfg, t, s).attachments
    ensures k in t.attachments && !Deletes(t, s, k.node) ==>
              && k in Next(cfg, t, s).attachments
              && var (row, row') := (t.attachments[k], Next(cfg, t, s).attachments[k]);
                 if DetachesRow(cfg, t, s, k) then row' == DetachedRow(row, row'.updatedAt) else row' == row
  {
    match s
    case Janitor(n, env) => JanitorRow(t, n, env, k);
    case _ =>
  }

  lemma LeaseAfter(cfg: Config, t: Tables, s: Step, k: WorkspaceKey)
    requires ActiveLease(t.leases, k) && (s.Attach? ==> s.k != k)
    ensures k in Next(cfg, t, s).leases
    ensures Next(cfg, t, s).leases[k] == if FreesLease(t, s, k) then t.leases[k].(active := false) else t.leases[k]
  {
    match s
    case Janitor(n, env) => JanitorLease(t, n, env, k);
    case _ =>
  }

  /** A lease that was not active and now is was granted inside the CIDR of the runtime. */
  lemma NewLease(cfg: Config, t: Tables, s: Step, k: WorkspaceKey)
    requires !ActiveLease(t.leases, k) && ActiveLease(Next(cfg, t, s).leases, k) && (s.Attach? ==> s.k != k)
    ensures Ground(Next(cfg, t, s), k, Next(cfg, t, s).leases[k].ip)
  {
    match s
    case Allocate(j, env) => PickedIpIsFree(t.runtimes, t.leases, k, env.conflicts);
    case Janitor(n, env) => JanitorLease(t, n, env, k);
    case _ =>
  }

  /** The ground stays exactly if the runtime and the lease do. */
  lemma GroundAfter(cfg: Config, t: Tables, s: Step, k: WorkspaceKey, ip: nat)
    requires Sound(t) && Ground(t, k, ip) && (s.Attach? ==> s.k != k)
    ensures Ground(Next(cfg, t, s), k, ip) <==> !Deletes(t, s, k.node) && !FreesLease(t, s, k)
  {
    RuntimeAfter(cfg, t, s, k.node);
    LeaseAfter(cfg, t, s, k);
  }

  /** An attach call of another workspace touches the runtimes as an ensure does. */
  lemma AttachRuntimes(cfg: Config, t: Tables, j: WorkspaceKey, req: AttachRequest, env: AttachEnv)
    ensures var runtimes := AttachStep(cfg, t, j, req, env).0.runtimes;
            runtimes == t.runtimes || runtimes == EnsureStep(cfg, t.runtimes, j.node, env.ensure).0
  {
  }

  // ---------------------------------------------------------------- stages under whole other calls

  lemma RuntimeStage(cfg: Config, t: Tables, s: Step, k: WorkspaceKey, plan: Plan)
    requires Sound(t) && StageSound(t, k, HasRuntime(plan)) && (s.Attach? ==> s.k != k)
    ensures StageSound(Next(cfg, t, s), k, HasRuntime(plan)) <==> !Disturbs(cfg, t, s, k, HasRuntime(plan))
  {
    var t' := Next(cfg, t, s);
    if ActiveLease(t.leases, k) {
      LeaseAfter(cfg, t, s, k);
      if LeaseFits(t, k, plan) {
        GroundAfter(cfg, t, s, k, plan.req.workspaceIp);
      }
    } else if ActiveLease(t'.leases, k) {
      NewLease(cfg, t, s, k);
    }
  }

  lemma LeaseStage(cfg: Config, t: Tables, s: Step, k: WorkspaceKey, plan: Plan)
    requires Sound(t) && StageSound(t, k, HasLease(plan)) && (s.Attach? ==> s.k != k)
    ensures StageSound(Next(cfg, t, s), k, HasLease(plan)) <==> !Disturbs(cfg, t, s, k, HasLease(plan))
  {
    GroundAfter(cfg, t, s, k, plan.req.workspaceIp);
  }

  /** Clearing the container is undone by the update exactly if the update writes the column. */
  lemma CoversDetached(plan: Plan, seen: Attachment, stored: Attachment, now: int)
    requires plan.Sound() && Covers(plan, seen, stored)
    ensures Covers(plan, seen, DetachedRow(stored, now)) <==> seen.containerId != plan.Container()
  {
  }

  lemma CoversAfter(cfg: Config, t: Tables, s: Step, k: WorkspaceKey, plan: Plan, seen: Attachment)
    requires plan.Sound() && k in t.attachments && Covers(plan, seen, t.attachments[k]) && (s.Attach? ==> s.k != k)
    requires k in Next(cfg, t, s).attachments
    ensures Covers(plan, seen, Next(cfg, t, s).attachments[k])
            <==> !(seen.containerId == plan.Container() && DetachesRow(cfg, t, s, k))
  {
    RowAfter(cfg, t, s, k);
    CoversDetached(plan, seen, t.attachments[k], Next(cfg, t, s).attachments[k].updatedAt);
  }

  lemma RowStage(cfg: Config, t: Tables, s: Step, k: WorkspaceKey, plan: Plan, seen: Option<Attachment>)
    requires Sound(t) && StageSound(t, k, HasRow(plan, seen)) && (s.Attach? ==> s.k != k)
    ensures StageSound(Next(cfg, t, s), k, HasRow(plan, seen)) <==> !Disturbs(cfg, t, s, k, HasRow(plan, seen))
  {
    RowAfter(cfg, t, s, k);
    if CommitFits(t, k, seen) {
      GroundAfter(cfg, t, s, k, plan.req.workspaceIp);
      if seen.Some? && k in Next(cfg, t, s).attachments {
        CoversAfter(cfg, t, s, k, plan, seen.value);
      }
    }
  }

  lemma BegunStage(cfg: Config, t: Tables, s: Step, k: WorkspaceKey, stage: Stage)
    requires Sound(t) && stage.Begun? && StageSound(t, k, stage) && (s.Attach? ==> s.k != k)
    ensures StageSound(Next(cfg, t, s), k, stage) <==> !Disturbs(cfg, t, s, k, stage)
  {
    RowAfter(cfg, t, s, k);
    if k in t.attachments {
      GroundAfter(cfg, t, s, k, t.leases[k].ip);
      LeaseAfter(cfg, t, s, k);
    }
  }

  /** At every stage, a whole other call leaves an attach what it relies on exactly when it does not disturb it. */
  lemma DisturbsExactly(cfg: Config, t: Tables, s: Step, k: WorkspaceKey, stage: Stage)
    requires Sound(t) && StageSound(t, k, stage) && (s.Attach? ==> s.k != k)
    ensures StageSound(Next(cfg, t, s), k, stage) <==> !Disturbs(cfg, t, s, k, stage)
  {
    match stage
    case HasRuntime(plan) => RuntimeStage(cfg, t, s, k, plan);
    case HasLease(plan) => LeaseStage(cfg, t, s, k, plan);
    case HasRow(plan, seen) => RowStage(cfg, t, s, k, plan, seen);
    case Begun(_, _) => BegunStage(cfg, t, s, k, stage);
    case Verifying(_, _) =>
  }

  // ---------------------------------------------------------------- stages under the steps of attach calls

  /** A row that is not ATTACHED, or is sound, keeps the tables sound. */
  lemma RowIsSoundExactly(t: Tables, k: WorkspaceKey, row: Attachment)
    requires Sound(t)
    ensures Sound(WithRow(t, k, row)) <==> (row.status.Attached? ==> AttachmentSound(WithRow(t, k, row), k))
  {
    var t' := WithRow(t, k, row);
    forall j | j in t'.attachments && j != k && t'.attachments[j].status.Attached? ensures AttachmentSound(t', j) {
      assert AttachmentSound(t, j);
    }
  }

  lemma UndoneIsSoundExactly(t: Tables, k: WorkspaceKey, ip: nat, marks: bool, releases: bool, now: int)
    requires Sound(t)
    ensures Sound(Undone(t, k, ip, marks, releases, now))
            <==> !(IsAttached(t, k) && !marks && releases && ActiveLease(t.leases, k) && t.leases[k].ip == ip)
  {
    var t' := Undone(t, k, ip, marks, releases, now);
    ReleaseKeepsConstraints(t, k);
    forall j | j in t.attachments && j != k && t.attachments[j].status.Attached? ensures AttachmentSound(t', j) {
      assert AttachmentSound(t, j);
    }
    if IsAttached(t, k) {
      assert AttachmentSound(t, k);
    }
    assert IsAttached(t', k) ==> (AttachmentSound(t', k) <==> ActiveLease(t'.leases, k));
  }

  /** The step of one call leaves the row and the lease of every other workspace, and all runtimes, alone. */
  lemma OwnRowOnly(cfg: Config, st: State, s: RaceStep, j: WorkspaceKey)
    requires Enabled(st, s) && !s.Serial? && s.k != j
    ensures var t' := RaceNext(cfg, st, s).t;
            && t'.runtimes == st.t.runtimes && StoredRow(t', j) == StoredRow(st.t, j)
            && (j in t'.leases <==> j in st.t.leases) && (j in t'.leases ==> t'.leases[j] == st.t.leases[j])
  {
  }

  lemma OthersStay(t: Tables, t': Tables, j: WorkspaceKey, stage: Stage)
    requires StageSound(t, j, stage) && t'.runtimes == t.runtimes && StoredRow(t', j) == StoredRow(t, j)
    requires (j in t'.leases <==> j in t.leases) && (j in t'.leases ==> t'.leases[j] == t.leases[j])
    ensures StageSound(t', j, stage)
  {
    assert j in t'.attachments <==> StoredRow(t', j).Some?;
    assert j in t.attachments <==> StoredRow(t, j).Some?;
  }
}
