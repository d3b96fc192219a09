/** What a janitor run achieves, and that a second one finds nothing left to do. */
module JanitorTheorems {
  import opened TopologyTables
  import opened JanitorSteps

  /** Keys of the active leases of a node. */
  function ActiveKeys(leases: map<WorkspaceKey, Lease>, n: NodeKey): set<WorkspaceKey> {
    set k | k in leases && k.node == n && leases[k].active
  }

  /** Nothing on the node needs repair: no stale row, no active lease without an ATTACHED row, no ATTACHED row of a
      terminal workspace. */
  ghost predicate Repaired(t: Tables, n: NodeKey, env: JanitorEnv) {
    && StuckKeys(t, n, env.Cutoff()) == {}
    && (forall k :: k in ActiveKeys(t.leases, n) ==> IsAttached(t, k) && k.workspaceId !in env.terminal)
    && DriftKeys(t, n, env.terminal) == {}
  }

  lemma AfterStuckRepairs(t: Tables, n: NodeKey, env: JanitorEnv)
    requires env.stuckDetachFails == {}
    ensures StuckKeys(AfterStuck(t, n, env), n, env.Cutoff()) == {}
  {
    var stuck := StuckKeys(t, n, env.Cutoff());
    assert Except(stuck, env.stuckDetachFails) == stuck;
  }

  lemma AfterOrphansRepairs(t: Tables, n: NodeKey, env: JanitorEnv)
    requires env.orphanReleaseFails == {}
    ensures OrphanKeys(AfterOrphans(t, n, env), n) == {}
    ensures AfterOrphans(t, n, env).attachments == t.attachments
  {
    assert Except(OrphanKeys(t, n), env.orphanReleaseFails) == OrphanKeys(t, n);
    assert DetachedAll(t.attachments, {}, env.now) == t.attachments;
  }

  lemma AfterDriftRepairs(t: Tables, n: NodeKey, env: JanitorEnv)
    requires env.driftDetachFails == {} && env.driftReleaseFails == {}
    requires StuckKeys(t, n, env.Cutoff()) == {} && OrphanKeys(t, n) == {}
    ensures Repaired(AfterDrift(t, n, env), n, env)
  {
    var drift := DriftKeys(t, n, env.terminal);
    assert Except(drift, {}) == drift;
    var t' := AfterDrift(t, n, env);
    forall k | k in ActiveKeys(t'.leases, n) ensures IsAttached(t', k) && k.workspaceId !in env.terminal {
      assert k !in OrphanKeys(t, n);
    }
    forall k | k in t'.attachments && k.node == n ensures !IsStuck(t'.attachments[k], env.Cutoff()) {
      assert k !in StuckKeys(t, n, env.Cutoff());
    }
  }

  /** A fault-free run leaves nothing to repair. */
  lemma JanitorRepairs(t: Tables, n: NodeKey, env: JanitorEnv)
    requires env.FaultFree()
    ensures Repaired(JanitorStep(t, n, env).0, n, env)
  {
    AfterStuckRepairs(t, n, env);
    var t1 := AfterStuck(t, n, env);
    AfterOrphansRepairs(t1, n, env);
    AfterDriftRepairs(AfterOrphans(t1, n, env), n, env);
  }

  /** On repaired tables, whichever repairs would fail, a run changes nothing and reports zero counts; so a second run
      at the same clock does nothing. */
  lemma RepairedIsQuiet(t: Tables, n: NodeKey, env: JanitorEnv)
    requires Repaired(t, n, env)
    ensures JanitorStep(t, n, env) == (t, JanitorResult(0, 0, 0))
  {
    var none: set<WorkspaceKey> := {};
    SweepNothing(t, env.now);
    assert StuckKeys(t, n, env.Cutoff()) == none;
    assert forall fails :: Except(none, fails) == none;
    assert AfterStuck(t, n, env) == t;
    assert OrphanKeys(t, n) <= ActiveKeys(t.leases, n);
    assert OrphanKeys(t, n) == none;
    assert AfterOrphans(t, n, env) == t;
    assert DriftKeys(t, n, env.terminal) == none;
    assert AfterDrift(t, n, env) == t;
  }

  lemma SweepNothing(t: Tables, now: int)
    ensures Swept(t, {}, {}, now) == t
  {
    assert DetachedAll(t.attachments, {}, now) == t.attachments;
    assert ReleasedAll(t.leases, {}) == t.leases;
  }

  lemma SecondRunIsQuiet(t: Tables, n: NodeKey, env: JanitorEnv)
    requires env.FaultFree()
    ensures var t' := JanitorStep(t, n, env).0;
            JanitorStep(t', n, env) == (t', JanitorResult(0, 0, 0))
  {
    JanitorRepairs(t, n, env);
    RepairedIsQuiet(JanitorStep(t, n, env).0, n, env);
  }

  /** Whatever fails, a run touches no runtime, no other node, and no row or lease of an ATTACHED, live workspace. */
  lemma JanitorTouchesOnlyBroken(t: Tables, n: NodeKey, env: JanitorEnv, k: WorkspaceKey)
    requires k.node != n || (IsAttached(t, k) && k.workspaceId !in env.terminal)
    ensures var t' := JanitorStep(t, n, env).0;
            && t'.runtimes == t.runtimes
            && (k in t'.attachments <==> k in t.attachments) && (k in t'.leases <==> k in t.leases)
            && (k in t.attachments ==> t'.attachments[k] == t.attachments[k])
            && (k in t.leases ==> t'.leases[k] == t.leases[k])
  {
    var t1 := AfterStuck(t, n, env);
    assert k in t.attachments ==> k in t1.attachments && t1.attachments[k] == t.attachments[k];
    assert k in t.leases ==> k in t1.leases && t1.leases[k] == t.leases[k];
    var t2 := AfterOrphans(t1, n, env);
    assert k in t.attachments ==> k in t2.attachments && t2.attachments[k] == t.attachments[k];
    assert k in t.leases ==> k in t2.leases && t2.leases[k] == t.leases[k];
  }

  /** Leases freed by a sweep. */
  lemma SweepFrees(t: Tables, detach: set<WorkspaceKey>, release: set<WorkspaceKey>, n: NodeKey, now: int)
    ensures ActiveKeys(Swept(t, detach, release, now).leases, n) == ActiveKeys(t.leases, n) - release
  {
  }

  /** The counts account for every lease: those freed are the orphans counted, plus the active ones of the stale and
      of the drifted rows whose release went through. */
  lemma CountsAccountForLeases(t: Tables, n: NodeKey, env: JanitorEnv)
    ensures var (t', r) := JanitorStep(t, n, env);
            var stale := Except(Except(StuckKeys(t, n, env.Cutoff()), env.stuckDetachFails), env.stuckReleaseFails);
            var t2 := AfterOrphans(AfterStuck(t, n, env), n, env);
            var drift := Except(Except(DriftKeys(t2, n, env.terminal), env.driftDetachFails), env.driftReleaseFails);
            |ActiveKeys(t.leases, n)|
            == |ActiveKeys(t'.leases, n)| + r.orphans
               + |stale * ActiveKeys(t.leases, n)| + |drift * ActiveKeys(t2.leases, n)|
  {
    var detach := Except(StuckKeys(t, n, env.Cutoff()), env.stuckDetachFails);
    var stale := Except(detach, env.stuckReleaseFails);
    var t1 := AfterStuck(t, n, env);
    SweepFrees(t, detach, stale, n, env.now);
    SplitSize(ActiveKeys(t.leases, n), stale);
    var orphans := Except(OrphanKeys(t1, n), env.orphanReleaseFails);
    var t2 := AfterOrphans(t1, n, env);
    SweepFrees(t1, {}, orphans, n, env.now);
    SplitSize(ActiveKeys(t1.leases, n), orphans);
    assert orphans * ActiveKeys(t1.leases, n) == orphans;
    var detach3 := Except(DriftKeys(t2, n, env.terminal), env.driftDetachFails);
    var drift := Except(detach3, env.driftReleaseFails);
    SweepFrees(t2, detach3, drift, n, env.now);
    SplitSize(ActiveKeys(t2.leases, n), drift);
  }

  lemma SplitSize<T>(a: set<T>, b: set<T>)
    ensures |a| == |a - b| + |b * a|
  {
    assert a == (a - b) + (b * a);
  }
}
