/** Attach calls whose reads and commits interleave with each other, with whole other calls and with the janitor. */
module AttachRace {
  import opened Wrappers
  import opened Text
  import opened TopologyTables
  import opened TopologySteps
  import opened JanitorSteps
  import opened TopologyRuns
  import opened AttachSteps
  import opened AttachStages

  /** A late clean-up frees the lease of a row that is ATTACHED and stays so. */
  predicate Strands(st: State, s: RaceStep)
    requires Enabled(st, s)
  {
    && s.End? && IsAttached(st.t, s.k) && !s.marks && s.releases
    && ActiveLease(st.t.leases, s.k) && st.t.leases[s.k].ip == st.calls[s.k].ip
  }

  lemma ReadStaysSound(cfg: Config, st: State, s: RaceStep)
    requires Enabled(st, s) && (s.ReadRuntime? || s.ReadLease? || s.ReadRow?) && Sound(st.t)
    requires s.k in st.calls ==> StageSound(st.t, s.k, st.calls[s.k])
    ensures var st' := RaceNext(cfg, st, s);
            st'.t == st.t && (s.k in st'.calls ==> StageSound(st'.t, s.k, st'.calls[s.k]))
  {
  }

  lemma BeginStaysSound(cfg: Config, st: State, s: RaceStep)
    requires Enabled(st, s) && s.Begin? && Sound(st.t) && StageSound(st.t, s.k, st.calls[s.k])
    ensures var st' := RaceNext(cfg, st, s);
            Sound(st'.t) && (s.k in st'.calls ==> StageSound(st'.t, s.k, st'.calls[s.k]))
  {
    var (plan, seen) := (st.calls[s.k].plan, st.calls[s.k].seen);
    if CommitFits(st.t, s.k, seen) {
      RowIsSoundExactly(st.t, s.k, FirstRow(st.t, s.k, plan, seen, s.now));
    }
  }

  /** The steps of a call keep the tables and its own stage sound. */
  lemma OwnStepSound(cfg: Config, st: State, s: RaceStep)
    requires Enabled(st, s) && !s.Serial? && Sound(st.t) && !Strands(st, s)
    requires s.k in st.calls ==> StageSound(st.t, s.k, st.calls[s.k])
    ensures var st' := RaceNext(cfg, st, s);
            Sound(st'.t) && (s.k in st'.calls ==> StageSound(st'.t, s.k, st'.calls[s.k]))
  {
    match s
    case Begin(_, _, _) => BeginStaysSound(cfg, st, s);
    case Finish(k, now) => RowIsSoundExactly(st.t, k, st.t.attachments[k].(status := Attached, updatedAt := now));
    case End(k, marks, releases, now) => UndoneIsSoundExactly(st.t, k, st.calls[k].ip, marks, releases, now);
    case _ => ReadStaysSound(cfg, st, s);
  }

  // ---------------------------------------------------------------- one call in between

  function Remaining(st: State, k: WorkspaceKey): nat {
    if k !in st.calls then 0
    else
      match st.calls[k]
      case HasRuntime(_) => 4
      case HasLease(_) => 3
      case HasRow(_, _) => 2
      case Begun(_, _) => 1
      case Verifying(_, _) => 0
  }

  /** The next step of a call that nothing fails. */
  function NextStep(st: State, k: WorkspaceKey, now: int): (s: RaceStep)
    requires Remaining(st, k) > 1
    ensures Enabled(st, s)
  {
    match st.calls[k]
    case HasRuntime(_) => ReadLease(k)
    case HasLease(_) => ReadRow(k, Mismatch)
    case HasRow(_, _) => Begin(k, true, now)
  }

  /** The call goes on undisturbed, up to its second commit if nothing refuses it before. */
  function Finished(cfg: Config, st: State, k: WorkspaceKey, now: int): State
    decreases Remaining(st, k)
  {
    if Remaining(st, k) == 0 then st
    else if st.calls[k].Begun? then if k in st.t.attachments then RaceNext(cfg, st, Finish(k, now)) else st
    else Finished(cfg, RaceNext(cfg, st, NextStep(st, k, now)), k, now)
  }

  lemma {:induction false} FinishedIsSound(cfg: Config, st: State, k: WorkspaceKey, now: int)
    requires Sound(st.t) && (k in st.calls ==> StageSound(st.t, k, st.calls[k]))
    ensures Sound(Finished(cfg, st, k, now).t)
    decreases Remaining(st, k)
  {
    if Remaining(st, k) == 1 {
      if k in st.t.attachments {
        OwnStepSound(cfg, st, Finish(k, now));
      }
    } else if Remaining(st, k) > 1 {
      OwnStepSound(cfg, st, NextStep(st, k, now));
      FinishedIsSound(cfg, RaceNext(cfg, st, NextStep(st, k, now)), k, now);
    }
  }

  lemma BegunFails(cfg: Config, st: State, k: WorkspaceKey, now: int)
    requires Sound(st.t) && k in st.calls && st.calls[k].Begun? && k in st.t.attachments && !AttachmentSound(st.t, k)
    ensures !Sound(Finished(cfg, st, k, now).t)
  {
    RowIsSoundExactly(st.t, k, st.t.attachments[k].(status := Attached, updatedAt := now));
  }

  /** A first commit without its ground, or one that leaves the row without a container, ends in an unsound row. */
  lemma RowFails(cfg: Config, st: State, k: WorkspaceKey, now: int)
    requires Sound(st.t) && k in st.calls && st.calls[k].HasRow? && CommitFits(st.t, k, st.calls[k].seen)
    requires var row := FirstRow(st.t, k, st.calls[k].plan, st.calls[k].seen, now);
             var ip := st.calls[k].plan.req.workspaceIp;
             !row.status.Attached? && row.workspaceIp == Addr(ip) && (row.containerId == "" || !Ground(st.t, k, ip))
    ensures !Sound(Finished(cfg, st, k, now).t)
  {
    var row := FirstRow(st.t, k, st.calls[k].plan, st.calls[k].seen, now);
    RowIsSoundExactly(st.t, k, row);
    BegunFails(cfg, RaceNext(cfg, st, Begin(k, true, now)), k, now);
  }

  lemma LeaseFails(cfg: Config, st: State, k: WorkspaceKey, now: int)
    requires Sound(st.t) && k in st.calls && st.calls[k].HasLease? && st.calls[k].plan.Sound()
    requires !Ground(st.t, k, st.calls[k].plan.req.workspaceIp)
    ensures !Sound(Finished(cfg, st, k, now).t)
  {
    if IsAttached(st.t, k) {
      assert AttachmentSound(st.t, k);
    }
    RowFails(cfg, RaceNext(cfg, st, ReadRow(k, Mismatch)), k, now);
  }

  lemma DisturbedBeforeRow(cfg: Config, st: State, s: Step, k: WorkspaceKey, now: int)
    requires RaceSound(st) && k in st.calls && Enabled(st, Serial(s)) && Sound(Next(cfg, st.t, s))
    requires (st.calls[k].HasRuntime? || st.calls[k].HasLease?) && Disturbs(cfg, st.t, s, k, st.calls[k])
    ensures !Sound(Finished(cfg, RaceNext(cfg, st, Serial(s)), k, now).t)
  {
    var st' := RaceNext(cfg, st, Serial(s));
    GroundAfter(cfg, st.t, s, k, st.calls[k].plan.req.workspaceIp);
    LeaseFails(cfg, if st.calls[k].HasLease? then st' else RaceNext(cfg, st', ReadLease(k)), k, now);
  }

  lemma DisturbedAfterRow(cfg: Config, st: State, s: Step, k: WorkspaceKey, now: int)
    requires RaceSound(st) && k in st.calls && Enabled(st, Serial(s)) && Sound(Next(cfg, st.t, s))
    requires st.calls[k].HasRow? && Disturbs(cfg, st.t, s, k, st.calls[k])
    ensures !Sound(Finished(cfg, RaceNext(cfg, st, Serial(s)), k, now).t)
  {
    var (plan, seen) := (st.calls[k].plan, st.calls[k].seen);
    RowAfter(cfg, st.t, s, k);
    GroundAfter(cfg, st.t, s, k, plan.req.workspaceIp);
    FirstRowAfter(cfg, st.t, s, k, plan, seen, now);
    RowFails(cfg, RaceNext(cfg, st, Serial(s)), k, now);
  }

  /** The row that the first commit of a disturbed call would leave. */
  lemma FirstRowAfter(
    cfg: Config, t: Tables, s: Step, k: WorkspaceKey, plan: Plan, seen: Option<Attachment>, now: int)
    requires StageSound(t, k, HasRow(plan, seen)) && Disturbs(cfg, t, s, k, HasRow(plan, seen))
    requires s.Attach? ==> s.k != k
    ensures CommitFits(Next(cfg, t, s), k, seen)
    ensures var row := FirstRow(Next(cfg, t, s), k, plan, seen, now);
            && !row.status.Attached? && row.workspaceIp == Addr(plan.req.workspaceIp)
            && (seen.Some? && seen.value.containerId == plan.Container() && DetachesRow(cfg, t, s, k) ==>
                  row.containerId == "")
  {
    RowAfter(cfg, t, s, k);
  }

  /** A disturbed call that goes on ends in an unsound row. */
  lemma DisturbedFails(cfg: Config, st: State, s: Step, k: WorkspaceKey, now: int)
    requires RaceSound(st) && k in st.calls && Enabled(st, Serial(s)) && Sound(Next(cfg, st.t, s))
    requires Disturbs(cfg, st.t, s, k, st.calls[k])
    ensures !Sound(Finished(cfg, RaceNext(cfg, st, Serial(s)), k, now).t)
  {
    match st.calls[k]
    case HasRow(_, _) => DisturbedAfterRow(cfg, st, s, k, now);
    case Begun(_, _) =>
      RowAfter(cfg, st.t, s, k);
      DisturbsExactly(cfg, st.t, s, k, st.calls[k]);
      BegunFails(cfg, RaceNext(cfg, st, Serial(s)), k, now);
    case _ => DisturbedBeforeRow(cfg, st, s, k, now);
  }

  /** So of a legal call that falls between two steps of an attach, wherever it falls, with the rest of the attach right
      behind it: the tables end sound if and only if the call does not disturb the attach. */
  lemma InterleavedCallExactly(cfg: Config, st: State, s: Step, k: WorkspaceKey, now: int)
    requires RaceSound(st) && k in st.calls && Enabled(st, Serial(s)) && Legal(cfg, st.t, s)
    ensures Sound(Finished(cfg, RaceNext(cfg, st, Serial(s)), k, now).t) <==> !Disturbs(cfg, st.t, s, k, st.calls[k])
  {
    NextKeepsSound(cfg, st.t, s);
    if Disturbs(cfg, st.t, s, k, st.calls[k]) {
      DisturbedFails(cfg, st, s, k, now);
    } else {
      DisturbsExactly(cfg, st.t, s, k, st.calls[k]);
      FinishedIsSound(cfg, RaceNext(cfg, st, Serial(s)), k, now);
    }
  }

  // ---------------------------------------------------------------- runs

  /** A legal whole call that disturbs no attach in progress, or a step of an attach that strands no row. */
  predicate Considerate(cfg: Config, st: State, s: RaceStep)
    requires Enabled(st, s)
  {
    if s.Serial? then
      Legal(cfg, st.t, s.s) && forall k :: k in st.calls ==> !Disturbs(cfg, st.t, s.s, k, st.calls[k])
    else !Strands(st, s)
  }

  predicate ConsiderateRun(cfg: Config, st: State, steps: seq<RaceStep>)
    requires IsRun(cfg, st, steps)
    decreases |steps|
  {
    steps == []
    || (Considerate(cfg, st, steps[0]) && ConsiderateRun(cfg, RaceNext(cfg, st, steps[0]), steps[1..]))
  }

  lemma StepStaysSound(cfg: Config, st: State, s: RaceStep)
    requires RaceSound(st) && Enabled(st, s) && Considerate(cfg, st, s)
    ensures RaceSound(RaceNext(cfg, st, s))
  {
    var st' := RaceNext(cfg, st, s);
    if s.Serial? {
      NextKeepsSound(cfg, st.t, s.s);
      forall k | k in st'.calls ensures StageSound(st'.t, k, st'.calls[k]) {
        DisturbsExactly(cfg, st.t, s.s, k, st.calls[k]);
      }
    } else {
      OwnStepSound(cfg, st, s);
      forall k | k in st'.calls && k != s.k ensures StageSound(st'.t, k, st'.calls[k]) {
        OwnRowOnly(cfg, st, s, k);
        OthersStay(st.t, st'.t, k, st.calls[k]);
      }
    }
  }

  /** However the reads and commits of attach calls interleave with each other and with whole calls, the tables stay
      sound as long as no call disturbs an attach in progress and no late clean-up strands a row. */
  lemma {:induction false} InterleavedRunsStaySound(cfg: Config, st: State, steps: seq<RaceStep>)
    requires RaceSound(st) && IsRun(cfg, st, steps) && ConsiderateRun(cfg, st, steps)
    ensures RaceSound(RaceRun(cfg, st, steps))
    decreases |steps|
  {
    if steps != [] {
      StepStaysSound(cfg, st, steps[0]);
      InterleavedRunsStaySound(cfg, RaceNext(cfg, st, steps[0]), steps[1..]);
    }
  }

  /** In particular from empty tables. */
  lemma RunsFromEmptyStaySound(cfg: Config, steps: seq<RaceStep>)
    requires IsRun(cfg, State(Tables(map[], map[], map[]), map[]), steps)
    requires ConsiderateRun(cfg, State(Tables(map[], map[], map[]), map[]), steps)
    ensures Sound(RaceRun(cfg, State(Tables(map[], map[], map[]), map[]), steps).t)
  {
    EmptyIsSound();
    InterleavedRunsStaySound(cfg, State(Tables(map[], map[], map[]), map[]), steps);
  }

  /** A delete between the reads and the first commit of a first attach is not blocked by any row yet, and leaves an
      ATTACHED row on a node without a runtime. */
  lemma DeleteInTheGap(cfg: Config, t: Tables, k: WorkspaceKey, req: AttachRequest, now: int)
    requires Sound(t) && Cleaned(req.container) != "" && Guard(t, k, req).None?
    requires k !in t.attachments && !Blocked(t.attachments, k.node)
    ensures var prior := [ReadRuntime(k, req), ReadLease(k), ReadRow(k, Clean)];
            var steps := prior + [Serial(Delete(k.node, DeleteEnv(true, true))), Begin(k, true, now), Finish(k, now)];
            && IsRun(cfg, State(t, map[]), steps)
            && var t' := RaceRun(cfg, State(t, map[]), steps).t; IsAttached(t', k) && k.node !in t'.runtimes
  {
    var r := t.runtimes[k.node];
    assert RuntimeSound(k.node, r);
    var plan := Plan(req, r.bridge, r.gateway, r.cidr.net);
    var writes := [Serial(Delete(k.node, DeleteEnv(true, true))), Begin(k, true, now), Finish(k, now)];
    ReadsOfCall(cfg, t, k, req, Clean);
    var st := State(t, map[k := HasRow(plan, None)]);
    GapSteps(cfg, st, k, now);
    RunCons(cfg, State(t, map[k := HasLease(plan)]), ReadRow(k, Clean), writes);
    var w1 := [ReadRow(k, Clean)] + writes;
    RunCons(cfg, State(t, map[k := HasRuntime(plan)]), ReadLease(k), w1);
    var w2 := [ReadLease(k)] + w1;
    RunCons(cfg, State(t, map[]), ReadRuntime(k, req), w2);
    assert [ReadRuntime(k, req), ReadLease(k), ReadRow(k, Clean)] + writes == [ReadRuntime(k, req)] + w2;
  }

  lemma GapSteps(cfg: Config, st: State, k: WorkspaceKey, now: int)
    requires k.node.nodeId != "" && k.node in st.t.runtimes && !Blocked(st.t.attachments, k.node)
    requires k !in st.t.attachments && k in st.calls && st.calls[k].HasRow? && st.calls[k].seen.None?
    ensures var steps := [Serial(Delete(k.node, DeleteEnv(true, true))), Begin(k, true, now), Finish(k, now)];
            && IsRun(cfg, st, steps)
            && var t' := RaceRun(cfg, st, steps).t; IsAttached(t', k) && k.node !in t'.runtimes
  {
    var first := Serial(Delete(k.node, DeleteEnv(true, true)));
    var st1 := RaceNext(cfg, st, first);
    var st2 := RaceNext(cfg, st1, Begin(k, true, now));
    OneStepRun(cfg, st2, Finish(k, now));
    RunCons(cfg, st1, Begin(k, true, now), [Finish(k, now)]);
    var w := [Begin(k, true, now)] + [Finish(k, now)];
    RunCons(cfg, st, first, w);
    assert [first, Begin(k, true, now), Finish(k, now)] == [first] + w;
  }
}
