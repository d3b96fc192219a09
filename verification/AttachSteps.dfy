/** Attach calls taken apart into their reads and commits. */
module AttachSteps {
  import opened Wrappers
  import opened Ipv4
  import opened Text
  import opened TopologyTables
  import opened TopologySteps
  import opened TopologyRuns

  /** What a call keeps of its request and of the runtime row it read. */
  datatype Plan = Plan(req: AttachRequest, bridge: string, gateway: AddrField, net: Network) {
    function Container(): string { Cleaned(req.container) }

    predicate Sound() { Container() != "" && bridge != "" && !gateway.NoAddr? }

    /** The row the first commit wants. */
    function Wanted(now: int): Attachment {
      Attachment(Attaching, Container(), Addr(req.workspaceIp), bridge, gateway, now)
    }
  }

  /** Where a call stands: it has read the runtime, the lease too, its row too, or committed ATTACHING, or ATTACHED. */
  datatype Stage =
    | HasRuntime(plan: Plan)
    | HasLease(plan: Plan)
    | HasRow(plan: Plan, seen: Option<Attachment>)
    | Begun(ip: nat, isNew: bool)
    | Verifying(ip: nat, isNew: bool)

  /** The tables, and the attach calls in progress, one for a workspace at a time. */
  datatype State = State(t: Tables, calls: map<WorkspaceKey, Stage>)

  /** The three reads and the two commits of a call, its end after the first commit, with the clean-up writes that
      succeed, or a whole other call. */
  datatype RaceStep =
    | ReadRuntime(k: WorkspaceKey, req: AttachRequest)
    | ReadLease(k: WorkspaceKey)
    | ReadRow(k: WorkspaceKey, fastVerify: Verification)
    | Begin(k: WorkspaceKey, commits: bool, now: int)
    | Finish(k: WorkspaceKey, now: int)
    | End(k: WorkspaceKey, marks: bool, releases: bool, now: int)
    | Serial(s: Step)

  predicate LeaseFits(t: Tables, k: WorkspaceKey, plan: Plan) {
    ActiveLease(t.leases, k) && t.leases[k].ip == plan.req.workspaceIp && plan.net.Contains(plan.req.workspaceIp)
  }

  function StoredRow(t: Tables, k: WorkspaceKey): Option<Attachment> {
    if k in t.attachments then Some(t.attachments[k]) else None
  }

  /** An insert needs that there is no row, and an update that the row is still there. */
  predicate CommitFits(t: Tables, k: WorkspaceKey, seen: Option<Attachment>) {
    seen.Some? <==> k in t.attachments
  }

  /** An update writes the columns that differ from what was read. */
  function Column<T(==)>(seen: T, wanted: T, stored: T): T {
    if seen == wanted then stored else wanted
  }

  function Updated(seen: Attachment, wanted: Attachment, stored: Attachment): Attachment {
    Attachment(
      Column(seen.status, wanted.status, stored.status),
      Column(seen.containerId, wanted.containerId, stored.containerId),
      Column(seen.workspaceIp, wanted.workspaceIp, stored.workspaceIp),
      Column(seen.bridge, wanted.bridge, stored.bridge),
      Column(seen.gateway, wanted.gateway, stored.gateway),
      Column(seen.updatedAt, wanted.updatedAt, stored.updatedAt))
  }

  function FirstRow(t: Tables, k: WorkspaceKey, plan: Plan, seen: Option<Attachment>, now: int): Attachment
    requires CommitFits(t, k, seen)
  {
    match seen
    case None => plan.Wanted(now)
    case Some(row) => Updated(row, plan.Wanted(now), t.attachments[k])
  }

  function WithRow(t: Tables, k: WorkspaceKey, row: Attachment): Tables {
    t.(attachments := t.attachments[k := row])
  }

  /** Later commits write the status and the time of the row, and nothing else. */
  function Marked(t: Tables, k: WorkspaceKey, status: AttachmentStatus, now: int): Tables
    requires k in t.attachments
  {
    WithRow(t, k, t.attachments[k].(status := status, updatedAt := now))
  }

  /** The FAILED write and the release of the lease, each if it succeeds. */
  function Undone(t: Tables, k: WorkspaceKey, ip: nat, marks: bool, releases: bool, now: int): Tables {
    var t1 := if marks && k in t.attachments then Marked(t, k, Failed, now) else t;
    if releases && ActiveLease(t.leases, k) && t.leases[k].ip == ip then t1.(leases := Released(t.leases, k)) else t1
  }

  predicate Enabled(st: State, s: RaceStep) {
    match s
    case ReadRuntime(k, req) =>
      && k !in st.calls && Cleaned(req.container) != "" && req.netnsOk
      && k.node in st.t.runtimes && st.t.runtimes[k.node].status.Ready? && st.t.runtimes[k.node].Complete()
      && st.t.runtimes[k.node].cidr.Cidr?
    case ReadLease(k) => k in st.calls && st.calls[k].HasRuntime?
    case ReadRow(k, _) => k in st.calls && st.calls[k].HasLease?
    case Begin(k, _, _) => k in st.calls && st.calls[k].HasRow?
    case Finish(k, _) => k in st.calls && st.calls[k].Begun? && k in st.t.attachments
    case End(k, _, releases, _) =>
      k in st.calls && (st.calls[k].Begun? || st.calls[k].Verifying?) && (releases ==> st.calls[k].isNew)
    case Serial(s) => s.Attach? ==> s.k !in st.calls
  }

  function RaceNext(cfg: Config, st: State, s: RaceStep): State
    requires Enabled(st, s)
  {
    match s
    case ReadRuntime(k, req) =>
      var r := st.t.runtimes[k.node];
      st.(calls := st.calls[k := HasRuntime(Plan(req, r.bridge, r.gateway, r.cidr.net))])
    case ReadLease(k) =>
      var plan := st.calls[k].plan;
      st.(calls := if LeaseFits(st.t, k, plan) then st.calls[k := HasLease(plan)] else st.calls - {k})
    case ReadRow(k, fastVerify) =>
      var plan := st.calls[k].plan;
      var fast := EarlyEligible(st.t, k, plan.req) && (cfg.linuxAttachment ==> !fastVerify.Mismatch?);
      st.(calls := if fast then st.calls - {k} else st.calls[k := HasRow(plan, StoredRow(st.t, k))])
    case Begin(k, commits, now) =>
      var (plan, seen) := (st.calls[k].plan, st.calls[k].seen);
      if commits && CommitFits(st.t, k, seen) then
        State(WithRow(st.t, k, FirstRow(st.t, k, plan, seen, now)),
              st.calls[k := Begun(plan.req.workspaceIp, seen.None?)])
      else st.(calls := st.calls - {k})
    case Finish(k, now) =>
      State(Marked(st.t, k, Attached, now), st.calls[k := Verifying(st.calls[k].ip, st.calls[k].isNew)])
    case End(k, marks, releases, now) =>
      State(Undone(st.t, k, st.calls[k].ip, marks, releases, now), st.calls - {k})
    case Serial(s) => st.(t := Next(cfg, st.t, s))
  }

  // ---------------------------------------------------------------- runs

  predicate IsRun(cfg: Config, st: State, steps: seq<RaceStep>)
    decreases |steps|
  {
    steps == [] || (Enabled(st, steps[0]) && IsRun(cfg, RaceNext(cfg, st, steps[0]), steps[1..]))
  }

  function RaceRun(cfg: Config, st: State, steps: seq<RaceStep>): State
    requires IsRun(cfg, st, steps)
    decreases |steps|
  {
    if steps == [] then st else RaceRun(cfg, RaceNext(cfg, st, steps[0]), steps[1..])
  }

  // ---------------------------------------------------------------- whole calls

  /** The steps of an attach call with these replies, if nothing comes in between. */
  function CallSteps(cfg: Config, t: Tables, k: WorkspaceKey, req: AttachRequest, env: AttachEnv): seq<RaceStep> {
    if Cleaned(req.container) == "" then []
    else if !CommitsAttaching(cfg, t, k, req, env) then [Serial(Ensure(k.node, env.ensure))]
    else
      [Serial(Ensure(k.node, env.ensure)), ReadRuntime(k, req), ReadLease(k), ReadRow(k, env.fastVerify)]
      + WritingSteps(cfg, t, k, env)
  }

  function WritingSteps(cfg: Config, t: Tables, k: WorkspaceKey, env: AttachEnv): seq<RaceStep> {
    var cleanUp := End(k, env.failedCommits, k !in t.attachments && env.releaseCommits, env.now);
    var leave := End(k, false, false, env.now);
    if EscapesWiring(cfg, env) then [Begin(k, true, env.now), leave]
    else if FailsBeforeAttached(cfg, env) then [Begin(k, true, env.now), cleanUp]
    else
      [Begin(k, true, env.now), Finish(k, env.now), if FailsAfterAttached(cfg, env) then cleanUp else leave]
  }

  lemma RunCons(cfg: Config, st: State, s: RaceStep, rest: seq<RaceStep>)
    requires Enabled(st, s) && IsRun(cfg, RaceNext(cfg, st, s), rest)
    ensures IsRun(cfg, st, [s] + rest)
    ensures RaceRun(cfg, st, [s] + rest) == RaceRun(cfg, RaceNext(cfg, st, s), rest)
  {
    assert ([s] + rest)[1..] == rest;
  }

  /** The reads of a call, one after the other, leave it with its row read. */
  lemma ReadsOfCall(cfg: Config, t: Tables, k: WorkspaceKey, req: AttachRequest, fastVerify: Verification)
    requires Cleaned(req.container) != "" && Guard(t, k, req).None?
    requires !(EarlyEligible(t, k, req) && (cfg.linuxAttachment ==> !fastVerify.Mismatch?))
    ensures var r := t.runtimes[k.node];
            var plan := Plan(req, r.bridge, r.gateway, r.cidr.net);
            && Enabled(State(t, map[]), ReadRuntime(k, req))
            && RaceNext(cfg, State(t, map[]), ReadRuntime(k, req)) == State(t, map[k := HasRuntime(plan)])
            && RaceNext(cfg, State(t, map[k := HasRuntime(plan)]), ReadLease(k)) == State(t, map[k := HasLease(plan)])
            && RaceNext(cfg, State(t, map[k := HasLease(plan)]), ReadRow(k, fastVerify))
               == State(t, map[k := HasRow(plan, StoredRow(t, k))])
  {
  }

  /** The tables that a call ends with, from the point where it has read its row. */
  function WrittenTables(cfg: Config, t: Tables, k: WorkspaceKey, req: AttachRequest, env: AttachEnv): Tables
    requires k.node in t.runtimes
  {
    var path := WiredPath(cfg, env);
    t.(attachments := t.attachments[k := AttachmentRow(t, k, req, FinalStatus(path, env), env.now)],
       leases := if GaveUp(path) && k !in t.attachments && env.releaseCommits then Released(t.leases, k) else t.leases)
  }

  lemma WritesOfCall(cfg: Config, t: Tables, k: WorkspaceKey, req: AttachRequest, env: AttachEnv)
    requires Guard(t, k, req).None?
    ensures var r := t.runtimes[k.node];
            var st := State(t, map[k := HasRow(Plan(req, r.bridge, r.gateway, r.cidr.net), StoredRow(t, k))]);
            var steps := WritingSteps(cfg, t, k, env);
            IsRun(cfg, st, steps) && RaceRun(cfg, st, steps) == State(WrittenTables(cfg, t, k, req, env), map[])
  {
    var r := t.runtimes[k.node];
    var st := State(t, map[k := HasRow(Plan(req, r.bridge, r.gateway, r.cidr.net), StoredRow(t, k))]);
    var steps := WritingSteps(cfg, t, k, env);
    var st1 := RaceNext(cfg, st, steps[0]);
    assert st1 == State(WithRow(t, k, AttachmentRow(t, k, req, Attaching, env.now)),
                        map[k := Begun(req.workspaceIp, k !in t.attachments)]);
    TailOfCall(cfg, t, k, req, env);
    RunCons(cfg, st, steps[0], steps[1..]);
    assert steps == [steps[0]] + steps[1..];
  }

  lemma OneStepRun(cfg: Config, st: State, s: RaceStep)
    requires Enabled(st, s)
    ensures IsRun(cfg, st, [s]) && RaceRun(cfg, st, [s]) == RaceNext(cfg, st, s)
  {
    assert [s][1..] == [];
  }

  /** The end of a call whose row has been written by it before. */
  lemma EndOfCall(
    cfg: Config, t: Tables, k: WorkspaceKey, row: Attachment, stage: Stage, marks: bool, releases: bool, now: int)
    requires (stage.Begun? || stage.Verifying?) && (releases ==> stage.isNew) && row.updatedAt == now
    requires ActiveLease(t.leases, k) && t.leases[k].ip == stage.ip
    ensures var st := State(WithRow(t, k, row), map[k := stage]);
            && Enabled(st, End(k, marks, releases, now))
            && RaceNext(cfg, st, End(k, marks, releases, now))
               == State(t.(attachments := t.attachments[k := if marks then row.(status := Failed) else row],
                           leases := if releases then Released(t.leases, k) else t.leases), map[])
  {
    assert t.attachments[k := row][k := row.(status := Failed)] == t.attachments[k := row.(status := Failed)];
  }

  lemma TailOfCall(cfg: Config, t: Tables, k: WorkspaceKey, req: AttachRequest, env: AttachEnv)
    requires Guard(t, k, req).None?
    ensures var st := State(WithRow(t, k, AttachmentRow(t, k, req, Attaching, env.now)),
                            map[k := Begun(req.workspaceIp, k !in t.attachments)]);
            var steps := WritingSteps(cfg, t, k, env)[1..];
            IsRun(cfg, st, steps) && RaceRun(cfg, st, steps) == State(WrittenTables(cfg, t, k, req, env), map[])
  {
    if EscapesWiring(cfg, env) || FailsBeforeAttached(cfg, env) {
      ShortTail(cfg, t, k, req, env);
    } else {
      LongTail(cfg, t, k, req, env);
    }
  }

  lemma ShortTail(cfg: Config, t: Tables, k: WorkspaceKey, req: AttachRequest, env: AttachEnv)
    requires Guard(t, k, req).None? && (EscapesWiring(cfg, env) || FailsBeforeAttached(cfg, env))
    ensures var st := State(WithRow(t, k, AttachmentRow(t, k, req, Attaching, env.now)),
                            map[k := Begun(req.workspaceIp, k !in t.attachments)]);
            var steps := WritingSteps(cfg, t, k, env)[1..];
            IsRun(cfg, st, steps) && RaceRun(cfg, st, steps) == State(WrittenTables(cfg, t, k, req, env), map[])
  {
    var row, begun := AttachmentRow(t, k, req, Attaching, env.now), Begun(req.workspaceIp, k !in t.attachments);
    var last := WritingSteps(cfg, t, k, env)[1];
    EndOfCall(cfg, t, k, row, begun, last.marks, last.releases, env.now);
    OneStepRun(cfg, State(WithRow(t, k, row), map[k := begun]), last);
    assert WritingSteps(cfg, t, k, env)[1..] == [last];
  }

  lemma LongTail(cfg: Config, t: Tables, k: WorkspaceKey, req: AttachRequest, env: AttachEnv)
    requires Guard(t, k, req).None? && !EscapesWiring(cfg, env) && !FailsBeforeAttached(cfg, env)
    ensures var st := State(WithRow(t, k, AttachmentRow(t, k, req, Attaching, env.now)),
                            map[k := Begun(req.workspaceIp, k !in t.attachments)]);
            var steps := WritingSteps(cfg, t, k, env)[1..];
            IsRun(cfg, st, steps) && RaceRun(cfg, st, steps) == State(WrittenTables(cfg, t, k, req, env), map[])
  {
    var last := WritingSteps(cfg, t, k, env)[2];
    FinishAndEnd(cfg, t, k, AttachmentRow(t, k, req, Attaching, env.now), req.workspaceIp, k !in t.attachments, last);
    assert WritingSteps(cfg, t, k, env)[1..] == [Finish(k, env.now)] + [last];
  }

  lemma FinishAndEnd(cfg: Config, t: Tables, k: WorkspaceKey, row: Attachment, ip: nat, isNew: bool, last: RaceStep)
    requires ActiveLease(t.leases, k) && t.leases[k].ip == ip
    requires last.End? && last.k == k && (last.releases ==> isNew) && last.now == row.updatedAt
    ensures var st := State(WithRow(t, k, row), map[k := Begun(ip, isNew)]);
            && IsRun(cfg, st, [Finish(k, last.now)] + [last])
            && RaceRun(cfg, st, [Finish(k, last.now)] + [last])
               == State(t.(attachments := t.attachments[k := row.(status := if last.marks then Failed else Attached)],
                           leases := if last.releases then Released(t.leases, k) else t.leases), map[])
  {
    var attached, verifying := row.(status := Attached), Verifying(ip, isNew);
    FinishOfCall(cfg, t, k, row, ip, isNew);
    EndOfCall(cfg, t, k, attached, verifying, last.marks, last.releases, last.now);
    OneStepRun(cfg, State(WithRow(t, k, attached), map[k := verifying]), last);
    RunCons(cfg, State(WithRow(t, k, row), map[k := Begun(ip, isNew)]), Finish(k, last.now), [last]);
  }

  lemma FinishOfCall(cfg: Config, t: Tables, k: WorkspaceKey, row: Attachment, ip: nat, isNew: bool)
    ensures var st := State(WithRow(t, k, row), map[k := Begun(ip, isNew)]);
            && Enabled(st, Finish(k, row.updatedAt))
            && RaceNext(cfg, st, Finish(k, row.updatedAt))
               == State(WithRow(t, k, row.(status := Attached)), map[k := Verifying(ip, isNew)])
  {
    assert t.attachments[k := row][k := row.(status := Attached)] == t.attachments[k := row.(status := Attached)];
  }

  /** An attach call that nothing interrupts is its steps, one after the other. */
  lemma WholeCallIsItsSteps(cfg: Config, t: Tables, k: WorkspaceKey, req: AttachRequest, env: AttachEnv)
    ensures var steps := CallSteps(cfg, t, k, req, env);
            IsRun(cfg, State(t, map[]), steps)
            && RaceRun(cfg, State(t, map[]), steps) == State(AttachStep(cfg, t, k, req, env).0, map[])
  {
    var steps := CallSteps(cfg, t, k, req, env);
    var t1 := t.(runtimes := EnsureStep(cfg, t.runtimes, k.node, env.ensure).0);
    if CommitsAttaching(cfg, t, k, req, env) {
      CommittedCall(cfg, t, k, req, env);
    } else if steps != [] {
      assert steps[1..] == [];
      assert AttachStep(cfg, t, k, req, env).0 == t1;
    }
  }

  lemma CommittedCall(cfg: Config, t: Tables, k: WorkspaceKey, req: AttachRequest, env: AttachEnv)
    requires CommitsAttaching(cfg, t, k, req, env)
    ensures var steps := CallSteps(cfg, t, k, req, env);
            IsRun(cfg, State(t, map[]), steps)
            && RaceRun(cfg, State(t, map[]), steps) == State(AttachStep(cfg, t, k, req, env).0, map[])
  {
    var t1 := t.(runtimes := EnsureStep(cfg, t.runtimes, k.node, env.ensure).0);
    CommittedTables(cfg, t, k, req, env);
    ReadsAndWrites(cfg, t1, k, req, env);
    var rest := [ReadRuntime(k, req), ReadLease(k), ReadRow(k, env.fastVerify)] + WritingSteps(cfg, t1, k, env);
    RunCons(cfg, State(t, map[]), Serial(Ensure(k.node, env.ensure)), rest);
    assert CallSteps(cfg, t, k, req, env) == [Serial(Ensure(k.node, env.ensure))] + rest;
  }

  lemma ReadsAndWrites(cfg: Config, t: Tables, k: WorkspaceKey, req: AttachRequest, env: AttachEnv)
    requires Cleaned(req.container) != "" && Guard(t, k, req).None?
    requires !(EarlyEligible(t, k, req) && (cfg.linuxAttachment ==> !env.fastVerify.Mismatch?))
    ensures var steps := [ReadRuntime(k, req), ReadLease(k), ReadRow(k, env.fastVerify)] + WritingSteps(cfg, t, k, env);
            IsRun(cfg, State(t, map[]), steps)
            && RaceRun(cfg, State(t, map[]), steps) == State(WrittenTables(cfg, t, k, req, env), map[])
  {
    var r := t.runtimes[k.node];
    var plan := Plan(req, r.bridge, r.gateway, r.cidr.net);
    var writes := WritingSteps(cfg, t, k, env);
    ReadsOfCall(cfg, t, k, req, env.fastVerify);
    WritesOfCall(cfg, t, k, req, env);
    RunCons(cfg, State(t, map[k := HasLease(plan)]), ReadRow(k, env.fastVerify), writes);
    var w1 := [ReadRow(k, env.fastVerify)] + writes;
    RunCons(cfg, State(t, map[k := HasRuntime(plan)]), ReadLease(k), w1);
    var w2 := [ReadLease(k)] + w1;
    RunCons(cfg, State(t, map[]), ReadRuntime(k, req), w2);
    assert [ReadRuntime(k, req), ReadLease(k), ReadRow(k, env.fastVerify)] + writes == [ReadRuntime(k, req)] + w2;
  }

  lemma CommittedTables(cfg: Config, t: Tables, k: WorkspaceKey, req: AttachRequest, env: AttachEnv)
    requires CommitsAttaching(cfg, t, k, req, env)
    ensures var t1 := t.(runtimes := EnsureStep(cfg, t.runtimes, k.node, env.ensure).0);
            Guard(t1, k, req).None? && AttachStep(cfg, t, k, req, env).0 == WrittenTables(cfg, t1, k, req, env)
  {
  }
}
