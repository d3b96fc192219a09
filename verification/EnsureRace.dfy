/** Concurrent `ensure_node_topology` calls: their database transactions interleave freely. */
module EnsureRace {
  import opened Wrappers
  import opened Ipv4
  import opened TopologyTables
  import opened SubnetPool
  import opened TopologySteps
  import opened TopologyRuns

  /** Where a call stands: about to read, about to commit what it chose from the rows it read, or finished. */
  datatype Phase =
    | Reading(attempt: nat)
    | Writing(attempt: nat, seen: Option<Runtime>, net: Network, gateway: nat)
    | Stopped(ok: bool)

  datatype Call = Call(n: NodeKey, spec: Spec, phase: Phase)

  datatype State = State(runtimes: map<NodeKey, Runtime>, calls: map<nat, Call>)

  /** One step of one call, a bridge sync, or the deletion of a topology by someone else. */
  datatype RaceStep =
    | Start(c: nat, n: NodeKey, spec: Spec)
    | Read(c: nat)
    | Commit(c: nat)
    | CommitFails(c: nat)
    | Sync(n: NodeKey, status: RuntimeStatus)
    | Drop(n: NodeKey)

  function Advance(st: State, c: nat, phase: Phase): State
    requires c in st.calls
  {
    st.(calls := st.calls[c := st.calls[c].(phase := phase)])
  }

  function ReadStep(st: State, c: nat): State
    requires c in st.calls && st.calls[c].phase.Reading?
  {
    var call := st.calls[c];
    var existing := Stored(st.runtimes, call.n);
    if existing.Some? && existing.value.Complete() then Advance(st, c, Stopped(true))
    else if !call.spec.Plan? then Advance(st, c, Stopped(false))
    else
      match ChooseCidrAndGateway(st.runtimes, call.n, existing, call.spec, call.phase.attempt)
      case Raised(_) => Advance(st, c, Stopped(false))
      case Returned((net, gateway)) => Advance(st, c, Writing(call.phase.attempt, existing, net, gateway))
  }

  /** The row a commit leaves: an inserted one, or the stored one with the columns the call saw unset overwritten. */
  function WrittenRow(current: Option<Runtime>, seen: Option<Runtime>, spec: Spec, net: Network, gateway: nat): Runtime
    requires spec.Plan? && (seen.Some? ==> current.Some?)
  {
    match seen
    case None => FilledRow(None, spec, net, gateway)
    case Some(e) => current.value.(
        bridge := if e.bridge == "" then spec.bridge else current.value.bridge,
        cidr := if e.cidr.NoCidr? then Cidr(net) else current.value.cidr,
        gateway := if e.gateway.NoAddr? then Addr(gateway) else current.value.gateway)
  }

  function CommitStep(st: State, c: nat): State
    requires c in st.calls && st.calls[c].phase.Writing? && st.calls[c].spec.Plan?
  {
    var call := st.calls[c];
    var (n, phase) := (call.n, call.phase);
    var current := Stored(st.runtimes, n);
    if phase.seen.Some? && current.None? then Advance(st, c, Stopped(false))
    else
      var row := WrittenRow(current, phase.seen, call.spec, phase.net, phase.gateway);
      if (phase.seen.None? && current.Some?) || !CidrFree(st.runtimes, n, row.cidr) then
        Advance(st, c, if phase.attempt + 1 >= ENSURE_MAX_ATTEMPTS then Stopped(false) else Reading(phase.attempt + 1))
      else Advance(st.(runtimes := st.runtimes[n := row]), c, Stopped(true))
  }

  predicate Enabled(st: State, s: RaceStep) {
    match s
    case Start(c, _, _) => c !in st.calls
    case Read(c) => c in st.calls && st.calls[c].phase.Reading?
    case Commit(c) => c in st.calls && st.calls[c].phase.Writing? && st.calls[c].spec.Plan?
    case CommitFails(c) => c in st.calls && st.calls[c].phase.Writing?
    case Sync(n, _) => n in st.runtimes
    case Drop(n) => true
  }

  function RaceNext(st: State, s: RaceStep): State
    requires Enabled(st, s)
  {
    match s
    case Start(c, n, spec) => st.(calls := st.calls[c := Call(n, spec, Reading(0))])
    case Read(c) => ReadStep(st, c)
    case Commit(c) => CommitStep(st, c)
    case CommitFails(c) => Advance(st, c, Stopped(false))
    case Sync(n, status) => st.(runtimes := st.runtimes[n := st.runtimes[n].(status := status)])
    case Drop(n) => st.(runtimes := st.runtimes - {n})
  }

  predicate IsRun(st: State, steps: seq<RaceStep>)
    decreases |steps|
  {
    steps == [] || (Enabled(st, steps[0]) && IsRun(RaceNext(st, steps[0]), steps[1..]))
  }

  function RaceRun(st: State, steps: seq<RaceStep>): State
    requires IsRun(st, steps)
    decreases |steps|
  {
    if steps == [] then st else RaceRun(RaceNext(st, steps[0]), steps[1..])
  }

  lemma {:induction false} RunSnoc(st: State, steps: seq<RaceStep>, s: RaceStep)
    requires IsRun(st, steps) && Enabled(RaceRun(st, steps), s)
    ensures IsRun(st, steps + [s]) && RaceRun(st, steps + [s]) == RaceNext(RaceRun(st, steps), s)
    decreases |steps|
  {
    if steps == [] {
      assert steps + [s] == [s] && [s][1..] == [];
    } else {
      RunSnoc(RaceNext(st, steps[0]), steps[1..], s);
      assert (steps + [s])[1..] == steps[1..] + [s];
    }
  }

  // ---------------------------------------------------------------- pool topologies stay disjoint

  /** The rows and calls of a topology whose spec sets no CIDR: complete rows with distinct pool children. */
  ghost predicate Pooled(st: State, topologyId: int) {
    && (forall n :: n in st.runtimes && n.topologyId == topologyId ==>
          && RuntimeSound(n, st.runtimes[n]) && IsChild(st.runtimes[n].cidr.net)
          && CidrFree(st.runtimes, n, st.runtimes[n].cidr))
    && (forall c :: c in st.calls && st.calls[c].n.topologyId == topologyId ==>
          && st.calls[c].n.nodeId != "" && (st.calls[c].spec.Plan? ==> st.calls[c].spec.cidr.NoCidr?)
          && (st.calls[c].phase.Writing? ==>
                && st.calls[c].phase.seen.None? && IsChild(st.calls[c].phase.net)
                && st.calls[c].phase.net.Contains(st.calls[c].phase.gateway)))
  }

  /** New calls of the topology name a node, and find no CIDR in its spec. */
  predicate PoolStart(s: RaceStep, topologyId: int) {
    s.Start? && s.n.topologyId == topologyId ==> s.n.nodeId != "" && (s.spec.Plan? ==> s.spec.cidr.NoCidr?)
  }

  lemma ReadStaysPooled(st: State, c: nat, topologyId: int)
    requires Pooled(st, topologyId) && c in st.calls && st.calls[c].phase.Reading?
    ensures Pooled(ReadStep(st, c), topologyId)
  {
    var call := st.calls[c];
    var existing := Stored(st.runtimes, call.n);
    if call.n.topologyId == topologyId && existing.Some? {
      assert RuntimeSound(call.n, st.runtimes[call.n]);
    } else if call.n.topologyId == topologyId && ReadStep(st, c).calls[c].phase.Writing? {
      ChoiceIsSound(st.runtimes, call.n, existing, call.spec, call.phase.attempt);
    }
  }

  lemma CommitStaysPooled(st: State, c: nat, topologyId: int)
    requires Pooled(st, topologyId) && Enabled(st, Commit(c))
    ensures Pooled(CommitStep(st, c), topologyId)
  {
    var st' := CommitStep(st, c);
    var n := st.calls[c].n;
    if n.topologyId == topologyId {
      forall m | m in st'.runtimes && m.topologyId == topologyId
        ensures CidrFree(st'.runtimes, m, st'.runtimes[m].cidr)
      {
        if m != n {
          assert CidrFree(st.runtimes, m, st.runtimes[m].cidr);
        }
      }
    }
  }

  lemma StepStaysPooled(st: State, s: RaceStep, topologyId: int)
    requires Pooled(st, topologyId) && Enabled(st, s) && PoolStart(s, topologyId)
    ensures Pooled(RaceNext(st, s), topologyId)
  {
    match s
    case Read(c) => ReadStaysPooled(st, c, topologyId);
    case Commit(c) => CommitStaysPooled(st, c, topologyId);
    case _ =>
  }

  lemma {:induction false} RunStaysPooled(st: State, steps: seq<RaceStep>, topologyId: int)
    requires Pooled(st, topologyId) && IsRun(st, steps)
    requires forall s :: s in steps ==> PoolStart(s, topologyId)
    ensures Pooled(RaceRun(st, steps), topologyId)
    decreases |steps|
  {
    if steps != [] {
      StepStaysPooled(st, steps[0], topologyId);
      RunStaysPooled(RaceNext(st, steps[0]), steps[1..], topologyId);
    }
  }

  /** However concurrent ensure calls interleave, the CIDRs of a pool topology never overlap, although the database
      only rejects equal ones; and each gateway lies in its CIDR. */
  lemma CidrsStayDisjoint(st: State, steps: seq<RaceStep>, m: NodeKey, n: NodeKey)
    requires m.topologyId == n.topologyId && m != n
    requires Pooled(st, n.topologyId) && IsRun(st, steps)
    requires forall s :: s in steps ==> PoolStart(s, n.topologyId)
    requires m in RaceRun(st, steps).runtimes && n in RaceRun(st, steps).runtimes
    ensures var runtimes := RaceRun(st, steps).runtimes;
            && runtimes[m].cidr.Cidr? && runtimes[n].cidr.Cidr?
            && !runtimes[m].cidr.net.Overlaps(runtimes[n].cidr.net)
            && runtimes[n].gateway.Addr? && runtimes[n].cidr.net.Contains(runtimes[n].gateway.ip)
  {
    RunStaysPooled(st, steps, n.topologyId);
    var runtimes := RaceRun(st, steps).runtimes;
    assert RuntimeSound(m, runtimes[m]) && RuntimeSound(n, runtimes[n]);
    assert CidrFree(runtimes, n, runtimes[n].cidr);
    ChildrenAreDisjoint(runtimes[m].cidr.net, runtimes[n].cidr.net);
  }

  // ---------------------------------------------------------------- a stored CIDR stays

  /** A call for n that read the row while its CIDR was unset, and has yet to write it. */
  predicate StaleForCidr(st: State, c: nat, n: NodeKey) {
    && c in st.calls && st.calls[c].n == n && st.calls[c].spec.Plan? && st.calls[c].phase.Writing?
    && st.calls[c].phase.seen.Some? && st.calls[c].phase.seen.value.cidr.NoCidr?
  }

  predicate StaleForGateway(st: State, c: nat, n: NodeKey) {
    && c in st.calls && st.calls[c].n == n && st.calls[c].spec.Plan? && st.calls[c].phase.Writing?
    && st.calls[c].phase.seen.Some? && st.calls[c].phase.seen.value.gateway.NoAddr?
  }

  /** The stored CIDR of n is set, and no stale call is about to write another one. */
  ghost predicate CidrSettled(st: State, n: NodeKey) {
    && n in st.runtimes && !st.runtimes[n].cidr.NoCidr?
    && forall c :: StaleForCidr(st, c, n) ==> Cidr(st.calls[c].phase.net) == st.runtimes[n].cidr
  }

  ghost predicate GatewaySettled(st: State, n: NodeKey) {
    && n in st.runtimes && !st.runtimes[n].gateway.NoAddr?
    && forall c :: StaleForGateway(st, c, n) ==> Addr(st.calls[c].phase.gateway) == st.runtimes[n].gateway
  }

  lemma StepKeepsCidr(st: State, s: RaceStep, n: NodeKey)
    requires CidrSettled(st, n) && Enabled(st, s) && s != Drop(n)
    ensures CidrSettled(RaceNext(st, s), n) && RaceNext(st, s).runtimes[n].cidr == st.runtimes[n].cidr
  {
    var st' := RaceNext(st, s);
    forall c | StaleForCidr(st', c, n) ensures Cidr(st'.calls[c].phase.net) == st.runtimes[n].cidr {
      assert StaleForCidr(st, c, n);
    }
    if s.Commit? && st.calls[s.c].n == n {
      assert st.calls[s.c].phase.seen.Some? && st.calls[s.c].phase.seen.value.cidr.NoCidr? ==> StaleForCidr(st, s.c, n);
    }
  }

  /** For every spec and every interleaving: once settled, the CIDR of a node changes only when its row is deleted. */
  lemma {:induction false} CidrNeverChanges(st: State, steps: seq<RaceStep>, n: NodeKey)
    requires CidrSettled(st, n) && IsRun(st, steps) && Drop(n) !in steps
    ensures n in RaceRun(st, steps).runtimes && RaceRun(st, steps).runtimes[n].cidr == st.runtimes[n].cidr
    decreases |steps|
  {
    if steps != [] {
      assert steps[0] in steps;
      StepKeepsCidr(st, steps[0], n);
      CidrNeverChanges(RaceNext(st, steps[0]), steps[1..], n);
    }
  }

  lemma StepKeepsGateway(st: State, s: RaceStep, n: NodeKey)
    requires GatewaySettled(st, n) && Enabled(st, s) && s != Drop(n)
    ensures GatewaySettled(RaceNext(st, s), n) && RaceNext(st, s).runtimes[n].gateway == st.runtimes[n].gateway
  {
    var st' := RaceNext(st, s);
    forall c | StaleForGateway(st', c, n) ensures Addr(st'.calls[c].phase.gateway) == st.runtimes[n].gateway {
      assert StaleForGateway(st, c, n);
    }
    if s.Commit? && st.calls[s.c].n == n {
      var seen := st.calls[s.c].phase.seen;
      assert seen.Some? && seen.value.gateway.NoAddr? ==> StaleForGateway(st, s.c, n);
    }
  }

  /** And so does the gateway. */
  lemma {:induction false} GatewayNeverChanges(st: State, steps: seq<RaceStep>, n: NodeKey)
    requires GatewaySettled(st, n) && IsRun(st, steps) && Drop(n) !in steps
    ensures n in RaceRun(st, steps).runtimes && RaceRun(st, steps).runtimes[n].gateway == st.runtimes[n].gateway
    decreases |steps|
  {
    if steps != [] {
      assert steps[0] in steps;
      StepKeepsGateway(st, steps[0], n);
      GatewayNeverChanges(RaceNext(st, steps[0]), steps[1..], n);
    }
  }

  /** Rows are complete, and calls that are about to write found no row: what the code itself can bring about. */
  ghost predicate OwnWork(st: State) {
    && (forall n :: n in st.runtimes ==> st.runtimes[n].Complete())
    && (forall c :: c in st.calls && st.calls[c].phase.Writing? ==> st.calls[c].phase.seen.None?)
  }

  lemma StepIsOwnWork(st: State, s: RaceStep)
    requires OwnWork(st) && Enabled(st, s)
    ensures OwnWork(RaceNext(st, s))
  {
  }

  lemma {:induction false} RunIsOwnWork(st: State, steps: seq<RaceStep>)
    requires OwnWork(st) && IsRun(st, steps)
    ensures OwnWork(RaceRun(st, steps))
    decreases |steps|
  {
    if steps != [] {
      StepIsOwnWork(st, steps[0]);
      RunIsOwnWork(RaceNext(st, steps[0]), steps[1..]);
    }
  }

  /** From empty tables no condition is left: for every spec and every interleaving, what n stores at any point stays
      until its row is deleted. */
  lemma StoredStaysFromEmpty(prior: seq<RaceStep>, later: seq<RaceStep>, n: NodeKey)
    requires IsRun(State(map[], map[]), prior) && IsRun(RaceRun(State(map[], map[]), prior), later)
    requires n in RaceRun(State(map[], map[]), prior).runtimes && Drop(n) !in later
    ensures var before := RaceRun(State(map[], map[]), prior);
            var after := RaceRun(before, later);
            && n in after.runtimes && after.runtimes[n].cidr == before.runtimes[n].cidr
            && after.runtimes[n].gateway == before.runtimes[n].gateway
  {
    RunIsOwnWork(State(map[], map[]), prior);
    var before := RaceRun(State(map[], map[]), prior);
    CidrNeverChanges(before, later, n);
    GatewayNeverChanges(before, later, n);
  }

  /** A run without a deletion of n after which n stores another CIDR. */
  ghost predicate ChangesCidr(st: State, steps: seq<RaceStep>, n: NodeKey)
    requires n in st.runtimes
  {
    IsRun(st, steps) && Drop(n) !in steps
    && n in RaceRun(st, steps).runtimes && RaceRun(st, steps).runtimes[n].cidr != st.runtimes[n].cidr
  }

  /** A stored CIDR can change without a deletion exactly when it is not settled: some call read the row before the CIDR
      was set, and is about to write a different one. */
  lemma CidrChangesExactly(st: State, n: NodeKey)
    requires n in st.runtimes && !st.runtimes[n].cidr.NoCidr?
    requires forall m :: m in st.runtimes ==> CidrFree(st.runtimes, m, st.runtimes[m].cidr)
    ensures (exists steps :: ChangesCidr(st, steps, n)) <==> !CidrSettled(st, n)
  {
    if CidrSettled(st, n) {
      forall steps | IsRun(st, steps) && Drop(n) !in steps ensures !ChangesCidr(st, steps, n) {
        CidrNeverChanges(st, steps, n);
      }
    } else {
      var c :| StaleForCidr(st, c, n) && Cidr(st.calls[c].phase.net) != st.runtimes[n].cidr;
      StaleCommitOverwrites(st, c, n);
    }
  }

  /** The stale call commits at once, or after the node that holds its CIDR is gone. */
  lemma StaleCommitOverwrites(st: State, c: nat, n: NodeKey)
    requires n in st.runtimes && StaleForCidr(st, c, n) && Cidr(st.calls[c].phase.net) != st.runtimes[n].cidr
    requires forall m :: m in st.runtimes ==> CidrFree(st.runtimes, m, st.runtimes[m].cidr)
    ensures exists steps :: ChangesCidr(st, steps, n)
  {
    var cidr := Cidr(st.calls[c].phase.net);
    if CidrFree(st.runtimes, n, cidr) {
      OneStep(st, Commit(c));
      assert ChangesCidr(st, [Commit(c)], n);
    } else {
      var m :| m in st.runtimes && m != n && m.topologyId == n.topologyId && st.runtimes[m].cidr == cidr;
      var st1 := RaceNext(st, Drop(m));
      assert CidrFree(st.runtimes, m, cidr);
      assert CidrFree(st1.runtimes, n, cidr);
      OneStep(st1, Commit(c));
      assert [Drop(m), Commit(c)][1..] == [Commit(c)];
      assert ChangesCidr(st, [Drop(m), Commit(c)], n);
    }
  }

  lemma OneStep(st: State, s: RaceStep)
    requires Enabled(st, s)
    ensures IsRun(st, [s]) && RaceRun(st, [s]) == RaceNext(st, s)
  {
    assert [s][1..] == [];
  }

  // ---------------------------------------------------------------- every call stops

  function Rank(st: State, c: nat): nat {
    if c !in st.calls then 2 * ENSURE_MAX_ATTEMPTS
    else
      match st.calls[c].phase
      case Reading(a) => if a < ENSURE_MAX_ATTEMPTS then 2 * (ENSURE_MAX_ATTEMPTS - a) else 0
      case Writing(a, _, _, _) => if a < ENSURE_MAX_ATTEMPTS then 2 * (ENSURE_MAX_ATTEMPTS - a) - 1 else 0
      case Stopped(_) => 0
  }

  function StepsOf(steps: seq<RaceStep>, c: nat): nat {
    if steps == [] then 0
    else StepsOf(steps[1..], c) + if steps[0] in {Read(c), Commit(c), CommitFails(c)} then 1 else 0
  }

  ghost predicate AttemptsBounded(st: State) {
    forall c :: c in st.calls ==>
      (st.calls[c].phase.Reading? || st.calls[c].phase.Writing?) ==> st.calls[c].phase.attempt < ENSURE_MAX_ATTEMPTS
  }

  lemma AttemptsStayBounded(st: State, s: RaceStep)
    requires AttemptsBounded(st) && Enabled(st, s)
    ensures AttemptsBounded(RaceNext(st, s))
  {
  }

  lemma RankDrops(st: State, s: RaceStep, c: nat)
    requires AttemptsBounded(st) && Enabled(st, s)
    ensures Rank(RaceNext(st, s), c) + (if s in {Read(c), Commit(c), CommitFails(c)} then 1 else 0) <= Rank(st, c)
  {
  }

  /** In any interleaving a call takes at most 32 steps: sixteen attempts of a read and a commit. */
  lemma {:induction false} EveryCallStops(st: State, steps: seq<RaceStep>, c: nat)
    requires AttemptsBounded(st) && IsRun(st, steps)
    ensures StepsOf(steps, c) <= Rank(st, c) <= 2 * ENSURE_MAX_ATTEMPTS
    decreases |steps|
  {
    if steps != [] {
      AttemptsStayBounded(st, steps[0]);
      RankDrops(st, steps[0], c);
      EveryCallStops(RaceNext(st, steps[0]), steps[1..], c);
    }
  }
}
