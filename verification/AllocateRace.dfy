/** Concurrent `allocate_workspace_ip` calls on one node: their database transactions interleave freely. */
module AllocateRace {
  import opened Wrappers
  import opened HostPool
  import opened TopologyTables
  import opened TopologySteps
  import opened TopologyFacts

  /** Where a call stands; `update` tells whether the row it will write was there, released, when it read. */
  datatype Phase =
    | Reading(attempt: nat)
    | Writing(attempt: nat, ip: nat, update: bool)
    | Granted(ip: nat)
    | GivenUp(error: Error)

  datatype Call = Call(k: WorkspaceKey, phase: Phase)

  datatype State = State(runtimes: map<NodeKey, Runtime>, leases: map<WorkspaceKey, Lease>, calls: map<nat, Call>)

  /** One step of one call, an explicit release, or a change of a runtime row by someone else. */
  datatype RaceStep =
    | Start(c: nat, k: WorkspaceKey)
    | Read(c: nat)
    | Commit(c: nat)
    | CommitFails(c: nat)
    | ReleaseLease(k: WorkspaceKey)
    | ChangeRuntime(n: NodeKey, runtime: Option<Runtime>)

  function Advance(st: State, c: nat, phase: Phase): State
    requires c in st.calls
  {
    st.(calls := st.calls[c := st.calls[c].(phase := phase)])
  }

  function FirstPhase(runtimes: map<NodeKey, Runtime>, k: WorkspaceKey): Phase {
    match AllocateRefusal(runtimes, k.node)
    case Some(e) => GivenUp(e)
    case None => Reading(0)
  }

  function ReadStep(st: State, c: nat): State
    requires c in st.calls && st.calls[c].phase.Reading?
  {
    var (k, attempt) := (st.calls[c].k, st.calls[c].phase.attempt);
    match AllocateRefusal(st.runtimes, k.node)
    case Some(e) => Advance(st, c, GivenUp(e))
    case None =>
      if ActiveLease(st.leases, k) then Advance(st, c, Granted(st.leases[k].ip))
      else
        match PickedIp(st.runtimes, st.leases, k, attempt)
        case Raised(e) => Advance(st, c, GivenUp(e))
        case Returned(ip) => Advance(st, c, Writing(attempt, ip, k in st.leases))
  }

  /** The database rejects a second row for the workspace and an address another active lease holds. */
  predicate Conflicts(st: State, k: WorkspaceKey, ip: nat, update: bool) {
    (!update && k in st.leases) || !IpFree(st.leases, k, ip)
  }

  function AfterConflict(st: State, k: WorkspaceKey, attempt: nat): Phase {
    match AllocateRefusal(st.runtimes, k.node)
    case Some(e) => GivenUp(e)
    case None => if attempt + 1 >= ALLOCATE_MAX_ATTEMPTS then GivenUp(IpAllocationError) else Reading(attempt + 1)
  }

  function CommitStep(st: State, c: nat): State
    requires c in st.calls && st.calls[c].phase.Writing?
  {
    var (k, phase) := (st.calls[c].k, st.calls[c].phase);
    if Conflicts(st, k, phase.ip, phase.update) then Advance(st, c, AfterConflict(st, k, phase.attempt))
    else Advance(st.(leases := st.leases[k := Lease(phase.ip, true)]), c, Granted(phase.ip))
  }

  predicate Enabled(st: State, s: RaceStep) {
    match s
    case Start(c, _) => c !in st.calls
    case Read(c) => c in st.calls && st.calls[c].phase.Reading?
    case Commit(c) => c in st.calls && st.calls[c].phase.Writing?
    case CommitFails(c) => c in st.calls && st.calls[c].phase.Writing?
    case ReleaseLease(_) => true
    case ChangeRuntime(_, _) => true
  }

  function RaceNext(st: State, s: RaceStep): State
    requires Enabled(st, s)
  {
    match s
    case Start(c, k) => st.(calls := st.calls[c := Call(k, FirstPhase(st.runtimes, k))])
    case Read(c) => ReadStep(st, c)
    case Commit(c) => CommitStep(st, c)
    case CommitFails(c) => Advance(st, c, GivenUp(IpAllocationError))
    case ReleaseLease(k) => st.(leases := Released(st.leases, k))
    case ChangeRuntime(n, runtime) =>
      st.(runtimes := if runtime.Some? then st.runtimes[n := runtime.value] else st.runtimes - {n})
  }

  predicate IsRun(st: State, steps: seq<RaceStep>)
    decreases |steps|
  {
    steps == [] || (Enabled(st, steps[0]) && IsRun(RaceNext(st, steps[0]), steps[1..]))
  }

  function RaceRun(st: State, steps: seq<RaceStep>): State
    requires IsRun(st, steps)
    decreases |steps|
  {
    if steps == [] then st else RaceRun(RaceNext(st, steps[0]), steps[1..])
  }

  // ---------------------------------------------------------------- active addresses stay unique

  ghost predicate UniqueIps(leases: map<WorkspaceKey, Lease>) {
    forall j, k :: ActiveLease(leases, j) && ActiveLease(leases, k) && j.node == k.node && j != k ==>
      leases[j].ip != leases[k].ip
  }

  /** No interleaving of allocations and releases ever makes two active leases of a node share an address. */
  lemma {:induction false} IpsStayUnique(st: State, steps: seq<RaceStep>)
    requires UniqueIps(st.leases) && IsRun(st, steps)
    ensures UniqueIps(RaceRun(st, steps).leases)
    decreases |steps|
  {
    if steps != [] {
      IpsStayUnique(RaceNext(st, steps[0]), steps[1..]);
    }
  }

  // ---------------------------------------------------------------- what callers were told stays true

  /** Without a released row for k, a call for k inserts or finds the row, and what a caller was granted is the lease.
      */
  ghost predicate Faithful(st: State, k: WorkspaceKey) {
    && (k in st.leases ==> st.leases[k].active)
    && forall c :: c in st.calls && st.calls[c].k == k ==>
         && (st.calls[c].phase.Writing? ==> !st.calls[c].phase.update)
         && (st.calls[c].phase.Granted? ==> k in st.leases && st.leases[k].ip == st.calls[c].phase.ip)
  }

  lemma {:induction false} RunStaysFaithful(st: State, steps: seq<RaceStep>, k: WorkspaceKey)
    requires Faithful(st, k) && IsRun(st, steps)
    requires ReleaseLease(k) !in steps
    ensures Faithful(RaceRun(st, steps), k)
    ensures k in st.leases ==> k in RaceRun(st, steps).leases && RaceRun(st, steps).leases[k] == st.leases[k]
    decreases |steps|
  {
    if steps != [] {
      assert steps[0] != ReleaseLease(k);
      StepStaysFaithful(st, steps[0], k);
      RunStaysFaithful(RaceNext(st, steps[0]), steps[1..], k);
    }
  }

  lemma StepStaysFaithful(st: State, s: RaceStep, k: WorkspaceKey)
    requires Faithful(st, k) && Enabled(st, s) && s != ReleaseLease(k)
    ensures Faithful(RaceNext(st, s), k)
    ensures k in st.leases ==> k in RaceNext(st, s).leases && RaceNext(st, s).leases[k] == st.leases[k]
  {
  }

  /** Racing first allocations for one workspace all return the same address, the one it ends up leasing. */
  lemma RacingFirstAllocationsAgree(st: State, steps: seq<RaceStep>, k: WorkspaceKey, c: nat, d: nat)
    requires Faithful(st, k) && IsRun(st, steps) && ReleaseLease(k) !in steps
    requires var calls := RaceRun(st, steps).calls;
             && c in calls && calls[c].k == k && calls[c].phase.Granted?
             && d in calls && calls[d].k == k && calls[d].phase.Granted?
    ensures var st' := RaceRun(st, steps);
            st'.calls[c].phase.ip == st'.calls[d].phase.ip && ActiveLease(st'.leases, k)
            && st'.leases[k].ip == st'.calls[c].phase.ip
  {
    RunStaysFaithful(st, steps, k);
  }

  /** And racing allocations for two workspaces of a node return two addresses. */
  lemma GrantsOfTwoWorkspacesDiffer(st: State, steps: seq<RaceStep>, j: WorkspaceKey, k: WorkspaceKey, c: nat, d: nat)
    requires UniqueIps(st.leases) && Faithful(st, j) && Faithful(st, k) && j.node == k.node && j != k
    requires IsRun(st, steps) && ReleaseLease(j) !in steps && ReleaseLease(k) !in steps
    requires var calls := RaceRun(st, steps).calls;
             && c in calls && calls[c].k == j && calls[c].phase.Granted?
             && d in calls && calls[d].k == k && calls[d].phase.Granted?
    ensures RaceRun(st, steps).calls[c].phase.ip != RaceRun(st, steps).calls[d].phase.ip
  {
    RunStaysFaithful(st, steps, j);
    RunStaysFaithful(st, steps, k);
    IpsStayUnique(st, steps);
  }

  lemma {:induction false} OneMoreStep(st: State, steps: seq<RaceStep>, s: RaceStep)
    requires IsRun(st, steps) && Enabled(RaceRun(st, steps), s)
    ensures IsRun(st, steps + [s]) && RaceRun(st, steps + [s]) == RaceNext(RaceRun(st, steps), s)
    decreases |steps|
  {
    if steps == [] {
      assert steps + [s] == [s] && [s][1..] == [];
    } else {
      OneMoreStep(RaceNext(st, steps[0]), steps[1..], s);
      assert (steps + [s])[1..] == steps[1..] + [s];
    }
  }

  /** A released row breaks the agreement. When two calls have read it and picked differently, the second commit
      overwrites the first: its caller keeps an address that any other workspace of the node may be granted. */
  lemma ReleasedRowLosesUpdate(st: State, c: nat, d: nat, k: WorkspaceKey, w: WorkspaceKey)
    returns (steps: seq<RaceStep>)
    requires c != d && c !in st.calls && d !in st.calls && k != w
    requires k in st.leases && !st.leases[k].active && AllocateRefusal(st.runtimes, k.node).None?
    requires var before := PickedIp(st.runtimes, st.leases, k, 0);
             var after := PickedIp(st.runtimes, Released(st.leases, w), k, 0);
             before.Returned? && after.Returned? && before != after
    ensures steps == [Start(c, k), Read(c), ReleaseLease(w), Start(d, k), Read(d), Commit(c), Commit(d)]
    ensures IsRun(st, steps)
    ensures var st' := RaceRun(st, steps);
            && c in st'.calls && st'.calls[c].k == k && st'.calls[c].phase.Granted?
            && d in st'.calls && st'.calls[d].k == k && st'.calls[d].phase.Granted?
            && k in st'.leases && st'.leases[k] == Lease(st'.calls[d].phase.ip, true)
            && st'.calls[c].phase.ip != st'.calls[d].phase.ip
            && forall j :: j != k && j.node == k.node ==> IpFree(st'.leases, j, st'.calls[c].phase.ip)
  {
    var prior, x, y := ReadAroundRelease(st, c, d, k, w);
    SecondCommitOverwrites(RaceRun(st, prior), c, d, k, x, y);
    TwoMoreSteps(st, prior, Commit(c), Commit(d));
    steps := prior + [Commit(c), Commit(d)];
  }

  lemma TwoMoreSteps(st: State, steps: seq<RaceStep>, r: RaceStep, s: RaceStep)
    requires IsRun(st, steps) && Enabled(RaceRun(st, steps), r) && Enabled(RaceNext(RaceRun(st, steps), r), s)
    ensures IsRun(st, steps + [r, s]) && RaceRun(st, steps + [r, s]) == RaceNext(RaceNext(RaceRun(st, steps), r), s)
  {
    OneMoreStep(st, steps, r);
    OneMoreStep(st, steps + [r], s);
    assert steps + [r] + [s] == steps + [r, s];
  }

  /** One call reads before workspace w frees its address, and one after. */
  lemma ReadAroundRelease(st: State, c: nat, d: nat, k: WorkspaceKey, w: WorkspaceKey)
    returns (prior: seq<RaceStep>, x: nat, y: nat)
    requires c != d && c !in st.calls && d !in st.calls && k != w
    requires k in st.leases && !st.leases[k].active && AllocateRefusal(st.runtimes, k.node).None?
    requires var before := PickedIp(st.runtimes, st.leases, k, 0);
             var after := PickedIp(st.runtimes, Released(st.leases, w), k, 0);
             before.Returned? && after.Returned? && before != after
    ensures prior == [Start(c, k), Read(c), ReleaseLease(w), Start(d, k), Read(d)] && IsRun(st, prior) && x != y
    ensures var st' := RaceRun(st, prior);
            && c in st'.calls && st'.calls[c] == Call(k, Writing(0, x, true)) && IpFree(st'.leases, k, x)
            && d in st'.calls && st'.calls[d] == Call(k, Writing(0, y, true)) && IpFree(st'.leases, k, y)
  {
    x, y := PickedIp(st.runtimes, st.leases, k, 0).value, PickedIp(st.runtimes, Released(st.leases, w), k, 0).value;
    var first := ReadAndRelease(st, c, k, w);
    var st3 := RaceRun(st, first);
    PickedIpIsFree(st3.runtimes, st3.leases, k, 0);
    StartAndRead(st3, d, k);
    TwoMoreSteps(st, first, Start(d, k), Read(d));
    prior := first + [Start(d, k), Read(d)];
  }

  lemma ReadAndRelease(st: State, c: nat, k: WorkspaceKey, w: WorkspaceKey) returns (first: seq<RaceStep>)
    requires c !in st.calls && k != w
    requires k in st.leases && !st.leases[k].active && AllocateRefusal(st.runtimes, k.node).None?
    requires PickedIp(st.runtimes, st.leases, k, 0).Returned?
    ensures first == [Start(c, k), Read(c), ReleaseLease(w)] && IsRun(st, first)
    ensures var st' := RaceRun(st, first);
            && st'.runtimes == st.runtimes && st'.leases == Released(st.leases, w)
            && st'.calls.Keys == st.calls.Keys + {c}
            && st'.calls[c] == Call(k, Writing(0, PickedIp(st.runtimes, st.leases, k, 0).value, true))
            && IpFree(st'.leases, k, PickedIp(st.runtimes, st.leases, k, 0).value)
  {
    PickedIpIsFree(st.runtimes, st.leases, k, 0);
    StartAndRead(st, c, k);
    TwoMoreSteps(st, [], Start(c, k), Read(c));
    first := [] + [Start(c, k), Read(c)];
    OneMoreStep(st, first, ReleaseLease(w));
    first := first + [ReleaseLease(w)];
  }

  lemma SecondCommitOverwrites(st: State, c: nat, d: nat, k: WorkspaceKey, x: nat, y: nat)
    requires c != d && x != y
    requires c in st.calls && st.calls[c] == Call(k, Writing(0, x, true))
    requires d in st.calls && st.calls[d] == Call(k, Writing(0, y, true))
    requires IpFree(st.leases, k, x) && IpFree(st.leases, k, y)
    ensures Enabled(st, Commit(c)) && Enabled(RaceNext(st, Commit(c)), Commit(d))
    ensures var st' := RaceNext(RaceNext(st, Commit(c)), Commit(d));
            && c in st'.calls && st'.calls[c].phase == Granted(x) && d in st'.calls && st'.calls[d].phase == Granted(y)
            && st'.leases == st.leases[k := Lease(y, true)]
            && forall j :: j != k && j.node == k.node ==> IpFree(st'.leases, j, x)
  {
    CommitGrants(st, c);
    var st1 := RaceNext(st, Commit(c));
    assert IpFree(st1.leases, k, y);
    CommitGrants(st1, d);
    assert st1.leases[k := Lease(y, true)] == st.leases[k := Lease(y, true)];
  }

  lemma StartAndRead(st: State, c: nat, k: WorkspaceKey)
    requires c !in st.calls && !ActiveLease(st.leases, k) && AllocateRefusal(st.runtimes, k.node).None?
    requires PickedIp(st.runtimes, st.leases, k, 0).Returned?
    ensures Enabled(RaceNext(st, Start(c, k)), Read(c))
    ensures var st' := RaceNext(RaceNext(st, Start(c, k)), Read(c));
            && st'.leases == st.leases && st'.runtimes == st.runtimes && st'.calls.Keys == st.calls.Keys + {c}
            && st'.calls[c] == Call(k, Writing(0, PickedIp(st.runtimes, st.leases, k, 0).value, k in st.leases))
            && forall e :: e in st.calls ==> st'.calls[e] == st.calls[e]
  {
  }

  lemma CommitGrants(st: State, c: nat)
    requires Enabled(st, Commit(c))
    requires !Conflicts(st, st.calls[c].k, st.calls[c].phase.ip, st.calls[c].phase.update)
    ensures var (k, ip) := (st.calls[c].k, st.calls[c].phase.ip);
            var st' := RaceNext(st, Commit(c));
            && st'.leases == st.leases[k := Lease(ip, true)] && st'.calls.Keys == st.calls.Keys
            && st'.calls[c].phase == Granted(ip) && forall e :: e in st.calls && e != c ==> st'.calls[e] == st.calls[e]
  {
  }

  // ---------------------------------------------------------------- when racing allocations disagree

  lemma {:induction false} RunAppend(st: State, first: seq<RaceStep>, after: seq<RaceStep>)
    requires IsRun(st, first) && IsRun(RaceRun(st, first), after)
    ensures IsRun(st, first + after) && RaceRun(st, first + after) == RaceRun(RaceRun(st, first), after)
    decreases |first|
  {
    if first == [] {
      assert first + after == after;
    } else {
      RunAppend(RaceNext(st, first[0]), first[1..], after);
      assert (first + after)[1..] == first[1..] + after;
    }
  }

  /** A run without a release of k after which two calls for k were granted different addresses. */
  ghost predicate Disagrees(st: State, steps: seq<RaceStep>, k: WorkspaceKey) {
    IsRun(st, steps) && ReleaseLease(k) !in steps && exists c, d :: GrantedTwo(RaceRun(st, steps).calls, c, d, k)
  }

  /** A READY runtime with at least two free candidates. */
  ghost predicate TwoFreeHosts(runtimes: map<NodeKey, Runtime>, leases: map<WorkspaceKey, Lease>, n: NodeKey) {
    && AllocateRefusal(runtimes, n).None? && runtimes[n].cidr.Cidr? && runtimes[n].gateway.Addr?
    && runtimes[n].cidr.net.Contains(runtimes[n].gateway.ip)
    && var candidates := Candidates(runtimes[n].cidr.net, runtimes[n].gateway.ip);
       exists g, h :: g in candidates && h in candidates && g != h
                      && g !in LeasedIps(leases, n) && h !in LeasedIps(leases, n)
  }

  lemma FreeHostIsPicked(runtimes: map<NodeKey, Runtime>, leases: map<WorkspaceKey, Lease>, k: WorkspaceKey, h: nat)
    requires AllocateRefusal(runtimes, k.node).None?
    requires runtimes[k.node].cidr.Cidr? && runtimes[k.node].gateway.Addr?
    requires runtimes[k.node].cidr.net.Contains(runtimes[k.node].gateway.ip)
    requires h in Candidates(runtimes[k.node].cidr.net, runtimes[k.node].gateway.ip) && h !in LeasedIps(leases, k.node)
    ensures PickedIp(runtimes, leases, k, 0).Returned?
  {
    var candidates := Candidates(runtimes[k.node].cidr.net, runtimes[k.node].gateway.ip);
    PickFailsOnlyWhenExhausted(candidates, LeasedIps(leases, k.node), 0);
  }

  /** First attempts for the workspaces of a node pick alike. */
  lemma FirstPicksAgree(
    runtimes: map<NodeKey, Runtime>, leases: map<WorkspaceKey, Lease>, leases': map<WorkspaceKey, Lease>,
    j: WorkspaceKey, k: WorkspaceKey)
    requires AllocateRefusal(runtimes, k.node).None? && j.node == k.node
    requires LeasedIps(leases, k.node) == LeasedIps(leases', k.node)
    ensures PickedIp(runtimes, leases, j, 0) == PickedIp(runtimes, leases', k, 0)
  {
  }

  lemma FreshCall(calls: set<nat>) returns (c: nat)
    ensures forall d :: d in calls ==> d < c
  {
    if calls == {} {
      c := 0;
    } else {
      var d :| d in calls;
      var c' := FreshCall(calls - {d});
      c := if d < c' then c' else d + 1;
      assert calls == calls - {d} + {d};
    }
  }

  lemma FreshWorkspace(rows: set<WorkspaceKey>) returns (id: int)
    ensures forall k :: k in rows ==> k.workspaceId < id
  {
    if rows == {} {
      id := 0;
    } else {
      var k :| k in rows;
      var id' := FreshWorkspace(rows - {k});
      id := if k.workspaceId < id' then id' else k.workspaceId + 1;
      assert rows == rows - {k} + {k};
    }
  }

  /** A workspace without a row leases the first pick of its node. */
  lemma OtherLeases(st: State, c: nat, w: WorkspaceKey) returns (steps: seq<RaceStep>)
    requires c !in st.calls && w !in st.leases && AllocateRefusal(st.runtimes, w.node).None?
    requires PickedIp(st.runtimes, st.leases, w, 0).Returned?
    ensures steps == [Start(c, w), Read(c), Commit(c)] && IsRun(st, steps)
    ensures var st' := RaceRun(st, steps);
            && st'.runtimes == st.runtimes && st'.calls.Keys == st.calls.Keys + {c}
            && st'.leases == st.leases[w := Lease(PickedIp(st.runtimes, st.leases, w, 0).value, true)]
  {
    PickedIpIsFree(st.runtimes, st.leases, w, 0);
    StartAndRead(st, c, w);
    TwoMoreSteps(st, [], Start(c, w), Read(c));
    steps := [] + [Start(c, w), Read(c)];
    CommitGrants(RaceRun(st, steps), c);
    OneMoreStep(st, steps, Commit(c));
    steps := steps + [Commit(c)];
  }

  /** While a fresh workspace w holds the first pick, the next call for k picks another address; once w frees it, the
      call after that picks it again. */
  lemma PicksAround(
    runtimes: map<NodeKey, Runtime>, leases: map<WorkspaceKey, Lease>, k: WorkspaceKey, w: WorkspaceKey, x: nat)
    requires TwoFreeHosts(runtimes, leases, k.node) && w.node == k.node && w !in leases
    requires PickedIp(runtimes, leases, w, 0) == Returned(x)
    ensures var held := leases[w := Lease(x, true)];
            && PickedIp(runtimes, held, k, 0).Returned? && PickedIp(runtimes, held, k, 0).value != x
            && PickedIp(runtimes, Released(held, w), k, 0) == Returned(x)
  {
    var held := leases[w := Lease(x, true)];
    var candidates := Candidates(runtimes[k.node].cidr.net, runtimes[k.node].gateway.ip);
    var g, h :| g in candidates && h in candidates && g != h
                && g !in LeasedIps(leases, k.node) && h !in LeasedIps(leases, k.node);
    LeasedIpsAround(leases, w, x);
    FreeHostIsPicked(runtimes, held, k, if g == x then h else g);
    FirstPicksAgree(runtimes, leases, Released(held, w), w, k);
  }

  lemma LeasedIpsAround(leases: map<WorkspaceKey, Lease>, w: WorkspaceKey, x: nat)
    requires w !in leases
    ensures var held := leases[w := Lease(x, true)];
            && LeasedIps(held, w.node) == LeasedIps(leases, w.node) + {x}
            && LeasedIps(Released(held, w), w.node) == LeasedIps(leases, w.node)
  {
    var held := leases[w := Lease(x, true)];
    forall ip | ip in LeasedIps(leases, w.node) + {x} ensures ip in LeasedIps(held, w.node) {
      if ip in LeasedIps(leases, w.node) {
        var j :| j in leases && j.node == w.node && leases[j].active && leases[j].ip == ip;
        assert held[j] == leases[j];
      } else {
        assert held[w].active;
      }
    }
    forall ip | ip in LeasedIps(leases, w.node) ensures ip in LeasedIps(Released(held, w), w.node) {
      var j :| j in leases && j.node == w.node && leases[j].active && leases[j].ip == ip;
      assert Released(held, w)[j] == leases[j];
    }
  }

  /** A release of w changes the address that a call for k picks. */
  ghost predicate PickChanges(st: State, k: WorkspaceKey, w: WorkspaceKey) {
    && AllocateRefusal(st.runtimes, k.node).None?
    && var before := PickedIp(st.runtimes, st.leases, k, 0);
       var after := PickedIp(st.runtimes, Released(st.leases, w), k, 0);
       before.Returned? && after.Returned? && before != after
  }

  /** After a fresh workspace w leases the first pick, its release changes what a call for k picks. */
  lemma HoldFirstPick(st: State, c: nat, k: WorkspaceKey) returns (steps: seq<RaceStep>, w: WorkspaceKey)
    requires TwoFreeHosts(st.runtimes, st.leases, k.node) && k in st.leases && c !in st.calls
    ensures IsRun(st, steps) && ReleaseLease(k) !in steps && k != w
    ensures var st' := RaceRun(st, steps);
            && st'.runtimes == st.runtimes && st'.calls.Keys == st.calls.Keys + {c}
            && k in st'.leases && st'.leases[k] == st.leases[k] && PickChanges(st', k, w)
  {
    var id := FreshWorkspace(st.leases.Keys);
    w := WorkspaceKey(k.node, id);
    TwoFreeMeansPick(st.runtimes, st.leases, w);
    PicksAround(st.runtimes, st.leases, k, w, PickedIp(st.runtimes, st.leases, w, 0).value);
    steps := OtherLeases(st, c, w);
  }

  lemma TwoFreeMeansPick(runtimes: map<NodeKey, Runtime>, leases: map<WorkspaceKey, Lease>, k: WorkspaceKey)
    requires TwoFreeHosts(runtimes, leases, k.node)
    ensures PickedIp(runtimes, leases, k, 0).Returned?
  {
    var candidates := Candidates(runtimes[k.node].cidr.net, runtimes[k.node].gateway.ip);
    var g :| g in candidates && g !in LeasedIps(leases, k.node);
    FreeHostIsPicked(runtimes, leases, k, g);
  }

  lemma LosesUpdate(st: State, c: nat, d: nat, k: WorkspaceKey, w: WorkspaceKey) returns (steps: seq<RaceStep>)
    requires c != d && c !in st.calls && d !in st.calls && k != w
    requires k in st.leases && !st.leases[k].active && PickChanges(st, k, w)
    ensures IsRun(st, steps) && ReleaseLease(k) !in steps
    ensures GrantedTwo(RaceRun(st, steps).calls, c, d, k)
  {
    steps := ReleasedRowLosesUpdate(st, c, d, k, w);
  }

  /** Calls c and d for k were granted different addresses. */
  predicate GrantedTwo(calls: map<nat, Call>, c: nat, d: nat, k: WorkspaceKey) {
    && c in calls && calls[c].k == k && calls[c].phase.Granted?
    && d in calls && calls[d].k == k && calls[d].phase.Granted? && calls[c].phase.ip != calls[d].phase.ip
  }

  /** With a released row for k and two free candidates, some run grants two addresses for k. */
  lemma ReleasedRowDisagrees(st: State, k: WorkspaceKey)
    requires TwoFreeHosts(st.runtimes, st.leases, k.node) && k in st.leases && !st.leases[k].active
    ensures exists steps :: Disagrees(st, steps, k)
  {
    var c := FreshCall(st.calls.Keys);
    var first, w := HoldFirstPick(st, c, k);
    ThenDisagrees(st, first, c, k, w);
  }

  lemma ThenDisagrees(st: State, first: seq<RaceStep>, c: nat, k: WorkspaceKey, w: WorkspaceKey)
    requires IsRun(st, first) && ReleaseLease(k) !in first && k != w
    requires var st' := RaceRun(st, first);
             k in st'.leases && !st'.leases[k].active && PickChanges(st', k, w) && forall d :: d in st'.calls ==> d <= c
    ensures exists steps :: Disagrees(st, steps, k)
  {
    var second := LosesUpdate(RaceRun(st, first), c + 1, c + 2, k, w);
    DisagreesAfter(st, first, second, c + 1, c + 2, k);
  }

  lemma DisagreesAfter(st: State, first: seq<RaceStep>, second: seq<RaceStep>, c: nat, d: nat, k: WorkspaceKey)
    requires IsRun(st, first) && IsRun(RaceRun(st, first), second)
    requires ReleaseLease(k) !in first && ReleaseLease(k) !in second
    requires GrantedTwo(RaceRun(RaceRun(st, first), second).calls, c, d, k)
    ensures Disagrees(st, first + second, k)
  {
    RunAppend(st, first, second);
  }

  /** Racing allocations for k can be granted different addresses exactly when k has a released row. */
  lemma DisagreementExactly(st: State, k: WorkspaceKey)
    requires TwoFreeHosts(st.runtimes, st.leases, k.node) && forall c :: c in st.calls ==> st.calls[c].k != k
    ensures (exists steps :: Disagrees(st, steps, k)) <==> k in st.leases && !st.leases[k].active
  {
    if k in st.leases && !st.leases[k].active {
      ReleasedRowDisagrees(st, k);
    } else {
      forall steps | IsRun(st, steps) && ReleaseLease(k) !in steps ensures !Disagrees(st, steps, k) {
        RunStaysFaithful(st, steps, k);
      }
    }
  }

  // ---------------------------------------------------------------- every call stops

  function Rank(st: State, c: nat): nat {
    if c !in st.calls then 2 * ALLOCATE_MAX_ATTEMPTS
    else
      match st.calls[c].phase
      case Reading(a) => if a < ALLOCATE_MAX_ATTEMPTS then 2 * (ALLOCATE_MAX_ATTEMPTS - a) else 0
      case Writing(a, _, _) => if a < ALLOCATE_MAX_ATTEMPTS then 2 * (ALLOCATE_MAX_ATTEMPTS - a) - 1 else 0
      case _ => 0
  }

  function StepsOf(steps: seq<RaceStep>, c: nat): nat {
    if steps == [] then 0
    else StepsOf(steps[1..], c) + if steps[0] in {Read(c), Commit(c), CommitFails(c)} then 1 else 0
  }

  ghost predicate AttemptsBounded(st: State) {
    forall c :: c in st.calls ==>
      (st.calls[c].phase.Reading? || st.calls[c].phase.Writing?) ==> st.calls[c].phase.attempt < ALLOCATE_MAX_ATTEMPTS
  }

  lemma AttemptsStayBounded(st: State, s: RaceStep)
    requires AttemptsBounded(st) && Enabled(st, s)
    ensures AttemptsBounded(RaceNext(st, s))
  {
  }

  lemma RankDrops(st: State, s: RaceStep, c: nat)
    requires AttemptsBounded(st) && Enabled(st, s)
    ensures Rank(RaceNext(st, s), c) + (if s in {Read(c), Commit(c), CommitFails(c)} then 1 else 0) <= Rank(st, c)
  {
  }

  /** In any interleaving a call takes at most 48 steps: 24 attempts of a read and a commit. */
  lemma {:induction false} EveryCallStops(st: State, steps: seq<RaceStep>, c: nat)
    requires AttemptsBounded(st) && IsRun(st, steps)
    ensures StepsOf(steps, c) <= Rank(st, c) <= 2 * ALLOCATE_MAX_ATTEMPTS
    decreases |steps|
  {
    if steps != [] {
      AttemptsStayBounded(st, steps[0]);
      RankDrops(st, steps[0], c);
      EveryCallStops(RaceNext(st, steps[0]), steps[1..], c);
    }
  }
}
