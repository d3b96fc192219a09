/** Which specs let concurrent ensure calls store overlapping CIDRs. */
module EnsureFamilies {
  import opened Wrappers
  import opened Ipv4
  import opened TopologyTables
  import opened SubnetPool
  import opened TopologySteps
  import opened TopologyRuns
  import opened EnsureRace

  // ---------------------------------------------------------------- the networks that specs may bring

  predicate GatewayFits(gateway: AddrField, net: Network) {
    gateway.NoAddr? || (gateway.Addr? && net.Contains(gateway.ip))
  }

  /** A spec sets this CIDR, and no gateway outside it. */
  ghost predicate Named(specs: iset<Spec>, net: Network) {
    exists s :: s in specs && s.Plan? && s.cidr == Cidr(net) && GatewayFits(s.gateway, net)
  }

  /** A spec leaves the CIDR to the pool, and its gateway, if it sets one, lies in child k. */
  ghost predicate Offered(specs: iset<Spec>, k: nat) {
    k < CHILDREN && exists s :: s in specs && s.Plan? && s.cidr.NoCidr? && GatewayFits(s.gateway, Child(k))
  }

  /** Child j can be taken while child k is free: from the pool, or by a network that a spec names. */
  ghost predicate Skippable(specs: iset<Spec>, j: nat, k: nat)
    requires j < CHILDREN && k < CHILDREN
  {
    Offered(specs, j) || exists b: Network :: Named(specs, b) && b.Overlaps(Child(j)) && !b.Overlaps(Child(k))
  }

  /** Child k is offered, and each child before it can be taken first. */
  ghost predicate Drawn(specs: iset<Spec>, k: nat) {
    Offered(specs, k) && forall j: nat :: j < k ==> Skippable(specs, j, k)
  }

  /** The networks that the calls of a topology with these specs may store. */
  ghost predicate MayBring(specs: iset<Spec>, net: Network) {
    Named(specs, net) || exists k: nat :: k < CHILDREN && net == Child(k) && Drawn(specs, k)
  }

  ghost predicate NeverMeet(specs: iset<Spec>) {
    forall a: Network, b: Network :: MayBring(specs, a) && MayBring(specs, b) && a != b ==> !a.Overlaps(b)
  }

  // ---------------------------------------------------------------- reachable states

  /** Calls for the topology name a node and read one of the specs; other topologies do as they like. */
  ghost predicate Admitted(s: RaceStep, specs: iset<Spec>, topologyId: int) {
    s.Start? && s.n.topologyId == topologyId ==> s.n.nodeId != "" && s.spec in specs
  }

  ghost predicate LeadsTo(steps: seq<RaceStep>, st: State, specs: iset<Spec>, topologyId: int) {
    && IsRun(State(map[], map[]), steps) && RaceRun(State(map[], map[]), steps) == st
    && forall s :: s in steps ==> Admitted(s, specs, topologyId)
  }

  ghost predicate Reachable(st: State, specs: iset<Spec>, topologyId: int) {
    exists steps :: LeadsTo(steps, st, specs, topologyId)
  }

  ghost predicate Disjoint(st: State, topologyId: int) {
    forall m, n :: m in st.runtimes && n in st.runtimes && m != n && m.topologyId == topologyId == n.topologyId
                   && st.runtimes[m].cidr.Cidr? && st.runtimes[n].cidr.Cidr? ==>
                     !st.runtimes[m].cidr.net.Overlaps(st.runtimes[n].cidr.net)
  }

  lemma EmptyIsReachable(specs: iset<Spec>, topologyId: int)
    ensures Reachable(State(map[], map[]), specs, topologyId)
  {
    assert LeadsTo([], State(map[], map[]), specs, topologyId);
  }

  lemma NextIsReachable(st: State, s: RaceStep, specs: iset<Spec>, topologyId: int)
    requires Reachable(st, specs, topologyId) && Enabled(st, s) && Admitted(s, specs, topologyId)
    ensures Reachable(RaceNext(st, s), specs, topologyId)
  {
    var steps :| LeadsTo(steps, st, specs, topologyId);
    RunSnoc(State(map[], map[]), steps, s);
    assert LeadsTo(steps + [s], RaceNext(st, s), specs, topologyId);
  }

  // ---------------------------------------------------------------- what reachable states store

  /** The network a call of this spec brings: the one its spec names, or a child that can be drawn. */
  ghost predicate BroughtBy(specs: iset<Spec>, spec: Spec, net: Network)
    requires spec.Plan?
  {
    if spec.cidr.Cidr? then Named(specs, net)
    else (exists k: nat :: k < CHILDREN && net == Child(k) && Drawn(specs, k)) && GatewayFits(spec.gateway, net)
  }

  /** A pool spec with a gateway comes back for the one child that holds it. */
  ghost predicate HasDrawn(specs: iset<Spec>, spec: Spec) {
    spec.Plan? && spec.cidr.NoCidr? ==>
      exists k: nat :: k < CHILDREN && Drawn(specs, k) && GatewayFits(spec.gateway, Child(k))
  }

  ghost predicate CallSound(call: Call, specs: iset<Spec>) {
    && call.n.nodeId != "" && call.spec in specs
    && match call.phase
       case Reading(a) => a > 0 ==> HasDrawn(specs, call.spec)
       case Writing(_, seen, net, gateway) =>
         seen.None? && net.Contains(gateway) && call.spec.Plan? && BroughtBy(specs, call.spec, net)
       case Stopped(_) => true
  }

  ghost predicate RowSound(st: State, n: NodeKey, specs: iset<Spec>)
    requires n in st.runtimes
  {
    && RuntimeSound(n, st.runtimes[n]) && MayBring(specs, st.runtimes[n].cidr.net)
    && CidrFree(st.runtimes, n, st.runtimes[n].cidr)
  }

  ghost predicate FromFamily(st: State, specs: iset<Spec>, topologyId: int) {
    && (forall n :: n in st.runtimes && n.topologyId == topologyId ==> RowSound(st, n, specs))
    && (forall c :: c in st.calls && st.calls[c].n.topologyId == topologyId ==> CallSound(st.calls[c], specs))
  }

  lemma MeetingChildrenAreOne(i: nat, j: nat)
    requires i < CHILDREN && j < CHILDREN && Child(j).Overlaps(Child(i))
    ensures i == j
  {
  }

  lemma TakenBy(net: Network, used: set<Network>) returns (u: Network)
    requires OverlapsAny(net, used)
    ensures u in used && net.Overlaps(u)
  {
    u :| u in used && net.Overlaps(u);
  }

  /** A free child whose predecessors are all taken by networks of the family can be drawn. */
  lemma TakenMeansDrawn(specs: iset<Spec>, used: set<Network>, k: nat)
    requires k < CHILDREN && Offered(specs, k) && forall u :: u in used ==> MayBring(specs, u)
    requires !OverlapsAny(Child(k), used) && forall j: nat :: j < k ==> OverlapsAny(Child(j), used)
    ensures Drawn(specs, k)
  {
    forall j: nat | j < k ensures Skippable(specs, j, k) {
      var u := TakenBy(Child(j), used);
      assert MayBring(specs, u);
      if !Named(specs, u) {
        var i: nat :| i < CHILDREN && u == Child(i) && Drawn(specs, i);
        MeetingChildrenAreOne(i, j);
      } else {
        assert u.Overlaps(Child(j)) && !u.Overlaps(Child(k));
      }
    }
  }

  /** What the pool gives to a call is a child that can be drawn. */
  lemma PoolChoiceIsDrawn(specs: iset<Spec>, spec: Spec, used: set<Network>, n: NodeKey, attempt: nat)
    requires spec in specs && spec.Plan? && spec.cidr.NoCidr? && (attempt > 0 ==> HasDrawn(specs, spec))
    requires forall u :: u in used ==> MayBring(specs, u)
    requires FirstFreeChild(used, n, attempt).Some? && GatewayFits(spec.gateway, FirstFreeChild(used, n, attempt).value)
    ensures BroughtBy(specs, spec, FirstFreeChild(used, n, attempt).value)
  {
    FirstFreeChildIsFree(used, n, attempt);
    var net := FirstFreeChild(used, n, attempt).value;
    var k: nat :| k < CHILDREN && net == Child(k);
    assert Offered(specs, k);
    if spec.gateway.NoAddr? {
      assert forall j: nat :: j < k ==> Offered(specs, j);
    } else if attempt == 0 {
      FirstFreeAtZero(used, n, k);
      TakenMeansDrawn(specs, used, k);
    } else {
      var i: nat :| i < CHILDREN && Drawn(specs, i) && GatewayFits(spec.gateway, Child(i));
      OneChildHolds(i, k, spec.gateway.ip);
    }
  }

  lemma OneChildHolds(i: nat, k: nat, a: int)
    requires i < CHILDREN && k < CHILDREN && Child(i).Contains(a) && Child(k).Contains(a)
    ensures i == k
  {
  }

  lemma ReadStaysInFamily(st: State, c: nat, specs: iset<Spec>, topologyId: int)
    requires FromFamily(st, specs, topologyId) && c in st.calls && st.calls[c].phase.Reading?
    requires st.calls[c].n.topologyId == topologyId
    ensures CallSound(ReadStep(st, c).calls[c], specs)
  {
    var call := st.calls[c];
    var existing := Stored(st.runtimes, call.n);
    if existing.Some? {
      assert RowSound(st, call.n, specs);
    } else if ReadStep(st, c).calls[c].phase.Writing? {
      ChoiceIsSound(st.runtimes, call.n, existing, call.spec, call.phase.attempt);
      var used := UsedNetworks(st.runtimes, call.n);
      UsedIsFromFamily(st, call.n, specs, topologyId);
      if call.spec.cidr.NoCidr? {
        PoolChoiceIsDrawn(specs, call.spec, used, call.n, call.phase.attempt);
      }
    }
  }

  lemma UsedIsFromFamily(st: State, n: NodeKey, specs: iset<Spec>, topologyId: int)
    requires FromFamily(st, specs, topologyId) && n.topologyId == topologyId
    ensures forall u :: u in UsedNetworks(st.runtimes, n) ==> MayBring(specs, u)
  {
    forall u | u in UsedNetworks(st.runtimes, n) ensures MayBring(specs, u) {
      var m :| m in st.runtimes && m.topologyId == n.topologyId && st.runtimes[m].cidr.Cidr? && st.runtimes[m].cidr.net == u;
      assert RowSound(st, m, specs);
    }
  }

  lemma CommitStaysInFamily(st: State, c: nat, specs: iset<Spec>, topologyId: int)
    requires FromFamily(st, specs, topologyId) && Enabled(st, Commit(c))
    ensures FromFamily(CommitStep(st, c), specs, topologyId)
  {
    var st', call := CommitStep(st, c), st.calls[c];
    forall n | n in st'.runtimes && n.topologyId == topologyId ensures RowSound(st', n, specs) {
      if n != call.n {
        assert RowSound(st, n, specs);
      } else if st'.runtimes == st.runtimes {
        assert RowSound(st, n, specs);
      }
    }
  }

  lemma StepStaysInFamily(st: State, s: RaceStep, specs: iset<Spec>, topologyId: int)
    requires FromFamily(st, specs, topologyId) && Enabled(st, s) && Admitted(s, specs, topologyId)
    ensures FromFamily(RaceNext(st, s), specs, topologyId)
  {
    var st' := RaceNext(st, s);
    match s
    case Read(c) =>
      if st.calls[c].n.topologyId == topologyId {
        ReadStaysInFamily(st, c, specs, topologyId);
      }
      assert forall n :: n in st.runtimes && n.topologyId == topologyId ==> RowSound(st, n, specs);
    case Commit(c) => CommitStaysInFamily(st, c, specs, topologyId);
    case _ =>
      forall n | n in st'.runtimes && n.topologyId == topologyId ensures RowSound(st', n, specs) {
        assert RowSound(st, n, specs);
      }
  }

  lemma {:induction false} RunStaysInFamily(st: State, steps: seq<RaceStep>, specs: iset<Spec>, topologyId: int)
    requires FromFamily(st, specs, topologyId) && IsRun(st, steps)
    requires forall s :: s in steps ==> Admitted(s, specs, topologyId)
    ensures FromFamily(RaceRun(st, steps), specs, topologyId)
    decreases |steps|
  {
    if steps != [] {
      StepStaysInFamily(st, steps[0], specs, topologyId);
      RunStaysInFamily(RaceNext(st, steps[0]), steps[1..], specs, topologyId);
    }
  }

  lemma ReachableIsDisjoint(st: State, specs: iset<Spec>, topologyId: int)
    requires Reachable(st, specs, topologyId) && NeverMeet(specs)
    ensures Disjoint(st, topologyId)
  {
    var steps :| LeadsTo(steps, st, specs, topologyId);
    RunStaysInFamily(State(map[], map[]), steps, specs, topologyId);
    forall m, n | m in st.runtimes && n in st.runtimes && m != n && m.topologyId == topologyId == n.topologyId
      ensures st.runtimes[m].cidr.Cidr? && st.runtimes[n].cidr.Cidr?
              && !st.runtimes[m].cidr.net.Overlaps(st.runtimes[n].cidr.net)
    {
      assert RowSound(st, m, specs) && RowSound(st, n, specs);
    }
  }

  // ---------------------------------------------------------------- overlapping networks do meet

  function NodeAt(topologyId: int, i: nat): NodeKey {
    NodeKey(topologyId, seq(i + 1, _ => 'n'))
  }

  lemma NodesDiffer(topologyId: int, i: nat, j: nat)
    requires i != j
    ensures NodeAt(topologyId, i) != NodeAt(topologyId, j)
  {
    assert |NodeAt(topologyId, i).nodeId| == i + 1;
  }

  /** A call for n that found no row and is about to store a network. */
  predicate Poised(st: State, c: nat, n: NodeKey, net: Network) {
    && c in st.calls && st.calls[c].n == n && st.calls[c].spec.Plan?
    && st.calls[c].phase.Writing? && st.calls[c].phase.seen.None? && st.calls[c].phase.net == net
  }

  /** A call that finds a free network becomes poised for it. */
  lemma StartAndRead(st: State, c: nat, n: NodeKey, spec: Spec, net: Network, specs: iset<Spec>)
    returns (st': State)
    requires Reachable(st, specs, n.topologyId) && c !in st.calls && n !in st.runtimes && n.nodeId != ""
    requires spec in specs && spec.Plan? && GatewayFits(spec.gateway, net)
    requires var used := UsedNetworks(st.runtimes, n);
             if spec.cidr.NoCidr? then FirstFreeChild(used, n, 0) == Some(net)
             else spec.cidr == Cidr(net) && !OverlapsAny(net, used)
    ensures Reachable(st', specs, n.topologyId) && st'.runtimes == st.runtimes && Poised(st', c, n, net)
    ensures st'.calls.Keys == st.calls.Keys + {c} && forall e :: e in st.calls ==> st'.calls[e] == st.calls[e]
  {
    var st1 := RaceNext(st, Start(c, n, spec));
    NextIsReachable(st, Start(c, n, spec), specs, n.topologyId);
    st' := RaceNext(st1, Read(c));
    NextIsReachable(st1, Read(c), specs, n.topologyId);
  }

  lemma CommitPoised(st: State, c: nat, n: NodeKey, net: Network, specs: iset<Spec>) returns (st': State)
    requires Reachable(st, specs, n.topologyId) && Poised(st, c, n, net)
    requires n !in st.runtimes && CidrFree(st.runtimes, n, Cidr(net))
    ensures Reachable(st', specs, n.topologyId)
    ensures n in st'.runtimes && st'.runtimes == st.runtimes[n := st'.runtimes[n]] && st'.runtimes[n].cidr == Cidr(net)
    ensures st'.calls.Keys == st.calls.Keys && forall e :: e in st.calls && e != c ==> st'.calls[e] == st.calls[e]
  {
    st' := RaceNext(st, Commit(c));
    NextIsReachable(st, Commit(c), specs, n.topologyId);
  }

  /** Two networks that specs name: both calls read before either commits. */
  lemma NamedPairMeets(specs: iset<Spec>, topologyId: int, a: Network, b: Network)
    requires Named(specs, a) && Named(specs, b) && a != b && a.Overlaps(b)
    ensures exists st :: Reachable(st, specs, topologyId) && !Disjoint(st, topologyId)
  {
    var s :| s in specs && s.Plan? && s.cidr == Cidr(a) && GatewayFits(s.gateway, a);
    var t :| t in specs && t.Plan? && t.cidr == Cidr(b) && GatewayFits(t.gateway, b);
    var m, n := NodeAt(topologyId, 0), NodeAt(topologyId, 1);
    NodesDiffer(topologyId, 0, 1);
    EmptyIsReachable(specs, topologyId);
    var st1 := StartAndRead(State(map[], map[]), 0, m, s, a, specs);
    var st2 := StartAndRead(st1, 1, n, t, b, specs);
    var st3 := CommitPoised(st2, 0, m, a, specs);
    var st4 := CommitPoised(st3, 1, n, b, specs);
    assert st4.runtimes[m].cidr == Cidr(a) && st4.runtimes[n].cidr == Cidr(b);
    assert !Disjoint(st4, topologyId);
  }

  /** Call i + 1 holds a named network that takes child i and leaves child k free. */
  ghost predicate Waiting(st: State, topologyId: int, i: nat, k: nat)
    requires i < CHILDREN && k < CHILDREN
  {
    exists b: Network :: Poised(st, i + 1, NodeAt(topologyId, i + 1), b) && b.Overlaps(Child(i)) && !b.Overlaps(Child(k))
  }

  /** Before anything is stored, calls read the network a and the named networks that can take the first j children. */
  lemma {:induction false} ReadAhead(specs: iset<Spec>, topologyId: int, a: Network, k: nat, j: nat) returns (st: State)
    requires Named(specs, a) && Drawn(specs, k) && j <= k
    ensures Reachable(st, specs, topologyId) && st.runtimes == map[] && Poised(st, 0, NodeAt(topologyId, 0), a)
    ensures forall i: nat :: i < j ==> Offered(specs, i) || Waiting(st, topologyId, i, k)
    ensures forall c :: c in st.calls ==> c <= j
    decreases j
  {
    if j == 0 {
      var s :| s in specs && s.Plan? && s.cidr == Cidr(a) && GatewayFits(s.gateway, a);
      EmptyIsReachable(specs, topologyId);
      st := StartAndRead(State(map[], map[]), 0, NodeAt(topologyId, 0), s, a, specs);
    } else {
      var st0 := ReadAhead(specs, topologyId, a, k, j - 1);
      if Offered(specs, j - 1) {
        st := st0;
      } else {
        assert Skippable(specs, j - 1, k);
        var b: Network :| Named(specs, b) && b.Overlaps(Child(j - 1)) && !b.Overlaps(Child(k));
        var s :| s in specs && s.Plan? && s.cidr == Cidr(b) && GatewayFits(s.gateway, b);
        st := StartAndRead(st0, j, NodeAt(topologyId, j), s, b, specs);
        assert Waiting(st, topologyId, j - 1, k);
        forall i: nat | i < j - 1 ensures Offered(specs, i) || Waiting(st, topologyId, i, k) {
          WaitingStays(st0, st, topologyId, i, k);
        }
      }
    }
  }

  lemma WaitingStays(st: State, st': State, topologyId: int, i: nat, k: nat)
    requires i < CHILDREN && k < CHILDREN
    requires i + 1 in st.calls ==> i + 1 in st'.calls && st'.calls[i + 1] == st.calls[i + 1]
    ensures Waiting(st, topologyId, i, k) ==> Waiting(st', topologyId, i, k)
  {
    if Waiting(st, topologyId, i, k) {
      var b: Network :| Poised(st, i + 1, NodeAt(topologyId, i + 1), b) && b.Overlaps(Child(i)) && !b.Overlaps(Child(k));
      assert Poised(st', i + 1, NodeAt(topologyId, i + 1), b);
    }
  }

  ghost predicate Taken(st: State, i: nat)
    requires i < CHILDREN
  {
    exists n :: n in st.runtimes && st.runtimes[n].cidr.Cidr? && st.runtimes[n].cidr.net.Overlaps(Child(i))
  }

  /** The first j nodes store networks of the topology, all clear of child k, and take the first j children. */
  ghost predicate Filled(st: State, topologyId: int, k: nat, j: nat)
    requires k < CHILDREN && j <= k
  {
    && (forall n :: n in st.runtimes ==>
          && n.topologyId == topologyId && 2 <= |n.nodeId| <= j + 1
          && st.runtimes[n].cidr.Cidr? && !st.runtimes[n].cidr.net.Overlaps(Child(k)))
    && (forall i: nat :: i < j ==> Taken(st, i))
  }

  lemma FilledLeavesNode(st: State, topologyId: int, k: nat, j: nat, i: nat)
    requires k < CHILDREN && j <= k && Filled(st, topologyId, k, j) && (i == 0 || j < i)
    ensures NodeAt(topologyId, i) !in st.runtimes
  {
    assert |NodeAt(topologyId, i).nodeId| == i + 1;
  }

  lemma FilledNext(st: State, st': State, topologyId: int, k: nat, j: nat, net: Network)
    requires j < k < CHILDREN && Filled(st, topologyId, k, j)
    requires var n := NodeAt(topologyId, j + 1);
             n in st'.runtimes && st'.runtimes == st.runtimes[n := st'.runtimes[n]] && st'.runtimes[n].cidr == Cidr(net)
    requires NodeAt(topologyId, j + 1) !in st.runtimes && net.Overlaps(Child(j)) && !net.Overlaps(Child(k))
    ensures Filled(st', topologyId, k, j + 1)
  {
    forall i: nat | i < j ensures Taken(st', i) {
      assert Taken(st, i);
      var m :| m in st.runtimes && st.runtimes[m].cidr.Cidr? && st.runtimes[m].cidr.net.Overlaps(Child(i));
      assert st'.runtimes[m] == st.runtimes[m];
    }
    assert Taken(st', j);
    assert |NodeAt(topologyId, j + 1).nodeId| == j + 2;
  }

  /** In a filled state a pool call is given the first child that is not taken. */
  lemma FilledGives(st: State, topologyId: int, k: nat, j: nat, n: NodeKey)
    requires k < CHILDREN && j <= k && Filled(st, topologyId, k, j) && !Taken(st, j)
    requires n.topologyId == topologyId && n !in st.runtimes
    ensures FirstFreeChild(UsedNetworks(st.runtimes, n), n, 0) == Some(Child(j))
  {
    var used := UsedNetworks(st.runtimes, n);
    forall i: nat | i < j ensures OverlapsAny(Child(i), used) {
      assert Taken(st, i);
      var m :| m in st.runtimes && st.runtimes[m].cidr.Cidr? && st.runtimes[m].cidr.net.Overlaps(Child(i));
      assert st.runtimes[m].cidr.net in used;
    }
    FirstFreeAtZero(used, n, j);
  }

  /** From there the first j children are taken one after the other. */
  lemma {:induction false} FillUp(specs: iset<Spec>, topologyId: int, a: Network, k: nat, j: nat) returns (st: State)
    requires Named(specs, a) && Drawn(specs, k) && j <= k
    ensures Reachable(st, specs, topologyId) && Poised(st, 0, NodeAt(topologyId, 0), a) && Filled(st, topologyId, k, j)
    ensures forall i: nat :: j <= i < k ==> Offered(specs, i) || Waiting(st, topologyId, i, k)
    ensures forall c :: c in st.calls ==> c <= k + j
    decreases j
  {
    if j == 0 {
      st := ReadAhead(specs, topologyId, a, k, k);
    } else {
      var st0 := FillUp(specs, topologyId, a, k, j - 1);
      st := TakeOne(specs, topologyId, a, k, j - 1, st0);
    }
  }

  lemma TakeOne(specs: iset<Spec>, topologyId: int, a: Network, k: nat, j: nat, st0: State) returns (st: State)
    requires j < k < CHILDREN && Reachable(st0, specs, topologyId)
    requires Poised(st0, 0, NodeAt(topologyId, 0), a) && Filled(st0, topologyId, k, j)
    requires forall i: nat :: j <= i < k ==> Offered(specs, i) || Waiting(st0, topologyId, i, k)
    requires forall c :: c in st0.calls ==> c <= k + j
    ensures Reachable(st, specs, topologyId) && Poised(st, 0, NodeAt(topologyId, 0), a) && Filled(st, topologyId, k, j + 1)
    ensures forall i: nat :: j < i < k ==> Offered(specs, i) || Waiting(st, topologyId, i, k)
    ensures forall c :: c in st.calls ==> c <= k + j + 1
  {
    if Taken(st0, j) {
      st := st0;
    } else if Offered(specs, j) {
      st := TakeFromPool(specs, topologyId, k, j, st0);
    } else {
      st := TakeNamed(specs, topologyId, k, j, st0);
    }
    forall i: nat | j < i < k ensures Offered(specs, i) || Waiting(st, topologyId, i, k) {
      WaitingStays(st0, st, topologyId, i, k);
    }
  }

  /** Call j + 1 is the only one of the earlier calls that a taking step may change. */
  ghost predicate KeepsOthers(st0: State, st: State, j: nat, last: nat) {
    && (forall c :: c in st0.calls && c != j + 1 ==> c in st.calls && st.calls[c] == st0.calls[c])
    && (forall c :: c in st.calls ==> c in st0.calls || c == last)
  }

  /** A pool call on a filled state stores the first child that is not taken. */
  lemma PoolCall(specs: iset<Spec>, topologyId: int, k: nat, j: nat, c: nat, st0: State) returns (st: State)
    requires j <= k < CHILDREN && Reachable(st0, specs, topologyId) && Filled(st0, topologyId, k, j)
    requires Offered(specs, j) && !Taken(st0, j) && c !in st0.calls
    ensures var n := NodeAt(topologyId, j + 1);
            && Reachable(st, specs, topologyId) && n !in st0.runtimes && n in st.runtimes
            && st.runtimes == st0.runtimes[n := st.runtimes[n]] && st.runtimes[n].cidr == Cidr(Child(j))
    ensures st.calls.Keys == st0.calls.Keys + {c} && forall e :: e in st0.calls ==> st.calls[e] == st0.calls[e]
  {
    var n := NodeAt(topologyId, j + 1);
    FilledLeavesNode(st0, topologyId, k, j, j + 1);
    var s :| s in specs && s.Plan? && s.cidr.NoCidr? && GatewayFits(s.gateway, Child(j));
    FilledGives(st0, topologyId, k, j, n);
    var st1 := StartAndRead(st0, c, n, s, Child(j), specs);
    assert Child(j).Overlaps(Child(j));
    UntakenIsFree(st0, j, n, Child(j));
    st := CommitPoised(st1, c, n, Child(j), specs);
  }

  lemma TakeFromPool(specs: iset<Spec>, topologyId: int, k: nat, j: nat, st0: State) returns (st: State)
    requires j < k < CHILDREN && Reachable(st0, specs, topologyId) && Filled(st0, topologyId, k, j)
    requires Offered(specs, j) && !Taken(st0, j) && forall c :: c in st0.calls ==> c <= k + j
    ensures Reachable(st, specs, topologyId) && Filled(st, topologyId, k, j + 1) && KeepsOthers(st0, st, j, k + j + 1)
  {
    st := PoolCall(specs, topologyId, k, j, k + j + 1, st0);
    ChildApart(j, k);
    FilledNext(st0, st, topologyId, k, j, Child(j));
  }

  lemma TakeNamed(specs: iset<Spec>, topologyId: int, k: nat, j: nat, st0: State) returns (st: State)
    requires j < k < CHILDREN && Reachable(st0, specs, topologyId) && Filled(st0, topologyId, k, j)
    requires Waiting(st0, topologyId, j, k) && !Taken(st0, j)
    ensures Reachable(st, specs, topologyId) && Filled(st, topologyId, k, j + 1) && KeepsOthers(st0, st, j, j + 1)
  {
    var n := NodeAt(topologyId, j + 1);
    FilledLeavesNode(st0, topologyId, k, j, j + 1);
    var b: Network :| Poised(st0, j + 1, n, b) && b.Overlaps(Child(j)) && !b.Overlaps(Child(k));
    UntakenIsFree(st0, j, n, b);
    st := CommitPoised(st0, j + 1, n, b, specs);
    FilledNext(st0, st, topologyId, k, j, b);
  }

  /** A network that takes an untaken child is not stored yet. */
  lemma UntakenIsFree(st: State, j: nat, n: NodeKey, net: Network)
    requires j < CHILDREN && !Taken(st, j) && net.Overlaps(Child(j))
    ensures CidrFree(st.runtimes, n, Cidr(net))
  {
  }

  lemma ChildApart(j: nat, k: nat)
    requires j < CHILDREN && k < CHILDREN && j != k
    ensures Child(j) != Child(k) && !Child(j).Overlaps(Child(k)) && Child(j).Overlaps(Child(j))
  {
    assert Child(j).base != Child(k).base;
    ChildrenAreDisjoint(Child(j), Child(k));
  }

  /** Child k is drawn and stored while the call for the network a still waits. */
  lemma DrawnWhileWaiting(specs: iset<Spec>, topologyId: int, a: Network, k: nat) returns (st: State)
    requires Named(specs, a) && Drawn(specs, k)
    ensures Reachable(st, specs, topologyId) && Poised(st, 0, NodeAt(topologyId, 0), a)
    ensures NodeAt(topologyId, 0) !in st.runtimes && NodeAt(topologyId, k + 1) in st.runtimes
    ensures st.runtimes[NodeAt(topologyId, k + 1)].cidr == Cidr(Child(k))
    ensures forall n :: n in st.runtimes && n != NodeAt(topologyId, k + 1) ==>
              st.runtimes[n].cidr.Cidr? && !st.runtimes[n].cidr.net.Overlaps(Child(k))
  {
    var st0 := FillUp(specs, topologyId, a, k, k);
    FilledLeavesNode(st0, topologyId, k, k, 0);
    NodesDiffer(topologyId, 0, k + 1);
    st := DrawLast(specs, topologyId, k, st0);
  }

  lemma DrawLast(specs: iset<Spec>, topologyId: int, k: nat, st0: State) returns (st: State)
    requires Offered(specs, k) && Reachable(st0, specs, topologyId) && Filled(st0, topologyId, k, k)
    requires forall c :: c in st0.calls ==> c <= k + k
    ensures var n := NodeAt(topologyId, k + 1);
            && Reachable(st, specs, topologyId) && n in st.runtimes && st.runtimes[n].cidr == Cidr(Child(k))
            && st.runtimes == st0.runtimes[n := st.runtimes[n]]
    ensures forall c :: c in st0.calls ==> c in st.calls && st.calls[c] == st0.calls[c]
  {
    assert !Taken(st0, k);
    st := PoolCall(specs, topologyId, k, k, k + k + 1, st0);
  }

  /** A named network and a child it overlaps: its call reads first, then the child is drawn, then both are stored. */
  lemma NamedMeetsChild(specs: iset<Spec>, topologyId: int, a: Network, k: nat)
    requires Named(specs, a) && Drawn(specs, k) && a != Child(k) && a.Overlaps(Child(k))
    ensures exists st :: Reachable(st, specs, topologyId) && !Disjoint(st, topologyId)
  {
    var m, n := NodeAt(topologyId, 0), NodeAt(topologyId, k + 1);
    var st := DrawnWhileWaiting(specs, topologyId, a, k);
    var st' := CommitPoised(st, 0, m, a, specs);
    assert st'.runtimes[n] == st.runtimes[n];
    assert !Disjoint(st', topologyId);
  }

  /** The CIDRs of a topology stay disjoint in every interleaving if and only if no two different networks that its
      specs may bring overlap. */
  lemma DisjointExactly(specs: iset<Spec>, topologyId: int)
    ensures (forall st :: Reachable(st, specs, topologyId) ==> Disjoint(st, topologyId)) <==> NeverMeet(specs)
  {
    if NeverMeet(specs) {
      forall st | Reachable(st, specs, topologyId) ensures Disjoint(st, topologyId) {
        ReachableIsDisjoint(st, specs, topologyId);
      }
    } else {
      var a: Network, b: Network :| MayBring(specs, a) && MayBring(specs, b) && a != b && a.Overlaps(b);
      MeetingIsReached(specs, topologyId, a, b);
    }
  }

  lemma MeetingIsReached(specs: iset<Spec>, topologyId: int, a: Network, b: Network)
    requires MayBring(specs, a) && MayBring(specs, b) && a != b && a.Overlaps(b)
    ensures exists st :: Reachable(st, specs, topologyId) && !Disjoint(st, topologyId)
  {
    if Named(specs, a) && Named(specs, b) {
      NamedPairMeets(specs, topologyId, a, b);
    } else if Named(specs, a) {
      var k: nat :| k < CHILDREN && b == Child(k) && Drawn(specs, k);
      NamedMeetsChild(specs, topologyId, a, k);
    } else {
      var j: nat :| j < CHILDREN && a == Child(j) && Drawn(specs, j);
      if Named(specs, b) {
        NamedMeetsChild(specs, topologyId, b, j);
      } else {
        ChildrenAreDisjoint(a, b);
      }
    }
  }

  /** So a topology whose spec is not edited never stores overlapping CIDRs. */
  lemma UneditedSpecStaysDisjoint(spec: Spec, topologyId: int)
    ensures forall st :: Reachable(st, iset{spec}, topologyId) ==> Disjoint(st, topologyId)
  {
    forall a: Network, b: Network | MayBring(iset{spec}, a) && MayBring(iset{spec}, b) && a != b ensures !a.Overlaps(b) {
      if !Named(iset{spec}, a) && !Named(iset{spec}, b) {
        ChildrenAreDisjoint(a, b);
      }
    }
    DisjointExactly(iset{spec}, topologyId);
  }

  lemma OneNamedMeets(specs: iset<Spec>, net: Network)
    requires Named(specs, net) && forall a: Network :: Named(specs, a) ==> a == net
    requires forall k: nat :: k < CHILDREN ==> Drawn(specs, k)
    ensures NeverMeet(specs) <==> IsChild(net) || forall k: nat :: k < CHILDREN ==> !net.Overlaps(Child(k))
  {
    if IsChild(net) || forall k: nat :: k < CHILDREN ==> !net.Overlaps(Child(k)) {
      forall a: Network, b: Network | MayBring(specs, a) && MayBring(specs, b) && a != b ensures !a.Overlaps(b) {
        if IsChild(a) && IsChild(b) {
          ChildrenAreDisjoint(a, b);
        }
      }
    } else {
      var k: nat :| k < CHILDREN && net.Overlaps(Child(k));
      assert MayBring(specs, Child(k)) && MayBring(specs, net) && net != Child(k);
    }
  }

  /** And a pool spec that leaves the gateway open, together with a spec that names a network, is safe only if the
      network avoids the pool or is one of its children. */
  lemma PoolAndNamed(pool: Spec, named: Spec, net: Network, topologyId: int)
    requires pool.Plan? && pool.cidr.NoCidr? && pool.gateway.NoAddr?
    requires named.Plan? && named.cidr == Cidr(net) && GatewayFits(named.gateway, net)
    ensures (forall st :: Reachable(st, iset{pool, named}, topologyId) ==> Disjoint(st, topologyId))
            <==> IsChild(net) || forall k: nat :: k < CHILDREN ==> !net.Overlaps(Child(k))
  {
    var specs := iset{pool, named};
    assert pool in specs && named in specs;
    assert Named(specs, net);
    forall k: nat | k < CHILDREN ensures Drawn(specs, k) {
      assert Offered(specs, k) && forall j: nat :: j < k ==> Offered(specs, j);
    }
    assert forall a: Network :: Named(specs, a) ==> a == net;
    DisjointExactly(specs, topologyId);
    OneNamedMeets(specs, net);
  }
}
