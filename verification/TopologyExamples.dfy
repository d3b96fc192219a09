/** Concrete runs that show where the adapter falls short of what one would expect of it. */
module TopologyExamples {
  import opened Wrappers
  import opened Ipv4
  import opened Text
  import opened HostPool
  import opened TopologyTables
  import opened SubnetPool
  import opened TopologySteps
  import opened JanitorSteps
  import opened TopologyRuns
  import opened TopologyHealth

  const NODE := NodeKey(1, "a")
  const WORKSPACE := WorkspaceKey(NODE, 7)

  /** 0.0.0.`base`/31, a network of two usable hosts of which the first becomes the gateway. */
  function PairNet(base: nat): (net: Network)
    requires base == 0 || base == 2
    ensures net.Size() == 2 && net.Hosts() == [base, base + 1]
  {
    assert Pow2(1) == 2;
    Network(base, 1)
  }

  function EnsureWith(base: nat): Step
    requires base == 0 || base == 2
  {
    Ensure(NODE, EnsureEnv(Plan(Cidr(PairNet(base)), NoAddr, "br"), 0, true, true, true))
  }

  function RuntimeWith(base: nat): Runtime
    requires base == 0 || base == 2
  {
    Runtime(Ready, "br", Cidr(PairNet(base)), Addr(base))
  }

  lemma EnsureCreates(cfg: Config, t: Tables, base: nat)
    requires base == 0 || base == 2
    requires t.runtimes == map[]
    ensures Next(cfg, t, EnsureWith(base)) == t.(runtimes := map[NODE := RuntimeWith(base)])
  {
    assert UsedNetworks(t.runtimes, NODE) == {};
  }

  lemma CandidatesOfPair(base: nat)
    requires base == 0 || base == 2
    ensures Candidates(PairNet(base), base) == [base + 1]
  {
    var hs := PairNet(base).Hosts();
    assert hs[..1] == [base] && hs[..1][..0] == [];
    assert Without(hs[..1], base) == [];
  }

  lemma AllocateGrants(t: Tables)
    requires t.runtimes == map[NODE := RuntimeWith(0)] && t.leases == map[]
    ensures AllocateStep(t, WORKSPACE, AllocateEnv(0, true)).0 == map[WORKSPACE := Lease(1, true)]
  {
    CandidatesOfPair(0);
    assert LeasedIps(t.leases, NODE) == {};
    PickAtZeroKeepsOrder([1], {}, 0);
    assert PickedIp(t.runtimes, t.leases, WORKSPACE, 0) == Returned(1);
  }

  /** Deleting a topology keeps its leases. When the node comes back with another CIDR, a workspace is stuck with its
      old address although the runtime is READY and has a free host: allocate returns the lease, attach refuses it. */
  lemma DeleteStrandsLease(cfg: Config)
    ensures var steps := [EnsureWith(0), Allocate(WORKSPACE, AllocateEnv(0, true)), Delete(NODE, DeleteEnv(true, true)),
                          EnsureWith(2)];
            var empty := Tables(map[], map[], map[]);
            var t := Run(cfg, empty, steps);
            && LegalRun(cfg, empty, steps)
            && NODE in t.runtimes && t.runtimes[NODE] == RuntimeWith(2) && HasFreeHost(t, NODE)
            && !Servable(t, WORKSPACE)
  {
    var empty := Tables(map[], map[], map[]);
    var s1, s2, s3, s4 := EnsureWith(0), Allocate(WORKSPACE, AllocateEnv(0, true)), Delete(NODE, DeleteEnv(true, true)),
      EnsureWith(2);
    var t1 := empty.(runtimes := map[NODE := RuntimeWith(0)]);
    EnsureCreates(cfg, empty, 0);
    var t2 := t1.(leases := map[WORKSPACE := Lease(1, true)]);
    AllocateGrants(t1);
    var t3 := t2.(runtimes := map[]);
    assert t2.runtimes - {NODE} == map[] && WithoutNode(t2.attachments, NODE) == map[];
    assert Next(cfg, t2, s3) == t3;
    var t4 := t3.(runtimes := map[NODE := RuntimeWith(2)]);
    EnsureCreates(cfg, t3, 2);
    FourSteps(cfg, empty, t1, t2, t3, t4, s1, s2, s3, s4);
    Stranded(t4);
  }

  lemma Stranded(t: Tables)
    requires t.runtimes == map[NODE := RuntimeWith(2)] && t.leases == map[WORKSPACE := Lease(1, true)]
    ensures HasFreeHost(t, NODE) && !Servable(t, WORKSPACE)
  {
    CandidatesOfPair(2);
    assert LeasedIps(t.leases, NODE) == {1} by {
      assert WORKSPACE in t.leases && t.leases[WORKSPACE].ip == 1;
      assert forall k :: k in t.leases ==> k == WORKSPACE;
    }
    assert 3 in Candidates(PairNet(2), 2);
  }

  lemma FourSteps(
    cfg: Config, t0: Tables, t1: Tables, t2: Tables, t3: Tables, t4: Tables, s1: Step, s2: Step, s3: Step, s4: Step)
    requires Next(cfg, t0, s1) == t1 && Next(cfg, t1, s2) == t2 && Next(cfg, t2, s3) == t3 && Next(cfg, t3, s4) == t4
    requires Legal(cfg, t0, s1) && Legal(cfg, t1, s2) && Legal(cfg, t2, s3) && Legal(cfg, t3, s4)
    ensures Run(cfg, t0, [s1, s2, s3, s4]) == t4 && LegalRun(cfg, t0, [s1, s2, s3, s4])
  {
    var steps := [s1, s2, s3, s4];
    assert steps[1..] == [s2, s3, s4] && [s2, s3, s4][1..] == [s3, s4] && [s3, s4][1..] == [s4] && [s4][1..] == [];
    OneStepFirst(cfg, t3, t4, s4, []);
    OneStepFirst(cfg, t2, t3, s3, [s4]);
    OneStepFirst(cfg, t1, t2, s2, [s3, s4]);
    OneStepFirst(cfg, t0, t1, s1, [s2, s3, s4]);
    assert [s4] + [] == [s4] && [s3] + [s4] == [s3, s4] && [s2] + [s3, s4] == [s2, s3, s4];
    assert [s1] + [s2, s3, s4] == steps;
  }

  lemma OneStepFirst(cfg: Config, t: Tables, t': Tables, s: Step, later: seq<Step>)
    requires Next(cfg, t, s) == t' && Legal(cfg, t, s)
    ensures Run(cfg, t, [s] + later) == Run(cfg, t', later)
    ensures LegalRun(cfg, t, [s] + later) <==> LegalRun(cfg, t', later)
  {
    assert ([s] + later)[0] == s && ([s] + later)[1..] == later;
  }

  /** The one way an attach call breaks soundness does occur: the row stays ATTACHED and its lease is free for others.
      */
  lemma AttachCanLoseItsLease()
    ensures var cfg := Config(false, true);
            var t := Tables(map[NODE := RuntimeWith(0)], map[WORKSPACE := Lease(1, true)], map[]);
            var req := AttachRequest("c", true, 1);
            var env := AttachEnv(EnsureEnv(Plan(NoCidr, NoAddr, "br"), 0, true, true, true), Clean, true, WiringDone, true,
                                 Mismatch, false, true, 0);
            && Sound(t) && LosesLease(cfg, t, WORKSPACE, req, env)
            && IsAttached(AttachStep(cfg, t, WORKSPACE, req, env).0, WORKSPACE)
            && !ActiveLease(AttachStep(cfg, t, WORKSPACE, req, env).0.leases, WORKSPACE)
  {
    var t := Tables(map[NODE := RuntimeWith(0)], map[WORKSPACE := Lease(1, true)], map[]);
    assert Sound(t);
    TrimmedIsFixed("c");
    assert Cleaned("c") == "c";
    assert t.runtimes[NODE := RuntimeWith(0)] == t.runtimes;
  }
}
