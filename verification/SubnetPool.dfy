/** Which CIDR and gateway a node runtime gets. */
module SubnetPool {
  import opened Wrappers
  import opened Ipv4
  import opened Rotation
  import opened TopologyTables

  /** The parent pool 10.128.0.0/9, cut into /20 children. */
  const POOL_BASE: nat := 0x0A80_0000
  const CHILD_HOST_BITS: nat := 12
  const CHILD_SIZE: nat := 4096
  const CHILDREN: nat := 2048

  type BridgeName = s: string | s != "" witness "dn0"

  /** What the topology row asks for: nothing usable, or an optional CIDR, an optional gateway and a bridge name. */
  datatype Spec = NoTopology | UnsupportedMode | Plan(cidr: CidrField, gateway: AddrField, bridge: BridgeName)

  datatype ChoiceError = CannotChoose

  function Child(k: nat): (net: Network)
    requires k < CHILDREN
    ensures net.Size() == CHILD_SIZE && net.base == POOL_BASE + k * CHILD_SIZE
  {
    assert Pow2(4) == 16 by { Pow2Grows(4, 4); }
    assert Pow2(8) == 256;
    assert Pow2(12) == 4096;
    Network(POOL_BASE + k * CHILD_SIZE, CHILD_HOST_BITS)
  }

  ghost predicate IsChild(net: Network) {
    exists k: nat :: k < CHILDREN && net == Child(k)
  }

  /** The children are the /20 networks from 10.128.0.0 to 10.255.240.0. */
  lemma ChildrenExactly(net: Network)
    ensures IsChild(net) <==> net.hostBits == 12 && 0x0A80_0000 <= net.base <= 0x0AFF_F000
  {
    assert Child(0).Size() == CHILD_SIZE;
    if net.hostBits == 12 && 0x0A80_0000 <= net.base <= 0x0AFF_F000 {
      var k := (net.base - POOL_BASE) / CHILD_SIZE;
      assert net.Size() == CHILD_SIZE;
      assert k < CHILDREN && net == Child(k);
    }
  }

  /** Aligned children of one size are equal or share nothing. */
  lemma ChildrenAreDisjoint(m: Network, n: Network)
    requires IsChild(m) && IsChild(n) && m != n
    ensures !m.Overlaps(n)
    ensures forall a: int :: !(m.Contains(a) && n.Contains(a))
  {
    var j: nat :| j < CHILDREN && m == Child(j);
    var k: nat :| k < CHILDREN && n == Child(k);
    OverlapsMeansShared(m, n);
  }

  predicate OverlapsAny(net: Network, used: set<Network>) {
    exists u :: u in used && net.Overlaps(u)
  }

  /** Parsed CIDRs of the other nodes of the topology; malformed ones are ignored. */
  function UsedNetworks(runtimes: map<NodeKey, Runtime>, n: NodeKey): set<Network> {
    set m | m in runtimes && m.topologyId == n.topologyId && m != n && runtimes[m].cidr.Cidr? :: runtimes[m].cidr.net
  }

  function FreeChild(used: set<Network>): nat -> bool {
    (k: nat) => k < CHILDREN && !OverlapsAny(Child(k), used)
  }

  function ScanStart(n: NodeKey, retryIndex: nat): (start: nat)
    ensures start < CHILDREN
  {
    if retryIndex == 0 then 0 else (retryIndex * 7919 + n.topologyId * 17 + OrdinalSum(n.nodeId)) % CHILDREN
  }

  function FirstFreeChild(used: set<Network>, n: NodeKey, retryIndex: nat): (r: Option<Network>) {
    match Scan(CHILDREN, ScanStart(n, retryIndex), FreeChild(used), 0)
    case None => None
    case Some(k) => Some(Child(k))
  }

  lemma ChildScanStep(used: set<Network>, start: nat, k: nat)
    requires start < CHILDREN && k < CHILDREN
    ensures var i := At(CHILDREN, start, k);
            Scan(CHILDREN, start, FreeChild(used), k)
            == if OverlapsAny(Child(i), used) then Scan(CHILDREN, start, FreeChild(used), k + 1) else Some(i)
  {
    ScanStep(CHILDREN, start, FreeChild(used), k);
  }

  method AllocateChildSubnet(used: set<Network>, n: NodeKey, retryIndex: nat) returns (r: Option<Network>)
    ensures r == FirstFreeChild(used, n, retryIndex)
  {
    var start := ScanStart(n, retryIndex);
    var k := 0;
    while k < CHILDREN
      invariant k <= CHILDREN
      invariant Scan(CHILDREN, start, FreeChild(used), 0) == Scan(CHILDREN, start, FreeChild(used), k)
    {
      ChildScanStep(used, start, k);
      var child := Child(At(CHILDREN, start, k));
      if !OverlapsAny(child, used) {
        return Some(child);
      }
      k := k + 1;
    }
    r := None;
  }

  /** The allocator gives a pool child free of overlaps, and fails only when each child is overlapped. */
  lemma FirstFreeChildIsFree(used: set<Network>, n: NodeKey, retryIndex: nat)
    ensures var r := FirstFreeChild(used, n, retryIndex);
            && (r.Some? ==> IsChild(r.value) && !OverlapsAny(r.value, used))
            && (r.None? <==> forall k: nat :: k < CHILDREN ==> OverlapsAny(Child(k), used))
  {
    var free := FreeChild(used);
    assert forall k: nat :: k < CHILDREN ==> free(k) == !OverlapsAny(Child(k), used);
    ScanFindsFirstFree(CHILDREN, ScanStart(n, retryIndex), free);
  }

  /** A first attempt takes the first child of the pool that is free of overlaps. */
  lemma FirstFreeAtZero(used: set<Network>, n: NodeKey, k: nat)
    requires k < CHILDREN
    ensures FirstFreeChild(used, n, 0) == Some(Child(k))
            <==> !OverlapsAny(Child(k), used) && forall j: nat :: j < k ==> OverlapsAny(Child(j), used)
  {
    var free := FreeChild(used);
    assert forall j: nat :: j < CHILDREN ==> free(j) == !OverlapsAny(Child(j), used);
    ScanFindsFirstFree(CHILDREN, 0, free);
    var r := Scan(CHILDREN, 0, free, 0);
    assert forall j: nat :: j < CHILDREN ==> ProbeOf(CHILDREN, 0, j) == j;
    if r.Some? && r.value != k {
      assert Child(r.value).base != Child(k).base;
    }
  }

  lemma {:induction false} Pow2Sum(a: nat, b: nat)
    ensures Pow2(a) * Pow2(b) == Pow2(a + b)
  {
    if a > 0 {
      Pow2Sum(a - 1, b);
      assert Pow2(a + b) == 2 * Pow2(a + b - 1);
    }
  }

  lemma MulAssociates(x: nat, y: nat, z: nat)
    ensures x * (y * z) == (x * y) * z
  {
  }

  lemma BlockStart(size: nat, m: nat, b: nat)
    requires size * m == CHILD_SIZE
    ensures size * b == CHILD_SIZE * (b / m) + size * (b % m) && size * (b % m) <= CHILD_SIZE - size
  {
    var c, d := b / m, b % m;
    assert b == m * c + d;
    assert size * (m * c + d) == size * (m * c) + size * d;
    MulAssociates(size, m, c);
    assert size * d <= size * (m - 1);
  }

  /** An aligned block no larger than a child lies between two multiples of the child size. */
  lemma AlignedBlock(base: nat, size: nat, m: nat, a: nat)
    requires size * m == CHILD_SIZE && base % size == 0 && base <= a < base + size
    ensures base / CHILD_SIZE == a / CHILD_SIZE
  {
    Multiple(base, size);
    BlockStart(size, m, base / size);
  }

  lemma Multiple(a: nat, size: nat)
    requires size > 0 && a % size == 0
    ensures a == size * (a / size)
  {
  }

  /** A network no larger than a child overlaps one child at most. */
  lemma SmallOverlapsOne(net: Network, j: nat, k: nat)
    requires net.hostBits <= CHILD_HOST_BITS && j < CHILDREN && k < CHILDREN
    requires net.Overlaps(Child(j)) && net.Overlaps(Child(k))
    ensures j == k
  {
    Pow2Sum(net.hostBits, CHILD_HOST_BITS - net.hostBits);
    assert Child(0).Size() == CHILD_SIZE;
    var m := Pow2(CHILD_HOST_BITS - net.hostBits);
    OverlapsMeansShared(net, Child(j));
    OverlapsMeansShared(net, Child(k));
    var a: int :| net.Contains(a) && Child(j).Contains(a);
    var b: int :| net.Contains(b) && Child(k).Contains(b);
    AlignedBlock(net.base, net.Size(), m, a);
    AlignedBlock(net.base, net.Size(), m, b);
    ChildOf(j, a);
    ChildOf(k, b);
  }

  lemma ChildOf(k: nat, a: int)
    requires k < CHILDREN && Child(k).Contains(a)
    ensures a / CHILD_SIZE == POOL_BASE / CHILD_SIZE + k
  {
  }

  lemma {:induction false} ChildrenCount(k: nat, used: set<Network>)
    requires k <= CHILDREN && forall u :: u in used ==> u.hostBits <= CHILD_HOST_BITS
    requires forall j: nat :: j < k ==> OverlapsAny(Child(j), used)
    ensures k <= |used|
  {
    if k > 0 {
      var u :| u in used && Child(k - 1).Overlaps(u);
      forall j: nat | j < k - 1 ensures OverlapsAny(Child(j), used - {u}) {
        var v :| v in used && Child(j).Overlaps(v);
        if v == u {
          SmallOverlapsOne(u, j, k - 1);
        }
      }
      ChildrenCount(k - 1, used - {u});
    }
  }

  /** While the other nodes hold fewer networks than the pool has children, none larger than a child, a node can always
      be served. */
  lemma PoolServesUntilFull(used: set<Network>, n: NodeKey, retryIndex: nat)
    requires forall u :: u in used ==> u.hostBits <= CHILD_HOST_BITS
    ensures |used| < CHILDREN ==> FirstFreeChild(used, n, retryIndex).Some?
  {
    FirstFreeChildIsFree(used, n, retryIndex);
    if FirstFreeChild(used, n, retryIndex).None? {
      ChildrenCount(CHILDREN, used);
    }
  }

  /** The parent pool as one network. */
  function Pool(): (net: Network)
    ensures net.base == POOL_BASE && net.Size() == CHILDREN * CHILD_SIZE
  {
    assert Pow2(11) == 2048;
    Pow2Sum(11, CHILD_HOST_BITS);
    assert Child(0).Size() == CHILD_SIZE;
    Network(POOL_BASE, 23)
  }

  /** A larger network can use the pool up alone. */
  lemma OneNetworkFillsPool(n: NodeKey, retryIndex: nat)
    ensures FirstFreeChild({Pool()}, n, retryIndex) == None
  {
    FirstFreeChildIsFree({Pool()}, n, retryIndex);
    forall k: nat | k < CHILDREN ensures OverlapsAny(Child(k), {Pool()}) {
      assert Pool().Contains(Child(k).base);
      assert Child(k).Overlaps(Pool());
    }
  }

  function FirstUsableHost(net: Network): (h: nat)
    ensures net.Contains(h)
  {
    HostCount(net);
    net.Hosts()[0]
  }

  /** The gateway a spec asks for, if it lies in the network; the first usable host when it asks for none. */
  function GatewayFor(net: Network, wanted: AddrField): (r: Outcome<(Network, nat), ChoiceError>) {
    match wanted
    case NoAddr => Returned((net, FirstUsableHost(net)))
    case BadAddr(_) => Raised(CannotChoose)
    case Addr(g) => if net.Contains(g) then Returned((net, g)) else Raised(CannotChoose)
  }

  /** CIDR and gateway of a runtime: the stored CIDR, else the one of the spec, else a child of the pool. */
  function ChooseCidrAndGateway(
    runtimes: map<NodeKey, Runtime>, n: NodeKey, existing: Option<Runtime>, spec: Spec, retryIndex: nat
  ): (r: Outcome<(Network, nat), ChoiceError>)
    requires spec.Plan?
  {
    if existing.Some? && !existing.value.cidr.NoCidr? then
      match existing.value.cidr
      case BadCidr(_) => Raised(CannotChoose)
      case Cidr(net) => GatewayFor(net, existing.value.gateway)
    else
      var used := UsedNetworks(runtimes, n);
      match spec.cidr
      case BadCidr(_) => Raised(CannotChoose)
      case Cidr(net) =>
        if OverlapsAny(net, used) then Raised(CannotChoose) else GatewayFor(net, spec.gateway)
      case NoCidr =>
        match FirstFreeChild(used, n, retryIndex)
        case None => Raised(CannotChoose)
        case Some(net) => GatewayFor(net, spec.gateway)
  }

  /** The row written for a choice: a new one, or the stored one with its unset fields filled. */
  function FilledRow(existing: Option<Runtime>, spec: Spec, net: Network, gateway: nat): (row: Runtime)
    requires spec.Plan?
    ensures row.Complete()
  {
    match existing
    case None => Runtime(Ready, spec.bridge, Cidr(net), Addr(gateway))
    case Some(e) => Runtime(
        e.status,
        if e.bridge == "" then spec.bridge else e.bridge,
        if e.cidr.NoCidr? then Cidr(net) else e.cidr,
        if e.gateway.NoAddr? then Addr(gateway) else e.gateway)
  }

  /** A chosen gateway lies in the chosen network, which keeps a stored CIDR and else avoids all other nodes. */
  lemma ChoiceIsSound(
    runtimes: map<NodeKey, Runtime>, n: NodeKey, existing: Option<Runtime>, spec: Spec, retryIndex: nat)
    requires spec.Plan?
    requires ChooseCidrAndGateway(runtimes, n, existing, spec, retryIndex).Returned?
    ensures var (net, gateway) := ChooseCidrAndGateway(runtimes, n, existing, spec, retryIndex).value;
            && net.Contains(gateway)
            && (if existing.Some? && !existing.value.cidr.NoCidr? then existing.value.cidr == Cidr(net)
                else !OverlapsAny(net, UsedNetworks(runtimes, n)) && CidrFree(runtimes, n, Cidr(net))
                     && (spec.cidr.NoCidr? ==> IsChild(net)) && (spec.cidr.Cidr? ==> net == spec.cidr.net))
  {
    var (net, gateway) := ChooseCidrAndGateway(runtimes, n, existing, spec, retryIndex).value;
    if existing.None? || existing.value.cidr.NoCidr? {
      NewChoiceIsSound(runtimes, n, spec, retryIndex, net, gateway);
    }
  }

  lemma NewChoiceIsSound(
    runtimes: map<NodeKey, Runtime>, n: NodeKey, spec: Spec, retryIndex: nat, net: Network, gateway: nat)
    requires spec.Plan? && ChooseCidrAndGateway(runtimes, n, None, spec, retryIndex) == Returned((net, gateway))
    ensures net.Contains(gateway) && !OverlapsAny(net, UsedNetworks(runtimes, n)) && CidrFree(runtimes, n, Cidr(net))
    ensures (spec.cidr.NoCidr? ==> IsChild(net)) && (spec.cidr.Cidr? ==> net == spec.cidr.net)
  {
    FirstFreeChildIsFree(UsedNetworks(runtimes, n), n, retryIndex);
    ClearIsFree(runtimes, n, net);
  }

  /** A network clear of all other nodes' networks is stored by none of them. */
  lemma ClearIsFree(runtimes: map<NodeKey, Runtime>, n: NodeKey, net: Network)
    ensures !OverlapsAny(net, UsedNetworks(runtimes, n)) ==> CidrFree(runtimes, n, Cidr(net))
  {
    assert net.Overlaps(net);
    if !OverlapsAny(net, UsedNetworks(runtimes, n)) {
      forall m | m in runtimes && m != n && m.topologyId == n.topologyId && runtimes[m].cidr.Cidr?
        ensures !net.Overlaps(runtimes[m].cidr.net)
      {
        assert runtimes[m].cidr.net in UsedNetworks(runtimes, n);
      }
    }
  }
}
