/** The rows of the topology database and its uniqueness constraints. */
module TopologyTables {
  import opened Ipv4

  /** A stored or configured CIDR: unset, text that is no IPv4 network, or a network. */
  datatype CidrField = NoCidr | BadCidr(text: string) | Cidr(net: Network)

  /** A stored or configured address: unset, text that is no IPv4 address, or an address. */
  datatype AddrField = NoAddr | BadAddr(text: string) | Addr(ip: nat)

  datatype RuntimeStatus = Ready | Degraded | RuntimeFailed | Deleting

  datatype AttachmentStatus = Attaching | Attached | Detaching | Detached | Failed

  datatype NodeKey = NodeKey(topologyId: int, nodeId: string)

  datatype WorkspaceKey = WorkspaceKey(node: NodeKey, workspaceId: int)

  /** A `TopologyRuntime` row; an empty bridge name is an unset one. */
  datatype Runtime = Runtime(status: RuntimeStatus, bridge: string, cidr: CidrField, gateway: AddrField) {

    predicate Complete() {
      bridge != "" && !cidr.NoCidr? && !gateway.NoAddr?
    }
  }

  /** An `IpAllocation` row; it is active while `released_at` is null. */
  datatype Lease = Lease(ip: nat, active: bool)

  /** A `TopologyAttachment` row; an empty container id is an unset one. */
  datatype Attachment = Attachment(
    status: AttachmentStatus,
    containerId: string,
    workspaceIp: AddrField,
    bridge: string,
    gateway: AddrField,
    updatedAt: int)

  datatype Tables = Tables(
    runtimes: map<NodeKey, Runtime>,
    leases: map<WorkspaceKey, Lease>,
    attachments: map<WorkspaceKey, Attachment>)

  /** uq_topology_runtime_topology_cidr: no other node of the topology stores this CIDR. Nulls do not clash. */
  predicate CidrFree(runtimes: map<NodeKey, Runtime>, n: NodeKey, cidr: CidrField) {
    cidr.NoCidr?
    || forall m :: m in runtimes && m != n && m.topologyId == n.topologyId ==> runtimes[m].cidr != cidr
  }

  /** uq_ip_allocation_active_topology_node_ip: no other active lease of the node holds this address. */
  predicate IpFree(leases: map<WorkspaceKey, Lease>, k: WorkspaceKey, ip: nat) {
    forall j :: j in leases && j != k && j.node == k.node && leases[j].active ==> leases[j].ip != ip
  }

  ghost predicate ConstraintsHold(t: Tables) {
    && (forall n :: n in t.runtimes ==> CidrFree(t.runtimes, n, t.runtimes[n].cidr))
    && (forall k :: k in t.leases && t.leases[k].active ==> IpFree(t.leases, k, t.leases[k].ip))
  }

  predicate ActiveLease(leases: map<WorkspaceKey, Lease>, k: WorkspaceKey) {
    k in leases && leases[k].active
  }

  /** The table after `released_at` is set on the active lease of k, if there is one. */
  function Released(leases: map<WorkspaceKey, Lease>, k: WorkspaceKey): map<WorkspaceKey, Lease> {
    if ActiveLease(leases, k) then leases[k := leases[k].(active := false)] else leases
  }

  /** Addresses actively leased on a node. */
  function LeasedIps(leases: map<WorkspaceKey, Lease>, n: NodeKey): set<nat> {
    set k | k in leases && k.node == n && leases[k].active :: leases[k].ip
  }

  /** `sum(map(ord, node_id))`, the spreading term of the retry offsets. */
  function OrdinalSum(s: string): nat {
    if s == "" then 0 else s[0] as int + OrdinalSum(s[1..])
  }

  lemma {:induction false} OrdinalSumJoins(a: string, b: string)
    ensures OrdinalSum(a + b) == OrdinalSum(a) + OrdinalSum(b)
    ensures forall c: char :: OrdinalSum([c]) == c as int
  {
    forall c: char ensures OrdinalSum([c]) == c as int {
      assert [c][1..] == "";
    }
    if a == "" {
      assert a + b == b;
    } else {
      assert (a + b)[1..] == a[1..] + b;
      OrdinalSumJoins(a[1..], b);
    }
  }
}
