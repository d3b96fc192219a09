/** Facts about single steps, used by the adapter's methods and by the theorems about runs. */
module TopologyFacts {
  import opened HostPool
  import opened TopologyTables
  import opened TopologySteps

  /** A picked address is a host of the runtime's network that no active lease of the node holds. */
  lemma PickedIpIsFree(
    runtimes: map<NodeKey, Runtime>, leases: map<WorkspaceKey, Lease>, k: WorkspaceKey, retryIndex: nat)
    requires AllocateRefusal(runtimes, k.node).None?
    requires PickedIp(runtimes, leases, k, retryIndex).Returned?
    ensures var ip := PickedIp(runtimes, leases, k, retryIndex).value;
            && IpFree(leases, k, ip)
            && runtimes[k.node].cidr.Cidr? && runtimes[k.node].gateway.Addr?
            && runtimes[k.node].cidr.net.UsableHost(ip) && ip != runtimes[k.node].gateway.ip
            && ip in Candidates(runtimes[k.node].cidr.net, runtimes[k.node].gateway.ip)
  {
    var ip := PickedIp(runtimes, leases, k, retryIndex).value;
    var net, g := runtimes[k.node].cidr.net, runtimes[k.node].gateway.ip;
    CandidatesAreUsableHosts(net, g);
    forall j | j in leases && j != k && j.node == k.node && leases[j].active ensures leases[j].ip != ip {
      assert leases[j].ip in LeasedIps(leases, k.node);
    }
  }

  lemma LeaseKeepsConstraints(t: Tables, k: WorkspaceKey, ip: nat)
    requires ConstraintsHold(t) && IpFree(t.leases, k, ip)
    ensures ConstraintsHold(t.(leases := t.leases[k := Lease(ip, true)]))
  {
  }
}
