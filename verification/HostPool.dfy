/** Which address a workspace may lease: candidate hosts of a runtime CIDR and the scan for a free one. */
module HostPool {
  import opened Wrappers
  import opened Ipv4
  import opened Rotation

  const INFRA_RESERVED_USABLE_HOSTS: nat := 10

  /** `hs` without the gateway. */
  function Without(hs: seq<nat>, gateway: int): (r: seq<nat>)
    ensures forall h :: h in r <==> h in hs && h != gateway
  {
    if hs == [] then []
    else
      var last := hs[|hs| - 1];
      Without(hs[..|hs| - 1], gateway) + if last == gateway then [] else [last]
  }

  /** The candidates among the usable hosts: past the infra reservation, or all of them when there are too few. */
  function CandidatesAmong(hosts: seq<nat>, gateway: int): (hs: seq<nat>) {
    Without(if |hosts| <= INFRA_RESERVED_USABLE_HOSTS then hosts else hosts[INFRA_RESERVED_USABLE_HOSTS..], gateway)
  }

  function Candidates(net: Network, gateway: int): (hs: seq<nat>) {
    CandidatesAmong(net.Hosts(), gateway)
  }

  lemma WithoutNext(hosts: seq<nat>, from: nat, i: nat, gateway: int)
    requires from <= i < |hosts|
    ensures Without(hosts[from..i + 1], gateway)
            == if hosts[i] == gateway then Without(hosts[from..i], gateway)
               else Without(hosts[from..i], gateway) + [hosts[i]]
  {
    assert hosts[from..i + 1][..i - from] == hosts[from..i];
    assert hosts[from..i + 1][i - from] == hosts[i];
  }

  method IterCandidateWorkspaceHosts(net: Network, gateway: int) returns (out: seq<nat>)
    ensures out == Candidates(net, gateway)
  {
    HostCount(net);
    var hosts := net.Hosts();
    out := PastReservation(hosts, gateway);
    if out == [] && 0 < |hosts| <= INFRA_RESERVED_USABLE_HOSTS {
      out := AllButGateway(hosts, gateway);
    }
  }

  lemma UpToTheEnd<T>(hosts: seq<T>, from: nat)
    ensures from <= |hosts| ==> hosts[from..|hosts|] == hosts[from..]
  {
  }

  method PastReservation(hosts: seq<nat>, gateway: int) returns (out: seq<nat>)
    ensures out == if |hosts| <= INFRA_RESERVED_USABLE_HOSTS then []
                   else Without(hosts[INFRA_RESERVED_USABLE_HOSTS..], gateway)
  {
    var skip := INFRA_RESERVED_USABLE_HOSTS;
    out := [];
    var usableIdx := 0;
    while usableIdx < |hosts|
      invariant usableIdx <= |hosts|
      invariant out == if usableIdx <= skip then [] else Without(hosts[skip..usableIdx], gateway)
    {
      var h := hosts[usableIdx];
      if usableIdx >= skip {
        WithoutNext(hosts, skip, usableIdx, gateway);
      }
      usableIdx := usableIdx + 1;
      if h == gateway {
        continue;
      }
      if usableIdx <= skip {
        continue;
      }
      out := out + [h];
    }
    UpToTheEnd(hosts, skip);
  }

  /** The small-CIDR fallback. */
  method AllButGateway(hosts: seq<nat>, gateway: int) returns (out: seq<nat>)
    ensures out == Without(hosts, gateway)
  {
    out := [];
    var i := 0;
    while i < |hosts|
      invariant i <= |hosts|
      invariant out == Without(hosts[0..i], gateway)
    {
      WithoutNext(hosts, 0, i, gateway);
      if hosts[i] != gateway {
        out := out + [hosts[i]];
      }
      i := i + 1;
    }
    assert hosts[0..|hosts|] == hosts;
  }

  predicate Increasing(hs: seq<nat>) {
    forall i, j :: 0 <= i < j < |hs| ==> hs[i] < hs[j]
  }

  lemma {:induction false} WithoutKeepsOrder(hs: seq<nat>, gateway: int)
    requires Increasing(hs)
    ensures Increasing(Without(hs, gateway))
  {
    if hs != [] {
      var init, last := hs[..|hs| - 1], hs[|hs| - 1];
      WithoutKeepsOrder(init, gateway);
      forall i | 0 <= i < |Without(init, gateway)| ensures Without(init, gateway)[i] < last {
        assert Without(init, gateway)[i] in init;
      }
    }
  }

  /** Candidates are usable hosts other than the gateway, listed in increasing order and so
      without repetition, and none of the reserved ones in a large network. */
  lemma CandidatesAreUsableHosts(net: Network, gateway: int)
    ensures forall h :: h in Candidates(net, gateway) ==> net.UsableHost(h) && h != gateway
    ensures Increasing(Candidates(net, gateway))
    ensures |net.Hosts()| > INFRA_RESERVED_USABLE_HOSTS ==>
              forall i :: 0 <= i < INFRA_RESERVED_USABLE_HOSTS ==> net.Hosts()[i] !in Candidates(net, gateway)
  {
    var hosts := net.Hosts();
    var from := if |hosts| <= INFRA_RESERVED_USABLE_HOSTS then 0 else INFRA_RESERVED_USABLE_HOSTS;
    assert hosts[0..] == hosts;
    WithoutKeepsOrder(hosts[from..], gateway);
    assert Candidates(net, gateway) == Without(hosts[from..], gateway);
    forall h | h in Candidates(net, gateway) ensures net.UsableHost(h) && h != gateway {
      assert h in hosts[from..];
      HostsAreUsable(net, h);
    }
  }

  /** The addresses a workspace may get: all of the network but its two end addresses, the gateway and, from a /28 on,
      the first ten. */
  predicate Assignable(net: Network, gateway: int, a: int) {
    && a != gateway
    && (if net.hostBits <= 1 then net.base <= a < net.base + net.Size() else net.base < a < net.base + net.Size() - 1)
    && (net.hostBits >= 4 ==> net.base + 10 < a)
  }

  /** The candidates are these addresses, and all of them. */
  lemma CandidatesExactly(net: Network, gateway: int, a: int)
    ensures a in Candidates(net, gateway) <==> Assignable(net, gateway, a)
  {
    var hosts := net.Hosts();
    CountByBits(net);
    if |hosts| > INFRA_RESERVED_USABLE_HOSTS {
      PastTen(net, a);
    }
    HostsAreUsable(net, a);
  }

  lemma PastTen(net: Network, a: int)
    requires |net.Hosts()| > INFRA_RESERVED_USABLE_HOSTS
    ensures a in net.Hosts()[INFRA_RESERVED_USABLE_HOSTS..] <==> net.UsableHost(a) && net.base + 10 < a
  {
    var hosts := net.Hosts();
    CountByBits(net);
    HostsAreUsable(net, a);
    if net.UsableHost(a) && net.base + 10 < a {
      assert hosts[INFRA_RESERVED_USABLE_HOSTS..][a - net.base - 1 - INFRA_RESERVED_USABLE_HOSTS] == a;
    }
  }

  lemma CountByBits(net: Network)
    ensures |net.Hosts()| > INFRA_RESERVED_USABLE_HOSTS <==> net.hostBits >= 4
  {
    HostCount(net);
    if net.hostBits >= 4 {
      Pow2Grows(4, net.hostBits);
    } else {
      assert Pow2(0) == 1 && Pow2(1) == 2 && Pow2(2) == 4 && Pow2(3) == 8;
    }
  }

  /** There is a candidate exactly when some usable host is not the gateway: no network has eleven usable hosts. */
  lemma CandidatesExist(net: Network, gateway: int)
    ensures Candidates(net, gateway) != [] <==> exists h: int :: net.UsableHost(h) && h != gateway
  {
    var hosts := net.Hosts();
    HostCount(net);
    if Candidates(net, gateway) != [] {
      var h := Candidates(net, gateway)[0];
      assert h in Candidates(net, gateway);
      CandidatesAreUsableHosts(net, gateway);
    }
    if |hosts| <= INFRA_RESERVED_USABLE_HOSTS {
      forall h: int | net.UsableHost(h) && h != gateway ensures h in Candidates(net, gateway) {
        HostsAreUsable(net, h);
      }
    } else {
      // At least four hosts lie behind the reservation, and the gateway is one of them at most.
      var rest := hosts[INFRA_RESERVED_USABLE_HOSTS..];
      var h := if rest[0] == gateway then rest[1] else rest[0];
      assert h in rest;
      HostsAreUsable(net, h);
      assert h in Candidates(net, gateway);
    }
  }

  /** Which positions of the candidate list are unused. */
  function FreeIn(candidates: seq<nat>, used: set<nat>): nat -> bool {
    (i: nat) => i < |candidates| && candidates[i] !in used
  }

  /** The rotating scan for an unused candidate. */
  function PickFreeHost(candidates: seq<nat>, used: set<nat>, scanOffset: nat): (r: Option<nat>)
    ensures r.Some? ==> r.value in candidates && r.value !in used
  {
    if candidates == [] then None
    else
      match Scan(|candidates|, scanOffset % |candidates|, FreeIn(candidates, used), 0)
      case None => None
      case Some(i) => Some(candidates[i])
  }

  method PickFirstFreeHost(candidates: seq<nat>, used: set<nat>, scanOffset: nat) returns (r: Option<nat>)
    ensures r == PickFreeHost(candidates, used, scanOffset)
  {
    var n := |candidates|;
    if n == 0 {
      return None;
    }
    var offset := scanOffset % n;
    ghost var free := FreeIn(candidates, used);
    var i := 0;
    while i < n
      invariant i <= n
      invariant Scan(n, offset, free, 0) == Scan(n, offset, free, i)
    {
      ScanStep(n, offset, free, i);
      var h := candidates[At(n, offset, i)];
      if h !in used {
        assert free(At(n, offset, i));
        return Some(h);
      }
      i := i + 1;
    }
    r := None;
  }

  /** Whatever the offset, the scan gives up exactly when every candidate is used. */
  lemma PickFailsOnlyWhenExhausted(candidates: seq<nat>, used: set<nat>, scanOffset: nat)
    ensures PickFreeHost(candidates, used, scanOffset).None?
            <==> forall i :: 0 <= i < |candidates| ==> candidates[i] in used
  {
    if candidates != [] {
      var free := FreeIn(candidates, used);
      ScanFindsFirstFree(|candidates|, scanOffset % |candidates|, free);
      assert forall i: nat :: i < |candidates| ==> free(i) == (candidates[i] !in used);
    }
  }

  /** Offset 0, the one of a first attempt, picks the earliest unused candidate. */
  lemma PickAtZeroKeepsOrder(candidates: seq<nat>, used: set<nat>, i: nat)
    requires i < |candidates| && candidates[i] !in used
    requires forall j :: 0 <= j < i ==> candidates[j] in used
    ensures PickFreeHost(candidates, used, 0) == Some(candidates[i])
  {
    var n, free := |candidates|, FreeIn(candidates, used);
    ScanFindsFirstFree(n, 0, free);
    assert free(i);
    var s := Scan(n, 0, free, 0).value;
    assert ProbeOf(n, 0, i) == i && ProbeOf(n, 0, s) == s;
  }
}
