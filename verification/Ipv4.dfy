/** IPv4 addresses and networks, as Python's `ipaddress` module treats them once parsed. */
module Ipv4 {

  const ADDRESS_SPACE: nat := 0x1_0000_0000

  function Pow2(n: nat): (p: nat)
    ensures 1 <= p
  {
    if n == 0 then 1 else 2 * Pow2(n - 1)
  }

  /** `base`/(32 - `hostBits`): the network holds the 2^hostBits addresses from `base` on. */
  datatype NetworkValue = Network(base: nat, hostBits: nat) {

    function Size(): (n: nat)
      ensures 1 <= n
    {
      Pow2(hostBits)
    }

    predicate Valid() {
      && hostBits <= 32
      && base % Size() == 0
      && base + Size() <= ADDRESS_SPACE
    }

    predicate Contains(a: int) {
      base <= a < base + Size()
    }

    function Broadcast(): nat {
      base + Size() - 1
    }

    /** `self.overlaps(other)`: one network holds an end point of the other. */
    predicate Overlaps(other: NetworkValue) {
      || other.Contains(base)
      || other.Contains(Broadcast())
      || Contains(other.base)
      || Contains(other.Broadcast())
    }

    /** `hosts()`: without the network and broadcast addresses, except that a /31 and a /32 keep all of theirs. */
    function Hosts(): (hs: seq<nat>)
      ensures |hs| == if hostBits <= 1 then Size() else Size() - 2
      ensures forall i :: 0 <= i < |hs| ==> hs[i] == (if hostBits <= 1 then base else base + 1) + i
    {
      if hostBits <= 1 then seq(Size(), i requires 0 <= i => base + i)
      else assert 2 <= Size() by { assert Size() == 2 * Pow2(hostBits - 1); }
           seq(Size() - 2, i requires 0 <= i => base + 1 + i)
    }

    predicate UsableHost(a: int) {
      Contains(a) && (hostBits <= 1 || (a != base && a != Broadcast()))
    }
  }

  type Network = n: NetworkValue | n.Valid() witness NetworkValue.Network(0, 0)

  /** The end-point test decides whether two networks share an address. */
  lemma OverlapsMeansShared(m: Network, n: Network)
    ensures m.Overlaps(n) <==> exists a: int :: m.Contains(a) && n.Contains(a)
  {
    if m.Overlaps(n) {
      var a := if m.Contains(n.base) then n.base else if n.Contains(m.base) then m.base
               else if n.Contains(m.Broadcast()) then m.Broadcast() else n.Broadcast();
      assert m.Contains(a) && n.Contains(a);
    }
  }

  lemma HostsAreUsable(net: Network, a: int)
    ensures a in net.Hosts() <==> net.UsableHost(a)
  {
    var first := if net.hostBits <= 1 then net.base else net.base + 1;
    if net.UsableHost(a) {
      assert net.Hosts()[a - first] == a;
    }
  }

  /** A network has 1, 2 or 2^k - 2 usable hosts: six at most, or fourteen at least. */
  lemma HostCount(net: NetworkValue)
    ensures |net.Hosts()| <= 6 || 14 <= |net.Hosts()|
    ensures 1 <= |net.Hosts()|
  {
    var b := net.hostBits;
    if b >= 4 {
      Pow2Grows(4, b);
    } else {
      assert Pow2(0) == 1 && Pow2(1) == 2 && Pow2(2) == 4 && Pow2(3) == 8;
    }
  }

  lemma {:induction false} Pow2Grows(m: nat, n: nat)
    requires m <= n
    ensures Pow2(m) <= Pow2(n)
    ensures Pow2(4) == 16
    decreases n
  {
    assert Pow2(0) == 1 && Pow2(1) == 2 && Pow2(2) == 4 && Pow2(3) == 8;
    if m < n {
      Pow2Grows(m, n - 1);
    }
  }
}
