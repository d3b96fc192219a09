/** Runs of concurrent ensure calls in which the database does not notice a clash. */
module EnsureExamples {
  import opened Wrappers
  import opened Ipv4
  import opened TopologyTables
  import opened SubnetPool
  import opened TopologySteps
  import opened EnsureRace

  function SpecFor(net: Network): Spec {
    Plan(Cidr(net), NoAddr, "br")
  }

  /** Two calls read, one for m and one for n. */
  function ReadBoth(m: NodeKey, n: NodeKey, a: Network, b: Network): seq<RaceStep> {
    [Start(0, m, SpecFor(a)), Read(0), Start(1, n, SpecFor(b)), Read(1)]
  }

  predicate Readable(st: State, m: NodeKey, n: NodeKey, a: Network, b: Network) {
    && st.calls == map[]
    && (m in st.runtimes ==> st.runtimes[m].cidr.NoCidr?) && (n in st.runtimes ==> st.runtimes[n].cidr.NoCidr?)
    && !OverlapsAny(a, UsedNetworks(st.runtimes, m)) && !OverlapsAny(b, UsedNetworks(st.runtimes, n))
  }

  function Stage(st: State, m: NodeKey, n: NodeKey, a: Network, b: Network): State
    requires st.calls == map[]
  {
    State(st.runtimes, map[
      0 := Call(m, SpecFor(a), Writing(0, Stored(st.runtimes, m), a, FirstUsableHost(a))),
      1 := Call(n, SpecFor(b), Writing(0, Stored(st.runtimes, n), b, FirstUsableHost(b)))])
  }

  lemma ReadOne(st: State, c: nat, n: NodeKey, net: Network)
    requires c !in st.calls && (n in st.runtimes ==> st.runtimes[n].cidr.NoCidr?)
    requires !OverlapsAny(net, UsedNetworks(st.runtimes, n))
    ensures Enabled(RaceNext(st, Start(c, n, SpecFor(net))), Read(c))
    ensures RaceNext(RaceNext(st, Start(c, n, SpecFor(net))), Read(c))
            == st.(calls := st.calls[c := Call(n, SpecFor(net), Writing(0, Stored(st.runtimes, n), net, FirstUsableHost(net)))])
  {
  }

  /** Both calls read before either commits. */
  lemma BothRead(st: State, m: NodeKey, n: NodeKey, a: Network, b: Network)
    requires Readable(st, m, n, a, b)
    ensures IsRun(st, ReadBoth(m, n, a, b)) && RaceRun(st, ReadBoth(m, n, a, b)) == Stage(st, m, n, a, b)
  {
    var s := ReadBoth(m, n, a, b);
    ReadOne(st, 0, m, a);
    var st2 := RaceNext(RaceNext(st, s[0]), s[1]);
    ReadOne(st2, 1, n, b);
    TwoMore(st, [], s[0], s[1]);
    assert [] + [s[0], s[1]] == [s[0], s[1]];
    TwoMore(st, [s[0], s[1]], s[2], s[3]);
    assert s == [s[0], s[1]] + [s[2], s[3]];
  }

  lemma TwoMore(st: State, steps: seq<RaceStep>, r: RaceStep, s: RaceStep)
    requires IsRun(st, steps) && Enabled(RaceRun(st, steps), r) && Enabled(RaceNext(RaceRun(st, steps), r), s)
    ensures IsRun(st, steps + [r]) && RaceRun(st, steps + [r]) == RaceNext(RaceRun(st, steps), r)
    ensures IsRun(st, steps + [r, s]) && RaceRun(st, steps + [r, s]) == RaceNext(RaceNext(RaceRun(st, steps), r), s)
  {
    RunSnoc(st, steps, r);
    RunSnoc(st, steps + [r], s);
    assert steps + [r] + [s] == steps + [r, s];
  }

  /** With CIDRs set by the spec, edited between two calls, two nodes of an empty topology store overlapping networks:
      the database only sees that the two texts differ. */
  lemma SpecCidrsCanOverlap(m: NodeKey, n: NodeKey, a: Network, b: Network)
    requires m != n && m.topologyId == n.topologyId && a != b && a.Overlaps(b)
    ensures var empty, steps := State(map[], map[]), ReadBoth(m, n, a, b) + [Commit(0), Commit(1)];
            && IsRun(empty, steps)
            && var runtimes := RaceRun(empty, steps).runtimes;
               && m in runtimes && n in runtimes && runtimes[m].cidr.Cidr? && runtimes[n].cidr.Cidr?
               && runtimes[m].cidr.net.Overlaps(runtimes[n].cidr.net)
  {
    var empty := State(map[], map[]);
    var st := Stage(empty, m, n, a, b);
    var st1 := RaceNext(st, Commit(0));
    assert st1.runtimes == map[m := FilledRow(None, SpecFor(a), a, FirstUsableHost(a))];
    assert CidrFree(st1.runtimes, n, Cidr(b));
    BothRead(empty, m, n, a, b);
    TwoMore(empty, ReadBoth(m, n, a, b), Commit(0), Commit(1));
  }

  /** A stored row without a CIDR, which only someone else can have left: two calls that both read it write in turn, and
      the CIDR that the first one stored and returned is overwritten. */
  lemma IncompleteRowLosesUpdate(row: Runtime, n: NodeKey, a: Network, b: Network)
    requires row.cidr.NoCidr? && a != b
    ensures var st, steps := State(map[n := row], map[]), ReadBoth(n, n, a, b);
            && IsRun(st, steps + [Commit(0)]) && IsRun(st, steps + [Commit(0), Commit(1)])
            && var first, last := RaceRun(st, steps + [Commit(0)]), RaceRun(st, steps + [Commit(0), Commit(1)]);
               && n in first.runtimes && first.runtimes[n].cidr == Cidr(a)
               && 0 in first.calls && first.calls[0].phase == Stopped(true)
               && n in last.runtimes && last.runtimes[n].cidr == Cidr(b)
               && 1 in last.calls && last.calls[1].phase == Stopped(true)
  {
    var st := State(map[n := row], map[]);
    BothRead(st, n, n, a, b);
    TwoMore(st, ReadBoth(n, n, a, b), Commit(0), Commit(1));
  }
}
