/** The Redis limiter: a sorted set per key that records every request, admitted or not, and expires when idle. */
module RedisRateLimit {
  import opened Wrappers
  import opened RateLimit

  /** A sorted set (member id to score) and the instant at which the server drops it. */
  datatype Entry = Entry(members: map<nat, real>, expiresAt: real)

  /** Whether a client can be made, and whether the pipeline runs; a failed one may still have been applied. */
  datatype Reply = Reply(connects: bool, executes: bool, applied: bool)

  /** The members the server still has; without `expiring` the key would live for ever. */
  function Live(entry: Option<Entry>, now: real, expiring: bool): map<nat, real> {
    match entry
    case None => map[]
    case Some(e) => if expiring && e.expiresAt <= now then map[] else e.members
  }

  /** ZREMRANGEBYSCORE -inf cutoff. */
  function Kept(members: map<nat, real>, cutoff: real): map<nat, real> {
    map m | m in members && cutoff < members[m] :: members[m]
  }

  function CountBefore(limits: Limits, entry: Option<Entry>, now: real, expiring: bool): nat {
    |Kept(Live(entry, now, expiring), now - limits.Period())|
  }

  function NextEntry(limits: Limits, entry: Option<Entry>, now: real, id: nat, expiring: bool): Entry {
    Entry(Kept(Live(entry, now, expiring), now - limits.Period())[id := now], now + limits.Period() + 5.0)
  }

  function EntryOf(sets: map<string, Entry>, key: string): Option<Entry> {
    if key in sets then Some(sets[key]) else None
  }

  /** The lowest score at or above the cutoff. */
  predicate IsOldest(members: map<nat, real>, cutoff: real, score: real) {
    && (exists m :: m in members && members[m] == score && cutoff <= score)
    && forall m :: m in members && cutoff <= members[m] ==> score <= members[m]
  }

  predicate OldestInPeriod(limits: Limits, members: map<nat, real>, now: real, score: real) {
    IsOldest(members, now - limits.Period(), score)
  }

  /** The wait until the oldest member of the period leaves it; none if there is no such member. */
  ghost predicate IsWait(limits: Limits, members: map<nat, real>, now: real, seconds: real) {
    if forall m :: m in members ==> members[m] < now - limits.Period() then seconds == 0.0
    else exists score :: OldestInPeriod(limits, members, now, score) && seconds == score + limits.Period() - now
  }

  class RedisRateLimiter {
    const limits: Limits
    var sets: map<string, Entry>
    var connected: bool

    constructor (limits: Limits)
      requires limits.Valid()
      ensures this.limits == limits && sets == map[] && !connected
    {
      this.limits := limits;
      sets, connected := map[], false;
    }

    /** Fails open: an unreachable Redis admits the request. */
    method IsAllowed(key: string, now: real, id: nat, reply: Reply) returns (allowed: bool)
      modifies this
      ensures var reached := (old(connected) || reply.connects) && (reply.executes || reply.applied);
              sets == if reached then old(sets)[key := NextEntry(limits, EntryOf(old(sets), key), now, id, true)]
                      else old(sets)
      ensures if (old(connected) || reply.connects) && reply.executes
              then allowed == (CountBefore(limits, EntryOf(old(sets), key), now, true) < limits.calls) && connected
              else allowed && !connected
    {
      if !connected {
        if !reply.connects {
          return true;
        }
        connected := true;
      }
      var kept := Kept(Live(EntryOf(sets, key), now, true), now - limits.Period());
      var countBefore := |kept|;
      if reply.executes || reply.applied {
        sets := sets[key := Entry(kept[id := now], now + limits.Period() + 5.0)];
      }
      if !reply.executes {
        connected := false;
        return true;
      }
      allowed := countBefore < limits.calls;
    }

    /** Time until the oldest member of the period leaves it; 0 without one, and when Redis does not answer. */
    method RetryAfterSeconds(key: string, now: real, reply: Reply) returns (seconds: real)
      modifies this`connected
      ensures connected == (old(connected) || reply.connects)
      ensures !connected || !reply.executes ==> seconds == 0.0
      ensures connected && reply.executes ==>
                IsWait(limits, Live(EntryOf(sets, key), now, true), now, seconds)
    {
      if !connected && !reply.connects {
        return 0.0;
      }
      connected := true;
      if !reply.executes {
        return 0.0;
      }
      var members, cutoff := Live(EntryOf(sets, key), now, true), now - limits.Period();
      var oldest := OldestScore(members, cutoff);
      if oldest.None? {
        return 0.0;
      }
      seconds := if oldest.value + limits.Period() < now then 0.0 else oldest.value + limits.Period() - now;
      assert OldestInPeriod(limits, members, now, oldest.value);
    }
  }

  /** ZRANGEBYSCORE cutoff +inf LIMIT 0 1. */
  method OldestScore(members: map<nat, real>, cutoff: real) returns (r: Option<real>)
    ensures r.None? <==> forall m :: m in members ==> members[m] < cutoff
    ensures r.Some? ==> IsOldest(members, cutoff, r.value)
  {
    r := None;
    var todo := members.Keys;
    while todo != {}
      invariant todo <= members.Keys
      invariant r.None? ==> forall m :: m in members && m !in todo ==> members[m] < cutoff
      invariant r.Some? ==> (exists m :: m in members && members[m] == r.value && cutoff <= r.value)
                            && forall m :: m in members && m !in todo && cutoff <= members[m] ==> r.value <= members[m]
    {
      var m :| m in todo;
      todo := todo - {m};
      if cutoff <= members[m] && (r.None? || members[m] < r.value) {
        r := Some(members[m]);
      }
    }
  }

  // ---------------------------------------------------------------- runs of one key

  datatype Stamp = Stamp(at: real, id: nat)

  function Times(trace: seq<Stamp>): (times: seq<real>)
    ensures |times| == |trace| && forall i :: 0 <= i < |trace| ==> times[i] == trace[i].at
  {
    seq(|trace|, i requires 0 <= i < |trace| => trace[i].at)
  }

  /** No two requests after the cutoff share an id. */
  predicate DistinctAfter(trace: seq<Stamp>, cutoff: real) {
    forall i, j :: 0 <= i < j < |trace| && cutoff < trace[i].at && cutoff < trace[j].at ==> trace[i].id != trace[j].id
  }

  function RedisState(limits: Limits, trace: seq<Stamp>, expiring: bool): Option<Entry> {
    if trace == [] then None
    else
      var r := trace[|trace| - 1];
      Some(NextEntry(limits, RedisState(limits, trace[..|trace| - 1], expiring), r.at, r.id, expiring))
  }

  function RedisDecision(limits: Limits, trace: seq<Stamp>, r: Stamp, expiring: bool): bool {
    CountBefore(limits, RedisState(limits, trace, expiring), r.at, expiring) < limits.calls
  }

  /** The members that every request of the trace would leave, were none ever removed, above a cutoff. */
  function Alive(trace: seq<Stamp>, cutoff: real): map<nat, real> {
    if trace == [] then map[]
    else
      var r := trace[|trace| - 1];
      var earlier := Alive(trace[..|trace| - 1], cutoff);
      if cutoff < r.at then earlier[r.id := r.at] else earlier
  }

  /** The members are the ids of the requests after the cutoff. */
  lemma {:induction false} AliveMembers(trace: seq<Stamp>, cutoff: real, now: real)
    requires forall i :: 0 <= i < |trace| ==> trace[i].at <= now
    ensures forall m :: m in Alive(trace, cutoff) ==>
              cutoff < Alive(trace, cutoff)[m] <= now
              && exists i :: 0 <= i < |trace| && trace[i] == Stamp(Alive(trace, cutoff)[m], m)
    ensures forall i :: 0 <= i < |trace| && cutoff < trace[i].at ==> trace[i].id in Alive(trace, cutoff)
    ensures now <= cutoff ==> Alive(trace, cutoff) == map[]
  {
    if trace != [] {
      var n := |trace| - 1;
      AliveMembers(trace[..n], cutoff, now);
      forall m | m in Alive(trace, cutoff)
        ensures exists i :: 0 <= i < |trace| && trace[i] == Stamp(Alive(trace, cutoff)[m], m)
      {
        if m == trace[n].id && cutoff < trace[n].at {
          assert trace[n] == Stamp(Alive(trace, cutoff)[m], m);
        } else {
          var i :| 0 <= i < n && trace[..n][i] == Stamp(Alive(trace[..n], cutoff)[m], m);
          assert trace[i] == Stamp(Alive(trace, cutoff)[m], m);
        }
      }
    }
  }

  predicate StampsSorted(trace: seq<Stamp>) {
    forall i, j :: 0 <= i < j < |trace| ==> trace[i].at <= trace[j].at
  }

  lemma {:induction false} AliveAtLaterCutoff(trace: seq<Stamp>, early: real, late: real)
    requires early <= late && StampsSorted(trace)
    ensures Kept(Alive(trace, early), late) == Alive(trace, late)
  {
    if trace != [] {
      var init, r := trace[..|trace| - 1], trace[|trace| - 1];
      AliveAtLaterCutoff(init, early, late);
      if r.at <= late {
        AliveMembers(init, late, r.at);
        AliveMembers(init, early, r.at);
      }
      assert Kept(Alive(trace, early), late) == Alive(trace, late);
    }
  }

  /** What a request leaves, if it found the members of its last period. */
  lemma EntryAfter(limits: Limits, trace: seq<Stamp>, expiring: bool)
    requires limits.Valid() && trace != []
    requires var init, r := trace[..|trace| - 1], trace[|trace| - 1];
             Kept(Live(RedisState(limits, init, expiring), r.at, expiring), r.at - limits.Period())
             == Alive(init, r.at - limits.Period())
    ensures var r := trace[|trace| - 1];
            RedisState(limits, trace, expiring)
            == Some(Entry(Alive(trace, r.at - limits.Period()), r.at + limits.Period() + 5.0))
  {
  }

  lemma EntrySeen(limits: Limits, trace: seq<Stamp>, entry: Entry, last: real, now: real, expiring: bool)
    requires limits.Valid() && StampsSorted(trace) && last <= now
    requires forall i :: 0 <= i < |trace| ==> trace[i].at <= last
    requires entry == Entry(Alive(trace, last - limits.Period()), last + limits.Period() + 5.0)
    ensures Kept(Live(Some(entry), now, expiring), now - limits.Period()) == Alive(trace, now - limits.Period())
  {
    if expiring && entry.expiresAt <= now {
      AliveMembers(trace, now - limits.Period(), last);
    } else {
      AliveAtLaterCutoff(trace, last - limits.Period(), now - limits.Period());
    }
  }

  /** Whether or not idle keys expire, a call finds exactly the members of the last period. */
  lemma {:induction false} CallSeesLastPeriod(limits: Limits, trace: seq<Stamp>, now: real, expiring: bool)
    requires limits.Valid() && StampsSorted(trace) && forall i :: 0 <= i < |trace| ==> trace[i].at <= now
    ensures Kept(Live(RedisState(limits, trace, expiring), now, expiring), now - limits.Period())
         == Alive(trace, now - limits.Period())
  {
    if trace != [] {
      var r := trace[|trace| - 1];
      CallSeesLastPeriod(limits, trace[..|trace| - 1], r.at, expiring);
      EntryAfter(limits, trace, expiring);
      EntrySeen(limits, trace, RedisState(limits, trace, expiring).value, r.at, now, expiring);
    }
  }

  lemma CountIsAlive(limits: Limits, trace: seq<Stamp>, now: real, expiring: bool)
    requires limits.Valid() && StampsSorted(trace) && forall i :: 0 <= i < |trace| ==> trace[i].at <= now
    ensures CountBefore(limits, RedisState(limits, trace, expiring), now, expiring) == |Alive(trace, now - limits.Period())|
  {
    CallSeesLastPeriod(limits, trace, now, expiring);
  }

  /** So the key expiry of period + 5 never changes a decision. */
  lemma ExpiryNeverMatters(limits: Limits, trace: seq<Stamp>, r: Stamp)
    requires limits.Valid() && StampsSorted(trace + [r])
    ensures RedisDecision(limits, trace, r, true) == RedisDecision(limits, trace, r, false)
  {
    StampsBefore(trace, r);
    CountIsAlive(limits, trace, r.at, true);
    CountIsAlive(limits, trace, r.at, false);
  }

  lemma StampsBefore(trace: seq<Stamp>, r: Stamp)
    requires StampsSorted(trace + [r])
    ensures StampsSorted(trace) && forall i :: 0 <= i < |trace| ==> trace[i].at <= r.at
    ensures Sorted(Times(trace) + [r.at])
  {
    forall i, j | 0 <= i < j < |trace| ensures trace[i].at <= trace[j].at {
      assert (trace + [r])[i].at <= (trace + [r])[j].at;
    }
    forall i | 0 <= i < |trace| ensures trace[i].at <= r.at {
      assert (trace + [r])[i].at <= (trace + [r])[|trace|].at;
    }
  }

  lemma AliveNext(trace: seq<Stamp>, cutoff: real, now: real)
    requires trace != []
    ensures var n := |trace| - 1;
            && Alive(trace, cutoff)
               == (if cutoff < trace[n].at then Alive(trace[..n], cutoff)[trace[n].id := trace[n].at]
                   else Alive(trace[..n], cutoff))
            && CountIn(Times(trace), cutoff, now)
               == CountIn(Times(trace[..n]), cutoff, now) + (if cutoff < trace[n].at <= now then 1 else 0)
  {
    assert Times(trace)[..|trace| - 1] == Times(trace[..|trace| - 1]);
  }

  /** The set has one member for each request after the cutoff exactly when no two of them share an id; else it has
      fewer. */
  lemma {:induction false} AliveSize(trace: seq<Stamp>, cutoff: real, now: real)
    requires forall i :: 0 <= i < |trace| ==> trace[i].at <= now
    ensures |Alive(trace, cutoff)| <= CountIn(Times(trace), cutoff, now)
    ensures |Alive(trace, cutoff)| == CountIn(Times(trace), cutoff, now) <==> DistinctAfter(trace, cutoff)
  {
    if trace != [] {
      var n := |trace| - 1;
      AliveSize(trace[..n], cutoff, now);
      AliveNext(trace, cutoff, now);
      LastShares(trace, cutoff, now);
    }
  }

  /** The last request shares its id with an earlier one exactly when that id is a member already. */
  lemma LastShares(trace: seq<Stamp>, cutoff: real, now: real)
    requires trace != [] && forall i :: 0 <= i < |trace| ==> trace[i].at <= now
    ensures var n := |trace| - 1;
            DistinctAfter(trace, cutoff)
            <==> DistinctAfter(trace[..n], cutoff) && !(cutoff < trace[n].at && trace[n].id in Alive(trace[..n], cutoff))
  {
    var n := |trace| - 1;
    var init, r := trace[..n], trace[n];
    AliveMembers(init, cutoff, now);
    if cutoff < r.at && r.id in Alive(init, cutoff) {
      var i :| 0 <= i < n && init[i] == Stamp(Alive(init, cutoff)[r.id], r.id);
      assert trace[i] == init[i];
    } else {
      DistinctNext(init, r, cutoff);
      assert trace == init + [r];
    }
  }

  lemma DistinctNext(init: seq<Stamp>, r: Stamp, cutoff: real)
    requires cutoff < r.at ==> forall i :: 0 <= i < |init| && cutoff < init[i].at ==> init[i].id != r.id
    ensures DistinctAfter(init + [r], cutoff) <==> DistinctAfter(init, cutoff)
  {
    var all := init + [r];
    assert forall i :: 0 <= i < |init| ==> all[i] == init[i];
    if DistinctAfter(all, cutoff) {
      forall i, j | 0 <= i < j < |init| && cutoff < init[i].at && cutoff < init[j].at ensures init[i].id != init[j].id {
        assert all[i].id != all[j].id;
      }
    }
  }

  /** With distinct member ids in its period, Redis admits a request exactly when fewer than `calls` requests of any
      outcome precede it there. */
  lemma RedisCountsEveryRequest(limits: Limits, trace: seq<Stamp>, r: Stamp)
    requires limits.Valid() && StampsSorted(trace + [r]) && DistinctAfter(trace, r.at - limits.Period())
    ensures RedisDecision(limits, trace, r, true)
            <==> CountIn(Times(trace), r.at - limits.Period(), r.at) < limits.calls
  {
    StampsBefore(trace, r);
    CountIsAlive(limits, trace, r.at, true);
    AliveSize(trace, r.at - limits.Period(), r.at);
  }

  ghost predicate CountsAll(trace: seq<Stamp>, r: Stamp, period: int)
    requires period > 0
  {
    forall calls {:trigger Limits(calls, period)} :: calls > 0 ==>
      (RedisDecision(Limits(calls, period), trace, r, true)
       <==> CountIn(Times(trace), r.at - period as real, r.at) < calls)
  }

  /** The decision counts every request of the period, for each limit, exactly when their ids are distinct. */
  lemma RedisCountsExactly(trace: seq<Stamp>, r: Stamp, period: int)
    requires period > 0 && StampsSorted(trace + [r])
    ensures CountsAll(trace, r, period) <==> DistinctAfter(trace, r.at - period as real)
  {
    StampsBefore(trace, r);
    var cutoff := r.at - period as real;
    AliveSize(trace, cutoff, r.at);
    forall calls | calls > 0
      ensures RedisDecision(Limits(calls, period), trace, r, true) <==> |Alive(trace, cutoff)| < calls
    {
      CountIsAlive(Limits(calls, period), trace, r.at, true);
    }
    if !DistinctAfter(trace, cutoff) {
      var count := CountIn(Times(trace), cutoff, r.at);
      assert RedisDecision(Limits(count, period), trace, r, true) <==> |Alive(trace, cutoff)| < count;
    }
  }

  /** Shared ids only ever admit more. */
  lemma SharedIdsAdmitMore(limits: Limits, trace: seq<Stamp>, r: Stamp)
    requires limits.Valid() && StampsSorted(trace + [r])
    ensures CountIn(Times(trace), r.at - limits.Period(), r.at) < limits.calls ==> RedisDecision(limits, trace, r, true)
  {
    StampsBefore(trace, r);
    CountIsAlive(limits, trace, r.at, true);
    AliveSize(trace, r.at - limits.Period(), r.at);
  }

  lemma {:induction false} HistoryCountsLess(limits: Limits, times: seq<real>, lo: real, hi: real)
    ensures CountIn(History(limits, times), lo, hi) <= CountIn(times, lo, hi)
  {
    if times != [] {
      var init, t := times[..|times| - 1], times[|times| - 1];
      HistoryCountsLess(limits, init, lo, hi);
      assert History(limits, init) + [] == History(limits, init);
      CountSplit(History(limits, init), [t], lo, hi);
      CountOne(t, lo, hi);
    }
  }

  /** On the same trace, whatever Redis admits the in-memory limiter admits too. */
  lemma RedisIsStricter(limits: Limits, trace: seq<Stamp>, r: Stamp)
    requires limits.Valid() && StampsSorted(trace + [r]) && DistinctAfter(trace, r.at - limits.Period())
    ensures RedisDecision(limits, trace, r, true) ==> Decision(limits, Times(trace), r.at)
  {
    RedisCountsEveryRequest(limits, trace, r);
    StampsBefore(trace, r);
    DecisionMatchesHistory(limits, Times(trace), r.at);
    HistoryCountsLess(limits, Times(trace), r.at - limits.Period(), r.at);
  }

  /** The least case: of two requests that share an id one member is left, and with a limit of two a third is admitted.
      */
  lemma SharedIdUndercounts(limits: Limits, r: Stamp)
    requires limits.calls == 2 && limits.period > 0
    ensures RedisDecision(limits, [r, r], r, true)
    ensures !Decision(limits, [r.at, r.at], r.at)
  {
    TwoAlike(r, r.at - limits.Period());
    CountIsAlive(limits, [r, r], r.at, true);
    WindowNext(limits, [], r.at);
    assert [] + [r.at] == [r.at];
    assert Window(limits, [r.at]) == [r.at];
    WindowNext(limits, [r.at], r.at);
    assert [r.at] + [r.at] == [r.at, r.at];
    assert Window(limits, [r.at, r.at]) == [r.at, r.at];
  }

  lemma TwoAlike(r: Stamp, cutoff: real)
    requires cutoff < r.at
    ensures Alive([r, r], cutoff) == map[r.id := r.at]
  {
    assert [r, r][..1] == [r] && [r][..0] == [];
    assert Alive([r], cutoff) == map[r.id := r.at];
  }

  // ---------------------------------------------------------------- retry-after

  /** Request e of the trace is the oldest that the server still has when the wait is asked for at `now`. */
  predicate OldestLeft(limits: Limits, trace: seq<Stamp>, now: real, e: nat) {
    && e < |trace|
    && trace[|trace| - 1].at - limits.Period() < trace[e].at && now - limits.Period() <= trace[e].at
    && forall i :: 0 <= i < e ==>
         trace[i].at <= trace[|trace| - 1].at - limits.Period() || trace[i].at < now - limits.Period()
  }

  /** The members left by the last request of a trace. */
  lemma MembersLeft(limits: Limits, trace: seq<Stamp>, now: real)
    requires limits.Valid() && StampsSorted(trace) && trace != []
    requires now < trace[|trace| - 1].at + limits.Period() + 5.0
    ensures Live(RedisState(limits, trace, true), now, true)
            == Alive(trace, trace[|trace| - 1].at - limits.Period())
  {
    var n := |trace| - 1;
    CallSeesLastPeriod(limits, trace[..n], trace[n].at, true);
    EntryAfter(limits, trace, true);
  }

  lemma OldestMember(trace: seq<Stamp>, cutoff: real, from: real, e: nat, score: real)
    requires StampsSorted(trace) && DistinctAfter(trace, cutoff) && e < |trace|
    requires cutoff < trace[e].at && from <= trace[e].at
    requires forall i :: 0 <= i < e ==> trace[i].at <= cutoff || trace[i].at < from
    requires IsOldest(Alive(trace, cutoff), from, score)
    ensures score == trace[e].at
  {
    var members := Alive(trace, cutoff);
    AliveMembers(trace, cutoff, trace[|trace| - 1].at);
    MemberTime(trace, cutoff, e);
    var m :| m in members && members[m] == score;
    var i :| 0 <= i < |trace| && trace[i] == Stamp(members[m], m);
    assert i < e ==> score <= cutoff || score < from;
  }

  /** The wait that `retry_after_seconds` returns ends when that request leaves the period. */
  lemma WaitIsUntilOldestLeaves(limits: Limits, trace: seq<Stamp>, now: real, seconds: real, e: nat)
    requires limits.Valid() && StampsSorted(trace) && OldestLeft(limits, trace, now, e)
    requires DistinctAfter(trace, trace[|trace| - 1].at - limits.Period())
    requires IsWait(limits, Live(RedisState(limits, trace, true), now, true), now, seconds)
    ensures now + seconds == trace[e].at + limits.Period()
  {
    var cutoff := trace[|trace| - 1].at - limits.Period();
    MembersLeft(limits, trace, now);
    WaitOfMembers(limits, trace, cutoff, now, seconds, e);
  }

  lemma WaitOfMembers(limits: Limits, trace: seq<Stamp>, cutoff: real, now: real, seconds: real, e: nat)
    requires limits.Valid() && StampsSorted(trace) && DistinctAfter(trace, cutoff) && e < |trace|
    requires cutoff < trace[e].at && now - limits.Period() <= trace[e].at
    requires forall i :: 0 <= i < e ==> trace[i].at <= cutoff || trace[i].at < now - limits.Period()
    requires IsWait(limits, Alive(trace, cutoff), now, seconds)
    ensures now + seconds == trace[e].at + limits.Period()
  {
    var members := Alive(trace, cutoff);
    MemberTime(trace, cutoff, e);
    var score :| OldestInPeriod(limits, members, now, score) && seconds == score + limits.Period() - now;
    OldestMember(trace, cutoff, now - limits.Period(), e, score);
  }

  /** A request after the cutoff is a member, with its own time. */
  lemma MemberTime(trace: seq<Stamp>, cutoff: real, e: nat)
    requires StampsSorted(trace) && DistinctAfter(trace, cutoff) && e < |trace| && cutoff < trace[e].at
    ensures trace[e].id in Alive(trace, cutoff) && Alive(trace, cutoff)[trace[e].id] == trace[e].at
  {
    AliveMembers(trace, cutoff, trace[|trace| - 1].at);
    var members := Alive(trace, cutoff);
    var j :| 0 <= j < |trace| && trace[j] == Stamp(members[trace[e].id], trace[e].id);
    assert j == e;
  }

  /** A denied request is recorded as well, and so are all `later` ones, which come between the question and the return.
      So of a client that comes back when it was told to, as request e leaves with all others of its instant up to
      number f, the request is admitted exactly when fewer than `calls` are left, the denied one among them. */
  lemma ReturnIsAdmittedExactly(
    limits: Limits, trace: seq<Stamp>, later: seq<Stamp>, now: real, seconds: real, e: nat, f: nat, q: Stamp)
    requires limits.Valid() && StampsSorted(trace + later + [q]) && OldestLeft(limits, trace, now, e)
    requires DistinctAfter(trace + later, trace[|trace| - 1].at - limits.Period())
    requires IsWait(limits, Live(RedisState(limits, trace, true), now, true), now, seconds)
    requires var all := trace + later;
             && e < f <= |all| && (forall i :: e <= i < f ==> all[i].at == trace[e].at)
             && forall i :: f <= i < |all| ==> trace[e].at < all[i].at
    requires q.at == now + seconds
    ensures RedisDecision(limits, trace + later, q, true) <==> |trace + later| - f < limits.calls
  {
    var all := trace + later;
    StampsBefore(all, q);
    PrefixOf(trace, later, trace[|trace| - 1].at - limits.Period());
    WaitIsUntilOldestLeaves(limits, trace, now, seconds, e);
    DistinctLater(all, trace[|trace| - 1].at - limits.Period(), trace[e].at);
    assert all[e] == trace[e];
    InPeriod(limits, all, f, q);
  }

  lemma PrefixOf(trace: seq<Stamp>, later: seq<Stamp>, cutoff: real)
    requires StampsSorted(trace + later) && DistinctAfter(trace + later, cutoff)
    ensures StampsSorted(trace) && DistinctAfter(trace, cutoff)
  {
    assert forall i :: 0 <= i < |trace| ==> (trace + later)[i] == trace[i];
  }

  lemma DistinctLater(trace: seq<Stamp>, early: real, late: real)
    requires early <= late && DistinctAfter(trace, early)
    ensures DistinctAfter(trace, late)
  {
  }

  /** Admission when the requests from number e on are the ones of the last period. */
  lemma InPeriod(limits: Limits, trace: seq<Stamp>, e: nat, r: Stamp)
    requires limits.Valid() && StampsSorted(trace + [r]) && e <= |trace|
    requires DistinctAfter(trace, r.at - limits.Period())
    requires forall i :: 0 <= i < e ==> trace[i].at <= r.at - limits.Period()
    requires forall i :: e <= i < |trace| ==> r.at - limits.Period() < trace[i].at
    ensures RedisDecision(limits, trace, r, true) <==> |trace| - e < limits.calls
  {
    RedisCountsEveryRequest(limits, trace, r);
    StampsBefore(trace, r);
    CountFrom(Times(trace), e, r.at - limits.Period(), r.at);
  }

  /** So after a denial, of the last request of the trace, a client that waits as long as it was told is denied again,
      for any limit and whatever requests come in between, unless the oldest request shares its instant with another one
      or left between the denial and the question. */
  lemma RedisWaitIsTooShort(
    limits: Limits, trace: seq<Stamp>, later: seq<Stamp>, now: real, seconds: real, e: nat, q: Stamp)
    requires limits.Valid() && StampsSorted(trace + later + [q]) && OldestLeft(limits, trace, now, e)
    requires DistinctAfter(trace + later, trace[|trace| - 1].at - limits.Period())
    requires !RedisDecision(limits, trace[..|trace| - 1], trace[|trace| - 1], true)
    requires forall i :: 0 <= i < e ==> trace[i].at <= trace[|trace| - 1].at - limits.Period()
    requires e + 1 < |trace| && trace[e].at < trace[e + 1].at
    requires IsWait(limits, Live(RedisState(limits, trace, true), now, true), now, seconds)
    requires q.at == now + seconds
    ensures !RedisDecision(limits, trace + later, q, true)
  {
    StampsBefore(trace + later, q);
    PrefixOf(trace, later, trace[|trace| - 1].at - limits.Period());
    DeniedMeansFull(limits, trace, e);
    OldestAlone(trace, later, e);
    ReturnIsAdmittedExactly(limits, trace, later, now, seconds, e, e + 1, q);
  }

  lemma OldestAlone(trace: seq<Stamp>, later: seq<Stamp>, e: nat)
    requires StampsSorted(trace + later) && e + 1 < |trace| && trace[e].at < trace[e + 1].at
    ensures var all := trace + later;
            && (forall i :: e <= i < e + 1 ==> all[i].at == trace[e].at)
            && forall i :: e + 1 <= i < |all| ==> trace[e].at < all[i].at
  {
    var all := trace + later;
    forall i | e + 1 <= i < |all| ensures trace[e].at < all[i].at {
      assert all[e + 1] == trace[e + 1] && all[e + 1].at <= all[i].at;
    }
  }

  /** A denial means that at least `calls` requests, from number e on, were in the period. */
  lemma DeniedMeansFull(limits: Limits, trace: seq<Stamp>, e: nat)
    requires limits.Valid() && StampsSorted(trace) && e + 1 < |trace|
    requires DistinctAfter(trace, trace[|trace| - 1].at - limits.Period())
    requires forall i :: 0 <= i < e ==> trace[i].at <= trace[|trace| - 1].at - limits.Period()
    requires trace[|trace| - 1].at - limits.Period() < trace[e].at
    requires !RedisDecision(limits, trace[..|trace| - 1], trace[|trace| - 1], true)
    ensures |trace| - 1 - e >= limits.calls
  {
    var n := |trace| - 1;
    assert trace == trace[..n] + [trace[n]];
    forall i | e <= i < n ensures trace[n].at - limits.Period() < trace[..n][i].at {
      assert trace[e].at <= trace[i].at;
    }
    InPeriod(limits, trace[..n], e, trace[n]);
  }

  /** One request at 0, one denied at 5, and with a limit of one in ten seconds a wait of 5: at 10 the client is denied
      again. */
  lemma DeniedTwice()
    ensures var limits, first, second := Limits(1, 10), Stamp(0.0, 1), Stamp(5.0, 2);
            && RedisDecision(limits, [], first, true) && !RedisDecision(limits, [first], second, true)
            && IsWait(limits, Live(RedisState(limits, [first, second], true), 5.0, true), 5.0, 5.0)
            && !RedisDecision(limits, [first, second], Stamp(10.0, 3), true)
  {
    var limits, first, second := Limits(1, 10), Stamp(0.0, 1), Stamp(5.0, 2);
    DeniedBySecond(limits, first, second);
    DeniedByThird(limits, first, second, Stamp(10.0, 3));
    MembersLeft(limits, [first, second], 5.0);
    AliveOfTwo(first, second, -5.0);
    WaitOfTwo(limits, map[1 := 0.0, 2 := 5.0]);
  }

  lemma DeniedBySecond(limits: Limits, first: Stamp, second: Stamp)
    requires limits.calls == 1 && limits.period > 0 && first.at <= second.at < first.at + limits.Period()
    ensures !RedisDecision(limits, [first], second, true)
  {
    assert [first] + [second] == [first, second];
    InPeriod(limits, [first], 0, second);
  }

  lemma DeniedByThird(limits: Limits, first: Stamp, second: Stamp, third: Stamp)
    requires limits.calls == 1 && limits.period > 0 && first.at <= second.at <= third.at
    requires first.at <= third.at - limits.Period() < second.at
    ensures !RedisDecision(limits, [first, second], third, true)
  {
    assert [first, second] + [third] == [first, second, third];
    InPeriod(limits, [first, second], 1, third);
  }

  lemma WaitOfTwo(limits: Limits, members: map<nat, real>)
    requires limits == Limits(1, 10) && members == map[1 := 0.0, 2 := 5.0]
    ensures IsWait(limits, members, 5.0, 5.0)
  {
    assert 1 in members && members[1] == 0.0;
    assert OldestInPeriod(limits, members, 5.0, 0.0);
  }

  lemma AliveOfTwo(r: Stamp, s: Stamp, cutoff: real)
    requires cutoff < r.at && cutoff < s.at
    ensures Alive([r, s], cutoff) == map[r.id := r.at][s.id := s.at]
  {
    assert [r, s][..1] == [r] && [r][..0] == [];
    assert Alive([r], cutoff) == map[r.id := r.at];
  }

  /** Of times that pass the lower bound from position i on, those positions count. */
  lemma CountFrom(times: seq<real>, i: nat, lo: real, hi: real)
    requires i <= |times| && NotAfter(times[..i], lo) && AllAfter(times[i..], lo) && NotAfter(times, hi)
    ensures CountIn(times, lo, hi) == |times| - i
  {
    assert times == times[..i] + times[i..];
    CountSplit(times[..i], times[i..], lo, hi);
    CountOutside(times[..i], lo, hi);
    CountOutside(times[i..], lo, hi);
  }
}
