/** Sliding-window rate limiting: the in-memory window, the Redis sorted set, and a full request history. */
module RateLimit {

  /** The limiters refuse to be built with anything but positive limits. */
  datatype Limits = Limits(calls: int, period: int) {
    predicate Valid() {
      calls > 0 && period > 0
    }
    function Period(): real {
      period as real
    }
  }

  /** One request: its key and the clock reading made for it. */
  datatype Request = Request(key: string, at: real)

  // ---------------------------------------------------------------- in memory

  function WindowOf(windows: map<string, seq<real>>, key: string): seq<real> {
    if key in windows then windows[key] else []
  }

  /** The window without its leading entries at or before the cutoff. */
  function Evicted(window: seq<real>, cutoff: real): seq<real> {
    if window != [] && window[0] <= cutoff then Evicted(window[1..], cutoff) else window
  }

  function Admits(limits: Limits, window: seq<real>, at: real): bool {
    |Evicted(window, at - limits.Period())| < limits.calls
  }

  function NextWindow(limits: Limits, window: seq<real>, at: real): seq<real> {
    Evicted(window, at - limits.Period()) + if Admits(limits, window, at) then [at] else []
  }

  function RetryAfter(limits: Limits, window: seq<real>, now: real): real {
    if window == [] then 0.0
    else if window[0] + limits.Period() - now < 0.0 then 0.0
    else window[0] + limits.Period() - now
  }

  class SlidingWindowRateLimiter {
    const limits: Limits
    var windows: map<string, seq<real>>

    constructor (limits: Limits)
      requires limits.Valid()
      ensures this.limits == limits && windows == map[]
    {
      this.limits := limits;
      windows := map[];
    }

    method IsAllowed(key: string, now: real) returns (allowed: bool)
      modifies this`windows
      ensures allowed == Admits(limits, WindowOf(old(windows), key), now)
      ensures windows == old(windows)[key := NextWindow(limits, WindowOf(old(windows), key), now)]
    {
      var cutoff := now - limits.Period();
      var window := WindowOf(windows, key);
      while window != [] && window[0] <= cutoff
        invariant Evicted(window, cutoff) == Evicted(WindowOf(old(windows), key), cutoff)
        decreases |window|
      {
        window := window[1..];
      }
      assert window == Evicted(WindowOf(old(windows), key), cutoff);
      if |window| >= limits.calls {
        windows := windows[key := window];
        assert window + [] == window;
        return false;
      }
      window := window + [now];
      windows := windows[key := window];
      allowed := true;
    }

    method RetryAfterSeconds(key: string, now: real) returns (seconds: real)
      ensures seconds == RetryAfter(limits, WindowOf(windows, key), now)
    {
      if key !in windows || windows[key] == [] {
        return 0.0;
      }
      var oldest := windows[key][0];
      var wait := oldest + limits.Period() - now;
      seconds := if wait < 0.0 then 0.0 else wait;
    }
  }

  // ---------------------------------------------------------------- runs

  /** The windows after a trace of requests in lock order. */
  function Windows(limits: Limits, trace: seq<Request>): map<string, seq<real>> {
    if trace == [] then map[]
    else
      var r := trace[|trace| - 1];
      var windows := Windows(limits, trace[..|trace| - 1]);
      windows[r.key := NextWindow(limits, WindowOf(windows, r.key), r.at)]
  }

  function TimesOf(trace: seq<Request>, key: string): seq<real> {
    if trace == [] then []
    else
      var r := trace[|trace| - 1];
      TimesOf(trace[..|trace| - 1], key) + if r.key == key then [r.at] else []
  }

  /** The window of one key after its requests at the given times. */
  function Window(limits: Limits, times: seq<real>): seq<real> {
    if times == [] then []
    else NextWindow(limits, Window(limits, times[..|times| - 1]), times[|times| - 1])
  }

  /** Keys do not influence each other. */
  lemma {:induction false} KeysAreIndependent(limits: Limits, trace: seq<Request>, key: string)
    ensures WindowOf(Windows(limits, trace), key) == Window(limits, TimesOf(trace, key))
  {
    if trace != [] {
      var init := trace[..|trace| - 1];
      KeysAreIndependent(limits, init, key);
      var r := trace[|trace| - 1];
      if r.key == key {
        assert TimesOf(trace, key)[..|TimesOf(init, key)|] == TimesOf(init, key);
      } else {
        assert TimesOf(trace, key) == TimesOf(init, key);
      }
    }
  }

  /** The decision on a request at time t that follows requests at the given times. */
  function Decision(limits: Limits, times: seq<real>, t: real): bool {
    Admits(limits, Window(limits, times), t)
  }

  /** The full history of admitted times; nothing is ever evicted from it. */
  function History(limits: Limits, times: seq<real>): (h: seq<real>)
  {
    if times == [] then []
    else
      var init, t := times[..|times| - 1], times[|times| - 1];
      History(limits, init) + if Decision(limits, init, t) then [t] else []
  }

  function CountIn(times: seq<real>, lo: real, hi: real): (n: nat)
    ensures n <= |times|
  {
    if times == [] then 0
    else CountIn(times[..|times| - 1], lo, hi) + if lo < times[|times| - 1] <= hi then 1 else 0
  }

  predicate Sorted(times: seq<real>) {
    forall i, j :: 0 <= i < j < |times| ==> times[i] <= times[j]
  }

  predicate NotAfter(times: seq<real>, t: real) {
    forall i :: 0 <= i < |times| ==> times[i] <= t
  }

  predicate AllAfter(times: seq<real>, t: real) {
    forall i :: 0 <= i < |times| ==> t < times[i]
  }

  /** Readings that fall back by at most `skew`: the clock is read before the lock is taken. */
  predicate Skewed(times: seq<real>, skew: real) {
    forall i, j :: 0 <= i < j < |times| ==> times[i] - skew <= times[j]
  }

  lemma {:induction false} EvictedIsTail(window: seq<real>, cutoff: real) returns (gone: seq<real>)
    ensures window == gone + Evicted(window, cutoff) && NotAfter(gone, cutoff)
    ensures Evicted(window, cutoff) == [] || cutoff < Evicted(window, cutoff)[0]
  {
    if window != [] && window[0] <= cutoff {
      gone := EvictedIsTail(window[1..], cutoff);
      gone := [window[0]] + gone;
    } else {
      gone := [];
      assert window == gone + window;
    }
  }

  lemma {:induction false} CountOutside(times: seq<real>, lo: real, hi: real)
    ensures NotAfter(times, lo) ==> CountIn(times, lo, hi) == 0
    ensures AllAfter(times, lo) && NotAfter(times, hi) ==> CountIn(times, lo, hi) == |times|
  {
    if times != [] {
      CountOutside(times[..|times| - 1], lo, hi);
    }
  }

  lemma {:induction false} CountSplit(a: seq<real>, b: seq<real>, lo: real, hi: real)
    ensures CountIn(a + b, lo, hi) == CountIn(a, lo, hi) + CountIn(b, lo, hi)
  {
    if b == [] {
      assert a + b == a;
    } else {
      CountSplit(a, b[..|b| - 1], lo, hi);
      assert (a + b)[..|a + b| - 1] == a + b[..|b| - 1];
    }
  }

  lemma {:induction false} CountAbove(times: seq<real>, lo: real, hi: real)
    requires AllAfter(times, hi)
    ensures CountIn(times, lo, hi) == 0
  {
    if times != [] {
      CountAbove(times[..|times| - 1], lo, hi);
    }
  }

  lemma {:induction false} EvictionShortens(window: seq<real>, cutoff: real)
    ensures |Evicted(window, cutoff)| <= |window|
    ensures forall x :: x in Evicted(window, cutoff) ==> x in window
    ensures Evicted(window, cutoff) == [] || cutoff < Evicted(window, cutoff)[0]
    ensures window != [] && window[0] <= cutoff ==> |Evicted(window, cutoff)| < |window|
  {
    if window != [] && window[0] <= cutoff {
      EvictionShortens(window[1..], cutoff);
    }
  }

  lemma CountOne(t: real, lo: real, hi: real)
    ensures CountIn([t], lo, hi) == if lo < t <= hi then 1 else 0
  {
    assert [t][..0] == [];
  }

  /** Each reading in `gone` was evicted by a request that came at least a period later. */
  ghost predicate AllEvicted(gone: seq<real>, times: seq<real>, period: real) {
    forall i :: 0 <= i < |gone| ==> exists j :: 0 <= j < |times| && gone[i] + period <= times[j]
  }

  /** Of any calls + 1 entries in a row the last comes at least `width` after the first. */
  ghost predicate Spaced(history: seq<real>, calls: int, width: real) {
    forall i, j {:trigger PairSpaced(history, calls, width, i, j)} :: PairSpaced(history, calls, width, i, j)
  }

  predicate PairSpaced(history: seq<real>, calls: int, width: real, i: int, j: int) {
    0 <= i < |history| && 0 <= j < |history| && i + calls <= j ==> history[i] + width <= history[j]
  }

  /** The window is a tail of the full history, no longer than the limit, and the rest was evicted in its time. */
  ghost predicate Tracks(limits: Limits, times: seq<real>, gone: seq<real>) {
    && History(limits, times) == gone + Window(limits, times) && |Window(limits, times)| <= limits.calls
    && AllEvicted(gone, times, limits.Period())
    && forall x :: x in History(limits, times) ==> x in times
  }

  lemma {:induction false} WindowTracks(limits: Limits, times: seq<real>) returns (gone: seq<real>)
    requires limits.Valid()
    ensures Tracks(limits, times, gone)
  {
    if times == [] {
      gone := [];
    } else {
      var init, t := times[..|times| - 1], times[|times| - 1];
      var before := WindowTracks(limits, init);
      var evicted := EvictedIsTail(Window(limits, init), t - limits.Period());
      gone := before + evicted;
      TailGrows(limits, init, t, before, evicted);
      assert times == init + [t];
      forall i | 0 <= i < |gone| ensures exists j :: 0 <= j < |times| && gone[i] + limits.Period() <= times[j] {
        if i < |before| {
          var j :| 0 <= j < |init| && before[i] + limits.Period() <= init[j];
          assert times[j] == init[j];
        } else {
          assert gone[i] == evicted[i - |before|] && times[|init|] == t;
        }
      }
    }
  }

  lemma TailGrows(limits: Limits, times: seq<real>, t: real, gone: seq<real>, evicted: seq<real>)
    requires limits.Valid()
    requires History(limits, times) == gone + Window(limits, times) && |Window(limits, times)| <= limits.calls
    requires Window(limits, times) == evicted + Evicted(Window(limits, times), t - limits.Period())
    ensures var all := times + [t];
            History(limits, all) == gone + evicted + Window(limits, all) && |Window(limits, all)| <= limits.calls
  {
    var kept := Evicted(Window(limits, times), t - limits.Period());
    var tail := if Decision(limits, times, t) then [t] else [];
    HistoryNext(limits, times, t);
    WindowNext(limits, times, t);
    Reassociate(gone, evicted, kept, tail);
  }

  lemma Reassociate(a: seq<real>, b: seq<real>, c: seq<real>, d: seq<real>)
    ensures a + (b + c) + d == a + b + (c + d)
  {
  }

  lemma WindowNext(limits: Limits, times: seq<real>, t: real)
    ensures Window(limits, times + [t]) == NextWindow(limits, Window(limits, times), t)
  {
    assert (times + [t])[..|times|] == times;
  }

  lemma HistoryNext(limits: Limits, times: seq<real>, t: real)
    ensures History(limits, times + [t]) == History(limits, times) + if Decision(limits, times, t) then [t] else []
  {
    assert (times + [t])[..|times|] == times;
  }

  /** Admitted requests are spaced: calls + 1 of them in a row take a period, less the skew of the readings. */
  lemma {:induction false} HistoryIsSpaced(limits: Limits, times: seq<real>, skew: real)
    requires limits.Valid() && skew >= 0.0 && Skewed(times, skew)
    ensures Spaced(History(limits, times), limits.calls, limits.Period() - skew)
  {
    if times != [] {
      var init, t := times[..|times| - 1], times[|times| - 1];
      HistoryIsSpaced(limits, init, skew);
      if Decision(limits, init, t) {
        AdmittedIsSpaced(limits, init, t, skew);
      } else {
        assert History(limits, init) + [] == History(limits, init);
      }
    }
  }

  lemma SpacedSnoc(history: seq<real>, calls: int, width: real, t: real)
    requires calls > 0 && Spaced(history, calls, width)
    requires forall i :: 0 <= i && i + calls <= |history| ==> history[i] + width <= t
    ensures Spaced(history + [t], calls, width)
  {
    forall i, j ensures PairSpaced(history + [t], calls, width, i, j) {
      assert PairSpaced(history, calls, width, i, j);
    }
  }

  lemma AdmittedIsSpaced(limits: Limits, times: seq<real>, t: real, skew: real)
    requires limits.Valid() && skew >= 0.0 && Skewed(times + [t], skew) && Decision(limits, times, t)
    requires Spaced(History(limits, times), limits.calls, limits.Period() - skew)
    ensures Spaced(History(limits, times) + [t], limits.calls, limits.Period() - skew)
  {
    var h := History(limits, times);
    var before := WindowTracks(limits, times);
    var evicted := EvictedIsTail(Window(limits, times), t - limits.Period());
    var gone := before + evicted;
    assert h == gone + Evicted(Window(limits, times), t - limits.Period());
    forall i | 0 <= i && i + limits.calls <= |h| ensures h[i] + (limits.Period() - skew) <= t {
      assert h[i] == gone[i];
      if i < |before| {
        var j :| 0 <= j < |times| && before[i] + limits.Period() <= times[j];
        FallsBackLittle(times, t, skew, times[j]);
      }
    }
    SpacedSnoc(h, limits.calls, limits.Period() - skew, t);
  }

  lemma {:induction false} SpacedCount(history: seq<real>, calls: int, width: real, t: real)
    requires calls > 0 && Spaced(history, calls, width)
    ensures CountIn(history, t - width, t) <= calls
    decreases |history|
  {
    if history != [] && t - width < history[0] <= t {
      FirstCounts(history, calls, width, t);
    } else if history != [] {
      var rest := history[1..];
      assert history == [history[0]] + rest;
      CountSplit([history[0]], rest, t - width, t);
      CountOne(history[0], t - width, t);
      forall i, j ensures PairSpaced(rest, calls, width, i, j) {
        assert PairSpaced(history, calls, width, i + 1, j + 1);
      }
      SpacedCount(rest, calls, width, t);
    }
  }

  /** Entries that are `calls` or more behind one in the window are past the window. */
  lemma FirstCounts(history: seq<real>, calls: int, width: real, t: real)
    requires calls > 0 && Spaced(history, calls, width) && history != [] && t - width < history[0]
    ensures CountIn(history, t - width, t) <= calls
  {
    if calls < |history| {
      var head, tail := history[..calls], history[calls..];
      assert history == head + tail;
      CountSplit(head, tail, t - width, t);
      forall j | 0 <= j < |tail| ensures t < tail[j] {
        assert PairSpaced(history, calls, width, 0, calls + j);
      }
      CountAbove(tail, t - width, t);
    }
  }

  /** In every run whose readings fall back by at most `skew`, and for every instant t, the window
      (t - (period - skew), t] holds at most `calls` admitted requests. */
  lemma EveryWindowUnderSkew(limits: Limits, times: seq<real>, skew: real, t: real)
    requires limits.Valid() && skew >= 0.0 && Skewed(times, skew)
    ensures CountIn(History(limits, times), t - (limits.Period() - skew), t) <= limits.calls
  {
    HistoryIsSpaced(limits, times, skew);
    SpacedCount(History(limits, times), limits.calls, limits.Period() - skew, t);
  }

  /** With readings in order, every window (t - period, t] holds at most `calls` admitted requests. */
  lemma EveryWindowWithinLimit(limits: Limits, times: seq<real>, t: real)
    requires limits.Valid() && Sorted(times)
    ensures CountIn(History(limits, times), t - limits.Period(), t) <= limits.calls
  {
    SortedIsSkewed(times);
    EveryWindowUnderSkew(limits, times, 0.0, t);
    SameCount(History(limits, times), t - (limits.Period() - 0.0), t, t - limits.Period(), t);
  }

  /** A request that finds room, in a run in which all were admitted. */
  lemma AdmitStep(limits: Limits, times: seq<real>, t: real, window: seq<real>, kept: seq<real>)
    requires Window(limits, times) == window && History(limits, times) == times
    requires Evicted(window, t - limits.Period()) == kept && |kept| < limits.calls
    ensures Window(limits, times + [t]) == kept + [t] && History(limits, times + [t]) == times + [t]
  {
    WindowNext(limits, times, t);
    HistoryNext(limits, times, t);
  }

  function Zeros(n: nat): (times: seq<real>)
    ensures |times| == n && forall i :: 0 <= i < n ==> times[i] == 0.0
  {
    seq(n, _ => 0.0)
  }

  lemma {:induction false} ZerosAdmitted(limits: Limits, n: nat)
    requires limits.Valid() && n <= limits.calls
    ensures Window(limits, Zeros(n)) == Zeros(n) && History(limits, Zeros(n)) == Zeros(n)
  {
    if n > 0 {
      ZerosAdmitted(limits, n - 1);
      AdmitStep(limits, Zeros(n - 1), 0.0, Zeros(n - 1), Zeros(n - 1));
      assert Zeros(n - 1) + [0.0] == Zeros(n);
    }
  }

  lemma {:induction false} ZerosEvicted(n: nat)
    ensures Evicted(Zeros(n), 0.0) == []
  {
    if n > 0 {
      ZerosEvicted(n - 1);
      assert Zeros(n)[1..] == Zeros(n - 1);
    }
  }

  /** As many requests as the limit at 0, one a period later, and one whose reading falls back by `skew`. */
  function FallingClock(limits: Limits, skew: real): seq<real>
    requires limits.Valid()
  {
    Zeros(limits.calls) + [limits.Period()] + [limits.Period() - skew]
  }

  lemma FallingClockAdmitted(limits: Limits, skew: real)
    requires limits.Valid() && limits.calls >= 2 && 0.0 <= skew
    ensures History(limits, FallingClock(limits, skew)) == FallingClock(limits, skew)
  {
    ZerosThenPeriod(limits);
    KeptAfter(limits.Period(), -skew);
    AdmitStep(
      limits, Zeros(limits.calls) + [limits.Period()], limits.Period() - skew, [limits.Period()], [limits.Period()]);
  }

  lemma ZerosThenPeriod(limits: Limits)
    requires limits.Valid()
    ensures Window(limits, Zeros(limits.calls) + [limits.Period()]) == [limits.Period()]
    ensures History(limits, Zeros(limits.calls) + [limits.Period()]) == Zeros(limits.calls) + [limits.Period()]
  {
    ZerosAdmitted(limits, limits.calls);
    ZerosEvicted(limits.calls);
    AdmitStep(limits, Zeros(limits.calls), limits.Period(), Zeros(limits.calls), []);
    assert [] + [limits.Period()] == [limits.Period()];
  }

  lemma KeptAfter(t: real, cutoff: real)
    requires cutoff < t
    ensures Evicted([t], cutoff) == [t]
  {
  }

  /** In that run a window of any width above period - skew holds more than `calls` admitted requests. */
  lemma FallingClockExceedsLimit(limits: Limits, skew: real, width: real)
    requires limits.Valid() && limits.calls >= 2 && 0.0 <= skew <= limits.Period() && width > limits.Period() - skew
    ensures Skewed(FallingClock(limits, skew), skew)
    ensures !WindowFits(limits, FallingClock(limits, skew), width, limits.Period() - skew)
  {
    var zeros, t := Zeros(limits.calls), limits.Period() - skew;
    FallingClockAdmitted(limits, skew);
    CountSplit(zeros + [limits.Period()], [t], t - width, t);
    CountSplit(zeros, [limits.Period()], t - width, t);
    CountAll(zeros, t - width, t);
    CountOne(t, t - width, t);
  }

  predicate WindowFits(limits: Limits, times: seq<real>, width: real, t: real) {
    CountIn(History(limits, times), t - width, t) <= limits.calls
  }

  /** No run whose readings fall back by at most `skew` puts more than `calls` admitted requests into any window
      (t - width, t]. */
  ghost predicate BoundHolds(limits: Limits, skew: real, width: real) {
    forall times, t :: Skewed(times, skew) ==> WindowFits(limits, times, width, t)
  }

  /** The exact widths: up to period - skew, and up to the whole period, whatever the skew, for a limit of one. */
  lemma BoundExactly(limits: Limits, skew: real, width: real)
    requires limits.Valid() && skew >= 0.0
    ensures BoundHolds(limits, skew, width)
            <==> width <= limits.Period() - skew || width <= 0.0 || (limits.calls == 1 && width <= limits.Period())
  {
    if width <= limits.Period() - skew || width <= 0.0 || (limits.calls == 1 && width <= limits.Period()) {
      forall times, t | Skewed(times, skew) ensures WindowFits(limits, times, width, t) {
        NarrowWindowFits(limits, times, skew, width, t);
      }
    } else if limits.calls == 1 {
      TwoApart(limits, width);
      assert Skewed([0.0, limits.Period()], skew) && !WindowFits(limits, [0.0, limits.Period()], width, limits.Period());
    } else {
      var back := if skew <= limits.Period() then skew else limits.Period();
      FallingClockExceedsLimit(limits, back, width);
      assert Skewed(FallingClock(limits, back), skew);
    }
  }

  lemma NarrowWindowFits(limits: Limits, times: seq<real>, skew: real, width: real, t: real)
    requires limits.Valid() && skew >= 0.0 && Skewed(times, skew)
    requires width <= limits.Period() - skew || width <= 0.0 || (limits.calls == 1 && width <= limits.Period())
    ensures WindowFits(limits, times, width, t)
  {
    var h := History(limits, times);
    if width <= limits.Period() - skew {
      EveryWindowUnderSkew(limits, times, skew, t);
      CountNarrows(h, t - (limits.Period() - skew), t - width, t);
    } else if width <= 0.0 {
      EmptyWindow(h, t - width, t);
    } else {
      OneInPeriod(limits, times, t);
      CountNarrows(h, t - limits.Period(), t - width, t);
    }
  }

  /** With a limit of one the bound of a full period needs no order among the readings. */
  lemma OneInPeriod(limits: Limits, times: seq<real>, t: real)
    requires limits.Valid() && limits.calls == 1
    ensures CountIn(History(limits, times), t - limits.Period(), t) <= 1
  {
    OneIsSpaced(limits, times);
    SpacedCount(History(limits, times), 1, limits.Period(), t);
  }

  lemma {:induction false} CountNarrows(times: seq<real>, lo: real, lo': real, hi: real)
    requires lo <= lo'
    ensures CountIn(times, lo', hi) <= CountIn(times, lo, hi)
  {
    if times != [] {
      CountNarrows(times[..|times| - 1], lo, lo', hi);
    }
  }

  predicate LastOnly(window: seq<real>, history: seq<real>) {
    window == if history == [] then [] else [history[|history| - 1]]
  }

  /** With a limit of one the window is the last admitted request, and the next one is admitted a period after it at the
      earliest, however the readings fall back. */
  lemma {:induction false} OneIsSpaced(limits: Limits, times: seq<real>)
    requires limits.Valid() && limits.calls == 1
    ensures LastOnly(Window(limits, times), History(limits, times))
    ensures Spaced(History(limits, times), 1, limits.Period())
  {
    if times != [] {
      var init, t := times[..|times| - 1], times[|times| - 1];
      OneIsSpaced(limits, init);
      OneMore(Window(limits, init), History(limits, init), limits.Period(), t);
      WindowNext(limits, init, t);
      HistoryNext(limits, init, t);
      assert times == init + [t] && History(limits, init) + [] == History(limits, init);
    }
  }

  lemma OneMore(window: seq<real>, h: seq<real>, period: real, t: real)
    requires period > 0.0 && LastOnly(window, h) && Spaced(h, 1, period)
    ensures var kept := Evicted(window, t - period);
            if kept == [] then LastOnly(kept + [t], h + [t]) && Spaced(h + [t], 1, period)
            else kept == window && |kept| == 1
  {
    EvictionShortens(window, t - period);
    if Evicted(window, t - period) == [] {
      LaterByPeriod(h, period, t);
    }
  }

  lemma LaterByPeriod(h: seq<real>, period: real, t: real)
    requires Spaced(h, 1, period) && period > 0.0 && (h != [] ==> h[|h| - 1] + period <= t)
    ensures Spaced(h + [t], 1, period)
  {
    forall i | 0 <= i && i + 1 <= |h| ensures h[i] + period <= t {
      assert PairSpaced(h, 1, period, i, |h| - 1);
    }
    SpacedSnoc(h, 1, period, t);
  }

  lemma TwoApart(limits: Limits, width: real)
    requires limits.Valid() && limits.calls == 1 && width > limits.Period()
    ensures !WindowFits(limits, [0.0, limits.Period()], width, limits.Period())
  {
    var period := limits.Period();
    ZerosAdmitted(limits, 1);
    ZerosEvicted(1);
    assert Zeros(1) == [0.0];
    AdmitStep(limits, [0.0], period, [0.0], []);
    assert [0.0] + [period] == [0.0, period];
    CountSplit([0.0], [period], period - width, period);
    CountOne(0.0, period - width, period);
    CountOne(period, period - width, period);
  }

  lemma {:induction false} HistoryFromTimes(limits: Limits, times: seq<real>, skew: real)
    requires Skewed(times, skew)
    ensures forall x :: x in History(limits, times) ==> x in times
    ensures Skewed(History(limits, times), skew)
  {
    if times != [] {
      var init, t := times[..|times| - 1], times[|times| - 1];
      HistoryFromTimes(limits, init, skew);
      assert times == init + [t];
      var h := History(limits, init);
      forall i | 0 <= i < |h| ensures h[i] - skew <= t {
        assert h[i] in h;
        FallsBackLittle(init, t, skew, h[i]);
      }
      assert h + [] == h;
    }
  }

  /** How a decision compares with counting in the full, never evicted history, for readings that fall back by at most
      `skew`: an admitted request finds room in a window that much shorter, and a denied one finds none in a window
      that much longer at both ends. */
  lemma DecisionUnderSkew(limits: Limits, times: seq<real>, skew: real, t: real)
    requires limits.Valid() && skew >= 0.0 && Skewed(times + [t], skew)
    ensures var h, period := History(limits, times), limits.Period();
            if Decision(limits, times, t) then CountIn(h, t - (period - skew), t) < limits.calls
            else CountIn(h, t - period - skew, t + skew) >= limits.calls
  {
    if Decision(limits, times, t) {
      AdmittedFindsRoom(limits, times, skew, t);
    } else {
      DeniedFindsNone(limits, times, skew, t);
    }
  }

  lemma AdmittedFindsRoom(limits: Limits, times: seq<real>, skew: real, t: real)
    requires limits.Valid() && skew >= 0.0 && Skewed(times + [t], skew) && Decision(limits, times, t)
    ensures CountIn(History(limits, times), t - (limits.Period() - skew), t) < limits.calls
  {
    var h, lo := History(limits, times), t - (limits.Period() - skew);
    EveryWindowUnderSkew(limits, times + [t], skew, t);
    HistoryNext(limits, times, t);
    CountSplit(h, [t], lo, t);
    CountOne(t, lo, t);
    if lo >= t {
      EmptyWindow(h, lo, t);
    }
  }

  lemma {:induction false} EmptyWindow(times: seq<real>, lo: real, hi: real)
    requires hi <= lo
    ensures CountIn(times, lo, hi) == 0
  {
    if times != [] {
      EmptyWindow(times[..|times| - 1], lo, hi);
    }
  }

  lemma DeniedFindsNone(limits: Limits, times: seq<real>, skew: real, t: real)
    requires limits.Valid() && skew >= 0.0 && Skewed(times + [t], skew) && !Decision(limits, times, t)
    ensures CountIn(History(limits, times), t - limits.Period() - skew, t + skew) >= limits.calls
  {
    var before := WindowTracks(limits, times);
    var evicted := EvictedIsTail(Window(limits, times), t - limits.Period());
    var kept := Evicted(Window(limits, times), t - limits.Period());
    assert History(limits, times) == before + evicted + kept by {
      assert before + (evicted + kept) == before + evicted + kept;
    }
    TailCounts(limits, times, skew, t, before + evicted, kept);
  }

  lemma TailCounts(limits: Limits, times: seq<real>, skew: real, t: real, gone: seq<real>, kept: seq<real>)
    requires limits.Valid() && skew >= 0.0 && Skewed(times + [t], skew) && History(limits, times) == gone + kept
    requires kept == [] || t - limits.Period() < kept[0]
    ensures CountIn(History(limits, times), t - limits.Period() - skew, t + skew) >= |kept|
  {
    var h, lo, hi := History(limits, times), t - limits.Period() - skew, t + skew;
    PrefixIsSkewed(times, t, skew);
    HistoryFromTimes(limits, times, skew);
    forall i | 0 <= i < |kept| ensures lo < kept[i] <= hi {
      assert kept[i] == h[|gone| + i] && kept[0] == h[|gone|];
      assert kept[i] in h;
      FallsBackLittle(times, t, skew, kept[i]);
    }
    CountSplit(gone, kept, lo, hi);
    CountAll(kept, lo, hi);
  }

  lemma PrefixIsSkewed(times: seq<real>, t: real, skew: real)
    requires Skewed(times + [t], skew)
    ensures Skewed(times, skew)
  {
    assert forall i :: 0 <= i < |times| ==> (times + [t])[i] == times[i];
  }

  lemma FallsBackLittle(times: seq<real>, t: real, skew: real, x: real)
    requires Skewed(times + [t], skew) && x in times
    ensures x - skew <= t
  {
    var j :| 0 <= j < |times| && times[j] == x;
    assert (times + [t])[j] == x && (times + [t])[|times|] == t;
  }

  lemma {:induction false} CountAll(times: seq<real>, lo: real, hi: real)
    requires forall i :: 0 <= i < |times| ==> lo < times[i] <= hi
    ensures CountIn(times, lo, hi) == |times|
  {
    if times != [] {
      CountAll(times[..|times| - 1], lo, hi);
    }
  }

  lemma SortedIsSkewed(times: seq<real>)
    requires Sorted(times)
    ensures Skewed(times, 0.0)
  {
  }

  lemma SameCount(times: seq<real>, lo: real, hi: real, lo': real, hi': real)
    requires lo == lo' && hi == hi'
    ensures CountIn(times, lo, hi) == CountIn(times, lo', hi')
  {
  }

  /** With readings in order, each decision is the one that counting in the full history gives. */
  lemma DecisionMatchesHistory(limits: Limits, times: seq<real>, t: real)
    requires limits.Valid() && Sorted(times + [t])
    ensures Decision(limits, times, t) <==> CountIn(History(limits, times), t - limits.Period(), t) < limits.calls
  {
    SortedIsSkewed(times + [t]);
    if Decision(limits, times, t) {
      AdmittedInOrder(limits, times, t);
    } else {
      DeniedInOrder(limits, times, t);
    }
  }

  lemma AdmittedInOrder(limits: Limits, times: seq<real>, t: real)
    requires limits.Valid() && Skewed(times + [t], 0.0) && Decision(limits, times, t)
    ensures CountIn(History(limits, times), t - limits.Period(), t) < limits.calls
  {
    AdmittedFindsRoom(limits, times, 0.0, t);
    SameCount(History(limits, times), t - (limits.Period() - 0.0), t, t - limits.Period(), t);
  }

  lemma DeniedInOrder(limits: Limits, times: seq<real>, t: real)
    requires limits.Valid() && Skewed(times + [t], 0.0) && !Decision(limits, times, t)
    ensures CountIn(History(limits, times), t - limits.Period(), t) >= limits.calls
  {
    DeniedFindsNone(limits, times, 0.0, t);
    SameCount(History(limits, times), t - limits.Period() - 0.0, t + 0.0, t - limits.Period(), t);
  }

  // ---------------------------------------------------------------- retry-after

  /** After a denial the window is full, and its oldest entry is still inside the period. */
  lemma DeniedWindowIsFull(limits: Limits, times: seq<real>, t: real)
    requires limits.Valid() && !Decision(limits, times, t)
    ensures var window := Window(limits, times + [t]);
            |window| == limits.calls && t < window[0] + limits.Period()
  {
    var gone := WindowTracks(limits, times);
    WindowNext(limits, times, t);
    var kept := Evicted(Window(limits, times), t - limits.Period());
    EvictionShortens(Window(limits, times), t - limits.Period());
    assert kept + [] == kept;
  }

  /** Request i of the later ones is denied. */
  predicate DeniedAt(limits: Limits, times: seq<real>, later: seq<real>, i: nat)
    requires i < |later|
  {
    !Decision(limits, times + later[..i], later[i])
  }

  lemma PrefixAt(times: seq<real>, n: nat, i: nat)
    requires i < n <= |times|
    ensures times[..n][..i] == times[..i] && times[..n][i] == times[i]
  {
  }

  /** While the window is full, requests before its oldest entry leaves it are denied and change nothing. */
  lemma {:induction false} DeniedUntilOldestLeaves(limits: Limits, times: seq<real>, later: seq<real>)
    requires limits.Valid() && |Window(limits, times)| == limits.calls
    requires forall i :: 0 <= i < |later| ==> later[i] < Window(limits, times)[0] + limits.Period()
    ensures Window(limits, times + later) == Window(limits, times)
    ensures forall i :: 0 <= i < |later| ==> DeniedAt(limits, times, later, i)
    decreases |later|
  {
    if later == [] {
      assert times + later == times;
    } else {
      var n := |later| - 1;
      DeniedUntilOldestLeaves(limits, times, later[..n]);
      TooEarlyIsDenied(limits, times + later[..n], later[n]);
      assert times + later == times + later[..n] + [later[n]];
      forall i | 0 <= i < n ensures DeniedAt(limits, times, later, i) {
        assert DeniedAt(limits, times, later[..n], i);
        PrefixAt(later, n, i);
      }
    }
  }

  lemma TooEarlyIsDenied(limits: Limits, times: seq<real>, t: real)
    requires limits.Valid() && |Window(limits, times)| == limits.calls && t < Window(limits, times)[0] + limits.Period()
    ensures !Decision(limits, times, t) && Window(limits, times + [t]) == Window(limits, times)
  {
    WindowNext(limits, times, t);
    assert Window(limits, times) + [] == Window(limits, times);
  }

  /** Read after a denial, now + `retry_after_seconds` is exactly when the key is admitted again: whatever requests come
      before it are denied, and the next one is admitted if and only if it does not come before it. This needs no order
      among the readings. */
  lemma RetryAfterIsExact(limits: Limits, times: seq<real>, t: real, now: real, later: seq<real>, q: real)
    requires limits.Valid() && !Decision(limits, times, t) && now <= q
    requires var window := Window(limits, times + [t]);
             forall i :: 0 <= i < |later| ==> later[i] < window[0] + limits.Period()
    ensures var back := now + RetryAfter(limits, Window(limits, times + [t]), now);
            Decision(limits, times + [t] + later, q) <==> back <= q
    ensures forall i :: 0 <= i < |later| ==> DeniedAt(limits, times + [t], later, i)
  {
    DeniedWindowIsFull(limits, times, t);
    DeniedUntilOldestLeaves(limits, times + [t], later);
    EvictionShortens(Window(limits, times + [t]), q - limits.Period());
  }

  /** Denied requests leave a full window as it is. */
  lemma {:induction false} DeniedChangeNothing(limits: Limits, times: seq<real>, later: seq<real>)
    requires limits.Valid() && |Window(limits, times)| == limits.calls
    requires forall i :: 0 <= i < |later| ==> DeniedAt(limits, times, later, i)
    ensures Window(limits, times + later) == Window(limits, times)
    decreases |later|
  {
    if later == [] {
      assert times + later == times;
    } else {
      var n := |later| - 1;
      forall i | 0 <= i < n ensures DeniedAt(limits, times, later[..n], i) {
        assert DeniedAt(limits, times, later, i);
        PrefixAt(later, n, i);
      }
      DeniedChangeNothing(limits, times, later[..n]);
      assert times + later == times + later[..n] + [later[n]];
      assert DeniedAt(limits, times, later, n);
      DeniedKeepsWindow(limits, times + later[..n], later[n]);
    }
  }

  lemma DeniedKeepsWindow(limits: Limits, times: seq<real>, t: real)
    requires limits.Valid() && |Window(limits, times)| == limits.calls && !Decision(limits, times, t)
    ensures Window(limits, times + [t]) == Window(limits, times)
  {
    var window := Window(limits, times);
    WindowNext(limits, times, t);
    EvictionShortens(window, t - limits.Period());
    assert Evicted(window, t - limits.Period()) == window;
    assert window + [] == window;
  }

  /** Waiting the whole seconds of the Retry-After header, one more than the rounded-down value, is enough unless
      another request of the key was admitted in the meantime; denied ones make no difference. */
  lemma HeaderIsEnough(limits: Limits, times: seq<real>, t: real, now: real, later: seq<real>, q: real)
    requires limits.Valid() && !Decision(limits, times, t)
    requires forall i :: 0 <= i < |later| ==> DeniedAt(limits, times + [t], later, i)
    requires q >= now + (RetryAfter(limits, Window(limits, times + [t]), now).Floor + 1) as real
    ensures Decision(limits, times + [t] + later, q)
  {
    DeniedWindowIsFull(limits, times, t);
    DeniedChangeNothing(limits, times + [t], later);
    assert times + [t] + [] == times + [t];
    RetryAfterIsExact(limits, times, t, now, [], q);
  }

  /** An admitted one does: with a limit of one, a request at 10 takes the place that was told to a request at 5. */
  lemma TakenPlaceIsDenied()
    ensures var limits, times := Limits(1, 10), [0.0, 5.0];
            && !Decision(limits, [0.0], 5.0) && RetryAfter(limits, Window(limits, times), 5.0) == 5.0
            && Decision(limits, times, 10.0) && !Decision(limits, times + [10.0], 11.0)
  {
    var limits := Limits(1, 10);
    WindowNext(limits, [], 0.0);
    assert [] + [0.0] == [0.0];
    assert Window(limits, [0.0]) == [0.0];
    WindowNext(limits, [0.0], 5.0);
    assert [0.0] + [5.0] == [0.0, 5.0];
    assert Window(limits, [0.0, 5.0]) == [0.0];
    WindowNext(limits, [0.0, 5.0], 10.0);
    assert Evicted([0.0], 0.0) == [];
    assert Window(limits, [0.0, 5.0] + [10.0]) == [10.0];
  }
}
