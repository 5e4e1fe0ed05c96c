/** The watchdog's restart limiter and the delay structure of its supervision loop (apps/watchdog/src/main.rs). */
module RestartLimiter {
  datatype Settings = Settings(maxRestarts: nat, window: nat, normalDelay: nat, backoffDelay: nat)

  /** `now.checked_sub(window).unwrap_or(now)`: before one window has passed on the clock, only `now` itself. */
  function Cutoff(now: nat, window: nat): nat {
    if window <= now then now - window else now
  }

  function DropBefore(history: seq<nat>, cutoff: nat): (r: seq<nat>)
    ensures |r| <= |history|
  {
    if history != [] && history[0] < cutoff then DropBefore(history[1..], cutoff) else history
  }

  /** The history after a restart at `now`. */
  function Recorded(history: seq<nat>, now: nat, s: Settings): seq<nat> {
    DropBefore(history + [now], Cutoff(now, s.window))
  }

  function DelayFor(history: seq<nat>, s: Settings): nat {
    if |history| > s.maxRestarts then s.backoffDelay else s.normalDelay
  }

  class Limiter {
    var history: seq<nat>
    const settings: Settings

    constructor (settings: Settings)
      ensures this.settings == settings && history == []
    {
      this.settings := settings;
      history := [];
    }

    method RecordAndNextDelay(now: nat) returns (delay: nat)
      modifies this
      ensures history == Recorded(old(history), now, settings)
      ensures delay == DelayFor(history, settings)
    {
      history := history + [now];
      var cutoff := if settings.window <= now then now - settings.window else now;
      while history != [] && history[0] < cutoff
        invariant DropBefore(history, cutoff) == Recorded(old(history), now, settings)
        decreases |history|
      {
        history := history[1..];
      }
      if |history| > settings.maxRestarts {
        delay := settings.backoffDelay;
      } else {
        delay := settings.normalDelay;
      }
    }
  }

  // ----- runs -----

  predicate InOrder(times: seq<nat>) {
    forall i, j :: 0 <= i < j < |times| ==> times[i] <= times[j]
  }

  function HistoryAfter(times: seq<nat>, s: Settings): seq<nat>
    decreases |times|
  {
    if times == [] then [] else Recorded(HistoryAfter(times[..|times| - 1], s), times[|times| - 1], s)
  }

  /** The restarts at or after `from`, in order. */
  function Since(times: seq<nat>, from: nat): seq<nat> {
    if times == [] then []
    else Since(times[..|times| - 1], from) + if times[|times| - 1] >= from then [times[|times| - 1]] else []
  }

  /** The highest cutoff any call of the run has applied. */
  function HighestCutoff(times: seq<nat>, s: Settings): nat {
    if times == [] then 0
    else Max(HighestCutoff(times[..|times| - 1], s), Cutoff(times[|times| - 1], s.window))
  }

  function Max(a: nat, b: nat): nat {
    if a < b then b else a
  }

  lemma {:induction false} SinceInOrder(times: seq<nat>, from: nat)
    requires InOrder(times)
    ensures InOrder(Since(times, from))
    ensures forall i :: 0 <= i < |Since(times, from)| ==> from <= Since(times, from)[i] <= times[|times| - 1]
  {
    if times != [] {
      var k := |times| - 1;
      SinceInOrder(times[..k], from);
      if k > 0 {
        assert times[..k][k - 1] <= times[k];
      }
    }
  }

  lemma SinceAppend(times: seq<nat>, now: nat, from: nat)
    ensures Since(times + [now], from) == Since(times, from) + if now >= from then [now] else []
  {
    assert (times + [now])[..|times|] == times;
  }

  lemma DropIsSince(times: seq<nat>, from: nat, cutoff: nat)
    requires InOrder(times)
    ensures DropBefore(Since(times, from), cutoff) == Since(times, Max(from, cutoff))
  {
    SinceInOrder(times, from);
    DropSorted(Since(times, from), cutoff);
    SinceSince(times, from, cutoff);
  }

  lemma {:induction false} SinceSince(times: seq<nat>, from: nat, cutoff: nat)
    ensures Since(Since(times, from), cutoff) == Since(times, Max(from, cutoff))
  {
    if times != [] {
      var k := |times| - 1;
      SinceSince(times[..k], from, cutoff);
      if times[k] >= from {
        SinceAppend(Since(times[..k], from), times[k], cutoff);
      } else {
        assert Since(times[..k], from) + [] == Since(times[..k], from);
        assert Since(times[..k], Max(from, cutoff)) + [] == Since(times[..k], Max(from, cutoff));
      }
    }
  }

  lemma {:induction false} DropSorted(history: seq<nat>, cutoff: nat)
    requires InOrder(history)
    ensures DropBefore(history, cutoff) == Since(history, cutoff)
  {
    if history != [] {
      if history[0] < cutoff {
        DropSorted(history[1..], cutoff);
        SinceFirst(history, cutoff);
      } else {
        SinceAll(history, cutoff);
      }
    }
  }

  lemma {:induction false} SinceFirst(history: seq<nat>, cutoff: nat)
    requires history != [] && history[0] < cutoff
    ensures Since(history, cutoff) == Since(history[1..], cutoff)
  {
    if |history| > 1 {
      var k := |history| - 1;
      SinceFirst(history[..k], cutoff);
      assert history[1..][..k - 1] == history[..k][1..];
    }
  }

  lemma {:induction false} SinceAll(history: seq<nat>, cutoff: nat)
    requires forall i :: 0 <= i < |history| ==> history[i] >= cutoff
    ensures Since(history, cutoff) == history
  {
    if history != [] {
      var k := |history| - 1;
      SinceAll(history[..k], cutoff);
      assert history[k] >= cutoff && history == history[..k] + [history[k]];
    }
  }

  /** Over every run, the history is exactly the restarts since the highest cutoff applied so far. */
  lemma {:induction false} HistoryIs(times: seq<nat>, s: Settings)
    requires InOrder(times)
    ensures HistoryAfter(times, s) == Since(times, HighestCutoff(times, s))
    decreases |times|
  {
    if times != [] {
      var k := |times| - 1;
      HistoryIs(times[..k], s);
      var from, now := HighestCutoff(times[..k], s), times[k];
      CutoffsPassed(times[..k], s, now);
      assert Since(times, from) == Since(times[..k], from) + [now];
      DropIsSince(times, from, Cutoff(now, s.window));
    }
  }

  lemma {:induction false} CutoffsPassed(times: seq<nat>, s: Settings, now: nat)
    requires forall i :: 0 <= i < |times| ==> times[i] <= now
    ensures HighestCutoff(times, s) <= now
  {
    if times != [] {
      CutoffsPassed(times[..|times| - 1], s, now);
    }
  }

  /** Where the closed window that ends at `now` starts on the clock. */
  function WindowStart(now: nat, window: nat): nat {
    if window <= now then now - window else 0
  }

  /** Two restarts at different instants, both within the last window and both before the clock reached one
      window: the later one applied its own instant as the cutoff. */
  predicate Forgets(times: seq<nat>, s: Settings, now: nat) {
    exists i, j :: 0 <= i < j < |times| && WindowStart(now, s.window) <= times[i] < times[j] < s.window
  }

  /** Raising the start of the interval keeps the restarts in it exactly when none lies in between. */
  lemma {:induction false} SinceSame(times: seq<nat>, from: nat, to: nat)
    requires from <= to
    ensures |Since(times, to)| <= |Since(times, from)|
    ensures (forall i :: 0 <= i < |times| ==> !(from <= times[i] < to)) ==> Since(times, to) == Since(times, from)
    ensures (exists i :: 0 <= i < |times| && from <= times[i] < to) ==> |Since(times, to)| < |Since(times, from)|
  {
    if times != [] {
      var k := |times| - 1;
      SinceSame(times[..k], from, to);
      assert forall i :: 0 <= i < k ==> times[i] == times[..k][i];
    }
  }

  /** The highest cutoff is at least every cutoff, and is one of them unless there is none. */
  lemma {:induction false} HighestCutoffIs(times: seq<nat>, s: Settings) returns (m: nat)
    requires times != []
    ensures m < |times| && HighestCutoff(times, s) == Cutoff(times[m], s.window)
    ensures forall i :: 0 <= i < |times| ==> Cutoff(times[i], s.window) <= HighestCutoff(times, s)
  {
    var k := |times| - 1;
    m := k;
    if k > 0 {
      var n := HighestCutoffIs(times[..k], s);
      if HighestCutoff(times[..k], s) >= Cutoff(times[k], s.window) {
        m := n;
      }
      assert forall i :: 0 <= i < k ==> times[i] == times[..k][i];
    }
  }

  /** The exact condition, for every run on every clock: the history is the restarts of the last window unless
      two of these came at different instants before the clock had reached one window. */
  lemma HistoryIsWindowIff(times: seq<nat>, s: Settings)
    requires InOrder(times) && times != []
    ensures var now := times[|times| - 1];
            HistoryAfter(times, s) == Since(times, WindowStart(now, s.window)) <==> !Forgets(times, s, now)
  {
    hide HistoryAfter, Since, HighestCutoff;
    var now := times[|times| - 1];
    var from, high := WindowStart(now, s.window), HighestCutoff(times, s);
    HistoryIs(times, s);
    var m := HighestCutoffIs(times, s);
    assert from <= Cutoff(now, s.window) <= high;
    SinceSame(times, from, high);
    if i :| 0 <= i < |times| && from <= times[i] < high {
      assert times[m] < s.window && high == times[m];
      assert i < m;
    }
    if Forgets(times, s, now) {
      var i, j :| 0 <= i < j < |times| && from <= times[i] < times[j] < s.window;
      assert Cutoff(times[j], s.window) == times[j];
    }
  }

  /** At most one instant of the run lies before the clock has reached one window. */
  predicate Settled(times: seq<nat>, s: Settings) {
    forall i, j :: 0 <= i < j < |times| && times[j] < s.window ==> times[i] == times[j]
  }

  /** Then the history is sorted and holds exactly the restarts of the closed window that ends now, and the answer
      is the backoff delay exactly when they exceed the limit. */
  lemma HistoryIsWindow(times: seq<nat>, s: Settings)
    requires InOrder(times) && Settled(times, s) && times != []
    ensures var recent := Since(times, WindowStart(times[|times| - 1], s.window));
            && HistoryAfter(times, s) == recent && InOrder(recent)
            && DelayFor(HistoryAfter(times, s), s) == if |recent| > s.maxRestarts then s.backoffDelay else s.normalDelay
  {
    hide HistoryAfter, Since;
    HistoryIsWindowIff(times, s);
    SinceInOrder(times, WindowStart(times[|times| - 1], s.window));
  }

  /** Restarts are forgotten early, for one: with a window of 10, the restart at 3 is gone at time 12. */
  lemma EarlyRestartForgotten(s: Settings)
    requires s.window == 10
    ensures HistoryAfter([3, 5, 12], s) == [5, 12] && Since([3, 5, 12], 2) == [3, 5, 12]
  {
    assert [3, 5, 12][..2] == [3, 5] && [3, 5][..1] == [3] && [3][..0] == [];
    assert HistoryAfter([], s) == [];
    assert HistoryAfter([3], s) == DropBefore([] + [3], 3) == [3];
    assert ([3] + [5])[1..] == [5];
    assert HistoryAfter([3, 5], s) == DropBefore([3] + [5], 5) == [5];
    assert HistoryAfter([3, 5, 12], s) == DropBefore([5] + [12], 2) == [5, 12];
  }

  // ----- bounds -----

  /** Restart i exceeded the limit, so it was answered with the backoff delay. */
  predicate Over(times: seq<nat>, s: Settings, i: nat)
    requires i < |times|
  {
    |HistoryAfter(times[..i + 1], s)| > s.maxRestarts
  }

  function CountOver(times: seq<nat>, s: Settings, n: nat, a: nat, b: nat): nat
    requires n <= |times|
  {
    if n == 0 then 0
    else CountOver(times, s, n - 1, a, b) + if a <= times[n - 1] <= b && Over(times, s, n - 1) then 1 else 0
  }

  function CountNormal(times: seq<nat>, s: Settings, n: nat, a: nat, b: nat): nat
    requires n <= |times|
  {
    if n == 0 then 0
    else CountNormal(times, s, n - 1, a, b) + if a <= times[n - 1] <= b && !Over(times, s, n - 1) then 1 else 0
  }

  lemma {:induction false} NormalAmongRecent(times: seq<nat>, s: Settings, n: nat, a: nat, b: nat, from: nat)
    requires n <= |times| && from <= a
    ensures CountNormal(times, s, n, a, b) <= |Since(times[..n], from)|
  {
    if n > 0 {
      NormalAmongRecent(times, s, n - 1, a, b, from);
      assert times[..n][..n - 1] == times[..n - 1];
    }
  }

  /** Any closed window contains at most `maxRestarts` restarts answered with the normal delay. */
  lemma {:induction false} NormalBounded(times: seq<nat>, s: Settings, n: nat, a: nat)
    requires InOrder(times) && Settled(times, s) && n <= |times|
    ensures CountNormal(times, s, n, a, a + s.window) <= s.maxRestarts
  {
    hide HistoryAfter, Since;
    if n > 0 {
      var now := times[n - 1];
      if a <= now <= a + s.window && !Over(times, s, n - 1) {
        assert times[..n][n - 1] == now;
        HistoryIsWindow(times[..n], s);
        NormalAmongRecent(times, s, n, a, a + s.window, WindowStart(now, s.window));
      } else {
        NormalBounded(times, s, n - 1, a);
      }
    }
  }

  /** The loop sleeps the returned delay before anything else is recorded. */
  ghost predicate Spaced(times: seq<nat>, s: Settings) {
    forall i :: 0 <= i < |times| - 1 ==> times[i] + DelayFor(HistoryAfter(times[..i + 1], s), s) <= times[i + 1]
  }

  lemma SpacedOver(times: seq<nat>, s: Settings, l: nat, k: nat)
    requires InOrder(times) && Spaced(times, s) && l < k < |times| && Over(times, s, l)
    ensures times[l] + s.backoffDelay <= times[k]
  {
    assert times[l + 1] <= times[k];
  }

  /** The last of c backed-off restarts since `a` comes at least c - 1 backoff delays after `a`. */
  lemma {:induction false} OverSpread(times: seq<nat>, s: Settings, n: nat, a: nat, b: nat) returns (l: nat)
    requires InOrder(times) && Spaced(times, s) && n <= |times|
    requires CountOver(times, s, n, a, b) > 0
    ensures l < n && Over(times, s, l) && times[l] <= b
    ensures times[l] >= a + (CountOver(times, s, n, a, b) - 1) * s.backoffDelay
  {
    hide HistoryAfter, InOrder, Spaced;
    if a <= times[n - 1] <= b && Over(times, s, n - 1) {
      l := n - 1;
      var c := CountOver(times, s, n - 1, a, b);
      if c > 0 {
        var l' := OverSpread(times, s, n - 1, a, b);
        SpacedOver(times, s, l', l);
        OneMore(c, s.backoffDelay);
      }
    } else {
      l := OverSpread(times, s, n - 1, a, b);
    }
  }

  lemma {:induction false} AllCounted(times: seq<nat>, s: Settings, n: nat, a: nat, b: nat)
    requires n <= |times|
    ensures CountOver(times, s, n, a, b) + CountNormal(times, s, n, a, b) == CountBetween(times, n, a, b)
  {
    if n > 0 {
      AllCounted(times, s, n - 1, a, b);
    }
  }

  function CountBetween(times: seq<nat>, n: nat, a: nat, b: nat): nat
    requires n <= |times|
  {
    if n == 0 then 0 else CountBetween(times, n - 1, a, b) + if a <= times[n - 1] <= b then 1 else 0
  }

  lemma OneMore(c: nat, d: nat)
    ensures c > 0 ==> (c - 1) * d + d == c * d
  {
  }

  lemma MultiplyMonotone(q: nat, c: nat, d: nat)
    requires q <= c
    ensures q * d <= c * d
  {
  }

  lemma DivideBound(c: nat, d: nat, w: nat)
    requires d > 0 && c * d <= w
    ensures c <= w / d
  {
    var q := w / d;
    assert w == q * d + w % d;
    if q < c {
      MultiplyMonotone(q + 1, c, d);
      OneMore(q + 1, d);
      assert false;
    }
  }

  lemma OverBounded(times: seq<nat>, s: Settings, a: nat, b: nat)
    requires InOrder(times) && Spaced(times, s) && s.backoffDelay > 0 && b == a + s.window
    ensures CountOver(times, s, |times|, a, b) <= s.window / s.backoffDelay + 1
  {
    hide *;
    var c := CountOver(times, s, |times|, a, b);
    if c > 0 {
      var l := OverSpread(times, s, |times|, a, b);
      DivideBound(c - 1, s.backoffDelay, s.window);
    }
  }

  /** Sleeping the returned delays, any closed window sees at most `maxRestarts + window / backoffDelay + 1`
      restarts. */
  lemma RestartsBounded(times: seq<nat>, s: Settings, a: nat)
    requires InOrder(times) && Settled(times, s) && Spaced(times, s) && s.backoffDelay > 0
    ensures RestartsIn(times, a, s.window) <= s.maxRestarts + s.window / s.backoffDelay + 1
  {
    assert RestartsIn(times, a, s.window) == CountBetween(times, |times|, a, a + s.window);
    hide CountBetween, CountOver, CountNormal, HistoryAfter, InOrder, Spaced;
    var n, b := |times|, a + s.window;
    AllCounted(times, s, n, a, b);
    NormalBounded(times, s, n, a);
    OverBounded(times, s, a, b);
  }

  // ----- before one window has passed on the clock -----

  /** All restarts at different instants before the clock has reached one window. */
  predicate Early(times: seq<nat>, s: Settings) {
    && (forall i, j :: 0 <= i < j < |times| ==> times[i] < times[j])
    && (forall i :: 0 <= i < |times| ==> times[i] < s.window)
  }

  /** There every restart forgets all others. */
  lemma EarlyHistory(times: seq<nat>, s: Settings)
    requires Early(times, s) && times != []
    ensures HistoryAfter(times, s) == [times[|times| - 1]]
  {
    var k := |times| - 1;
    HistoryIs(times, s);
    var m := HighestCutoffIs(times, s);
    assert Cutoff(times[m], s.window) == times[m] && Cutoff(times[k], s.window) == times[k];
    assert HighestCutoff(times, s) == times[k];
    OnlyLast(times);
  }

  lemma OnlyLast(times: seq<nat>)
    requires times != [] && forall i :: 0 <= i < |times| - 1 ==> times[i] < times[|times| - 1]
    ensures Since(times, times[|times| - 1]) == [times[|times| - 1]]
  {
    var k := |times| - 1;
    NoneSince(times[..k], times[k]);
  }

  lemma {:induction false} NoneSince(times: seq<nat>, from: nat)
    requires forall i :: 0 <= i < |times| ==> times[i] < from
    ensures Since(times, from) == []
  {
    if times != [] {
      NoneSince(times[..|times| - 1], from);
    }
  }

  /** So a crash loop never backs off, however many restarts there are, and both bounds above fail. */
  lemma {:induction false} EarlyNeverOver(times: seq<nat>, s: Settings, n: nat)
    requires Early(times, s) && s.maxRestarts >= 1 && n <= |times|
    ensures forall i :: 0 <= i < n ==> !Over(times, s, i)
    ensures CountNormal(times, s, n, 0, s.window) == n == CountBetween(times, n, 0, s.window)
  {
    if n > 0 {
      EarlyNeverOver(times, s, n - 1);
      EarlyHistory(times[..n], s);
    }
  }

  /** Restarts at the pace of the normal delay, from the origin of the clock on. */
  function EveryDelay(n: nat, delay: nat): (r: seq<nat>)
    ensures |r| == n && forall i :: 0 <= i < n ==> r[i] == i * delay
  {
    seq(n, i requires 0 <= i < n => i * delay)
  }

  lemma EveryDelayEarly(n: nat, s: Settings)
    requires 0 < s.normalDelay && n * s.normalDelay <= s.window
    ensures Early(EveryDelay(n, s.normalDelay), s)
  {
    var d, times := s.normalDelay, EveryDelay(n, s.normalDelay);
    forall i, j | 0 <= i < j < n ensures times[i] < times[j] {
      OneMore(i + 1, d);
      MultiplyMonotone(i + 1, j, d);
    }
    forall i | 0 <= i < n ensures times[i] < s.window {
      OneMore(i + 1, d);
      MultiplyMonotone(i + 1, n, d);
    }
  }

  /** A loop that sleeps its delays meets neither bound there: it restarts once per normal delay for a whole
      window, without backing off once. */
  lemma CrashLoopNeverBacksOff(n: nat, s: Settings)
    requires 0 < s.normalDelay && n * s.normalDelay <= s.window && s.maxRestarts >= 1
    ensures var times := EveryDelay(n, s.normalDelay);
            && InOrder(times) && Spaced(times, s)
            && CountNormal(times, s, n, 0, s.window) == n && RestartsIn(times, 0, s.window) == n
  {
    hide HistoryAfter, CountNormal, CountBetween;
    var times := EveryDelay(n, s.normalDelay);
    EveryDelayEarly(n, s);
    EarlyNeverOver(times, s, n);
    forall i | 0 <= i < n - 1
      ensures times[i] + DelayFor(HistoryAfter(times[..i + 1], s), s) <= times[i + 1]
    {
      assert !Over(times, s, i);
      OneMore(i + 1, s.normalDelay);
    }
  }

  // ----- the supervision loop -----

  /** One turn of `run_watchdog` and the time it takes up to the point where it records or retries. */
  datatype Turn = IntegrityFails(elapsed: nat) | SpawnFails(elapsed: nat) | ChildEnds(elapsed: nat)

  const SECOND: nat := 1_000_000_000
  const WATCHDOG := Settings(5, 60 * SECOND, 1 * SECOND, 30 * SECOND)
  const SPAWN_RETRY: nat := 5 * SECOND

  /** The restarts the loop records when started at `clock` and stopped after `turns`. */
  method RunWatchdog(turns: seq<Turn>, start: nat, settings: Settings) returns (recorded: seq<nat>, ghost clock: nat)
    ensures InOrder(recorded) && Spaced(recorded, settings)
    ensures forall i :: 0 <= i < |recorded| ==> start <= recorded[i] <= clock
    ensures |recorded| == Recording(turns)
    ensures clock >= start + TimeTaken(turns)
    ensures start >= settings.window && settings.backoffDelay > 0 ==>
              forall a: nat :: RestartsIn(recorded, a, settings.window)
                               <= settings.maxRestarts + settings.window / settings.backoffDelay + 1
  {
    hide HistoryAfter, DelayFor, Recorded, InOrder, Spaced;
    var limiter := new Limiter(settings);
    recorded := [];
    NothingRecorded(settings);
    var now := start;
    assert turns[..0] == [];
    for i := 0 to |turns|
      invariant limiter.settings == settings && limiter.history == HistoryAfter(recorded, settings)
      invariant InOrder(recorded) && Spaced(recorded, settings)
      invariant start <= now && forall j :: 0 <= j < |recorded| ==> start <= recorded[j] <= now
      invariant recorded != [] ==> recorded[|recorded| - 1] + DelayFor(limiter.history, settings) <= now
      invariant |recorded| == Recording(turns[..i]) && now >= start + TimeTaken(turns[..i])
    {
      now := now + turns[i].elapsed;
      assert turns[..i + 1][..i] == turns[..i];
      if turns[i].SpawnFails? {
        now := now + SPAWN_RETRY;
      } else {
        SpacedAppend(recorded, now, settings);
        var delay := limiter.RecordAndNextDelay(now);
        recorded := recorded + [now];
        now := now + delay;
      }
    }
    assert turns[..|turns|] == turns;
    clock := now;
    if start >= settings.window && settings.backoffDelay > 0 {
      BoundedEverywhere(recorded, start, settings);
    }
  }

  lemma NothingRecorded(s: Settings)
    ensures InOrder([]) && Spaced([], s) && HistoryAfter([], s) == []
  {
  }

  /** The time that the turns themselves take, and five seconds for each failed spawn. */
  function TimeTaken(turns: seq<Turn>): nat {
    if turns == [] then 0
    else TimeTaken(turns[..|turns| - 1]) + turns[|turns| - 1].elapsed
         + if turns[|turns| - 1].SpawnFails? then 5_000_000_000 else 0
  }

  /** How many turns record a restart: all but failed spawns. */
  function Recording(turns: seq<Turn>): nat {
    if turns == [] then 0 else Recording(turns[..|turns| - 1]) + if turns[|turns| - 1].SpawnFails? then 0 else 1
  }

  lemma SpacedAppend(times: seq<nat>, now: nat, s: Settings)
    requires InOrder(times) && Spaced(times, s)
    requires forall i :: 0 <= i < |times| ==> times[i] <= now
    requires times != [] ==> times[|times| - 1] + DelayFor(HistoryAfter(times, s), s) <= now
    ensures InOrder(times + [now]) && Spaced(times + [now], s)
    ensures HistoryAfter(times + [now], s) == Recorded(HistoryAfter(times, s), now, s)
  {
    var more := times + [now];
    assert more[..|times|] == times;
    forall i | 0 <= i < |more| - 1
      ensures more[i] + DelayFor(HistoryAfter(more[..i + 1], s), s) <= more[i + 1]
    {
      assert more[..i + 1] == times[..i + 1];
      if i == |times| - 1 {
        assert times[..i + 1] == times;
      }
    }
  }

  lemma BoundedEverywhere(recorded: seq<nat>, start: nat, s: Settings)
    requires InOrder(recorded) && Spaced(recorded, s) && s.backoffDelay > 0 && start >= s.window
    requires forall i :: 0 <= i < |recorded| ==> start <= recorded[i]
    ensures forall a: nat :: RestartsIn(recorded, a, s.window) <= s.maxRestarts + s.window / s.backoffDelay + 1
  {
    forall a: nat
      ensures RestartsIn(recorded, a, s.window) <= s.maxRestarts + s.window / s.backoffDelay + 1
    {
      RestartsBounded(recorded, s, a);
    }
  }

  /** Restarts in the closed window that starts at a. */
  function RestartsIn(times: seq<nat>, a: nat, window: nat): nat {
    CountBetween(times, |times|, a, a + window)
  }

  /** For the watchdog's own settings: at most eight restarts a minute, but sixty in the first minute of the
      clock. */
  lemma WatchdogBound(times: seq<nat>, a: nat)
    ensures InOrder(times) && Spaced(times, WATCHDOG) && Settled(times, WATCHDOG) ==>
              RestartsIn(times, a, WATCHDOG.window) <= 8
    ensures var loop := EveryDelay(60, WATCHDOG.normalDelay);
            Spaced(loop, WATCHDOG) && RestartsIn(loop, 0, WATCHDOG.window) == 60
  {
    hide InOrder, Spaced, RestartsIn;
    if InOrder(times) && Spaced(times, WATCHDOG) && Settled(times, WATCHDOG) {
      RestartsBounded(times, WATCHDOG, a);
    }
    CrashLoopNeverBacksOff(60, WATCHDOG);
  }
}
