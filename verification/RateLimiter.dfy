/** The fixed-window request budget of crates/local_api/src/lib.rs, over whole runs of calls at
    non-decreasing times. */
module RateLimiter {
  datatype Window = Window(start: nat, count: nat)

  /** One call at `now`: the window it falls into and whether it is within budget. */
  function Step(w: Window, now: nat, maxRequests: nat, duration: nat): (Window, bool) {
    var elapsed := if now < w.start then 0 else now - w.start;
    var current := if elapsed >= duration then Window(now, 0) else w;
    if current.count >= maxRequests then (current, false) else (current.(count := current.count + 1), true)
  }

  class Limiter {
    var windowStart: nat
    var count: nat
    const maxRequests: nat
    const duration: nat

    constructor (maxRequests: nat, duration: nat, now: nat)
      ensures this.maxRequests == maxRequests && this.duration == duration && windowStart == now && count == 0
    {
      this.maxRequests := maxRequests;
      this.duration := duration;
      windowStart := now;
      count := 0;
    }

    method Allow(now: nat) returns (ok: bool)
      modifies this
      ensures (Window(windowStart, count), ok)
              == Step(Window(old(windowStart), old(count)), now, maxRequests, duration)
    {
      if (if now < windowStart then 0 else now - windowStart) >= duration {
        windowStart := now;
        count := 0;
      }
      if count >= maxRequests {
        ok := false;
      } else {
        count := count + 1;
        ok := true;
      }
    }
  }

  // ----- runs -----

  /** One call as it happened: when, in which window, and whether it was allowed. */
  datatype Call = Call(at: nat, window: nat, allowed: bool)

  predicate InOrder(times: seq<nat>, from: nat) {
    && (forall i :: 0 <= i < |times| ==> from <= times[i])
    && (forall i, j :: 0 <= i < j < |times| ==> times[i] <= times[j])
  }

  function WindowAfter(created: nat, times: seq<nat>, maxRequests: nat, duration: nat): Window {
    if times == [] then Window(created, 0)
    else
      var w := WindowAfter(created, times[..|times| - 1], maxRequests, duration);
      Step(w, times[|times| - 1], maxRequests, duration).0
  }

  /** The run of a limiter created at `created` and called at `times`. */
  function Log(created: nat, times: seq<nat>, maxRequests: nat, duration: nat): (r: seq<Call>)
    ensures |r| == |times|
  {
    if times == [] then []
    else
      var k := |times| - 1;
      var (w, ok) := Step(WindowAfter(created, times[..k], maxRequests, duration), times[k], maxRequests, duration);
      Log(created, times[..k], maxRequests, duration) + [Call(times[k], w.start, ok)]
  }

  /** Allowed calls of one window. */
  function AllowedInWindow(log: seq<Call>, window: nat): nat {
    if log == [] then 0
    else AllowedInWindow(log[..|log| - 1], window)
         + if log[|log| - 1].allowed && log[|log| - 1].window == window then 1 else 0
  }

  /** Allowed calls at times in [a, b). */
  function AllowedBetween(log: seq<Call>, a: nat, b: nat): nat {
    if log == [] then 0
    else AllowedBetween(log[..|log| - 1], a, b)
         + if log[|log| - 1].allowed && a <= log[|log| - 1].at < b then 1 else 0
  }

  /** What every run keeps: calls lie in their windows, windows follow one another at least `duration`
      apart, the open window's count is what was allowed in it, and no window exceeds the budget. */
  ghost predicate Sound(log: seq<Call>, w: Window, maxRequests: nat, duration: nat) {
    && w.count == AllowedInWindow(log, w.start) && w.count <= maxRequests
    && (forall i :: 0 <= i < |log| ==> log[i].window <= log[i].at < log[i].window + duration)
    && (forall i :: 0 <= i < |log| ==> log[i].window == w.start || log[i].window + duration <= w.start)
    && (forall i, j :: 0 <= i < j < |log| ==>
        log[i].window == log[j].window || log[i].window + duration <= log[j].window)
    && (forall v: nat :: AllowedInWindow(log, v) <= maxRequests)
  }

  lemma {:induction false} NoneInLaterWindow(log: seq<Call>, v: nat)
    requires forall i :: 0 <= i < |log| ==> log[i].window != v
    ensures AllowedInWindow(log, v) == 0
  {
    if log != [] {
      NoneInLaterWindow(log[..|log| - 1], v);
    }
  }

  lemma StepSound(log: seq<Call>, w: Window, now: nat, maxRequests: nat, duration: nat)
    requires Sound(log, w, maxRequests, duration) && duration > 0
    requires w.start <= now
    ensures var (w', ok) := Step(w, now, maxRequests, duration);
            Sound(log + [Call(now, w'.start, ok)], w', maxRequests, duration)
  {
    var (w', ok) := Step(w, now, maxRequests, duration);
    var log' := log + [Call(now, w'.start, ok)];
    assert log'[..|log|] == log;
    if w'.start != w.start {
      NoneInLaterWindow(log, w'.start);
    }
    forall v: nat
      ensures AllowedInWindow(log', v) <= maxRequests
    {
      assert AllowedInWindow(log, v) <= maxRequests;
    }
  }

  lemma {:induction false} RunSound(created: nat, times: seq<nat>, maxRequests: nat, duration: nat)
    requires InOrder(times, created) && duration > 0
    ensures Sound(Log(created, times, maxRequests, duration), WindowAfter(created, times, maxRequests, duration),
            maxRequests, duration)
    ensures WindowAfter(created, times, maxRequests, duration).start
            <= if times == [] then created else times[|times| - 1]
    decreases |times|
  {
    if times != [] {
      var k := |times| - 1;
      RunSound(created, times[..k], maxRequests, duration);
      StepSound(Log(created, times[..k], maxRequests, duration),
          WindowAfter(created, times[..k], maxRequests, duration),
                times[k], maxRequests, duration);
    }
  }

  // ----- the bounds -----

  /** No fixed window allows more than its budget. */
  lemma EachWindowWithinBudget(created: nat, times: seq<nat>, maxRequests: nat, duration: nat, window: nat)
    requires InOrder(times, created) && duration > 0
    ensures AllowedInWindow(Log(created, times, maxRequests, duration), window) <= maxRequests
  {
    RunSound(created, times, maxRequests, duration);
  }

  /** A call is refused exactly when its window has already allowed the whole budget. */
  lemma RefusedIffWindowFull(created: nat, times: seq<nat>, maxRequests: nat, duration: nat)
    requires InOrder(times, created) && duration > 0 && times != []
    ensures var log := Log(created, times, maxRequests, duration);
            var k := |times| - 1;
            !log[k].allowed <==> AllowedInWindow(log[..k], log[k].window) == maxRequests
  {
    var k := |times| - 1;
    RunSound(created, times[..k], maxRequests, duration);
    var before, w := Log(created, times[..k], maxRequests, duration),
        WindowAfter(created, times[..k], maxRequests, duration);
    assert Log(created, times, maxRequests, duration)[..k] == before;
    if Step(w, times[k], maxRequests, duration).0.start != w.start {
      NoneInLaterWindow(before, times[k]);
    }
  }

  /** Allowed calls of an interval whose calls lie in two windows. */
  lemma {:induction false} CountInTwo(log: seq<Call>, a: nat, b: nat, u: nat, v: nat)
    requires forall k: nat :: AllowedAt(log, k, a, b) ==> log[k].window in {u, v}
    ensures AllowedBetween(log, a, b) <= AllowedInWindow(log, u) + AllowedInWindow(log, v)
  {
    if log != [] {
      var before := log[..|log| - 1];
      forall k: nat | AllowedAt(before, k, a, b)
        ensures before[k].window in {u, v}
      {
        assert AllowedAt(log, k, a, b);
      }
      CountInTwo(before, a, b, u, v);
      assert AllowedAt(log, |log| - 1, a, b) ==> log[|log| - 1].window in {u, v};
    }
  }

  lemma {:induction false} NoneBetween(log: seq<Call>, a: nat, b: nat)
    requires forall k: nat :: !AllowedAt(log, k, a, b)
    ensures AllowedBetween(log, a, b) == 0
  {
    if log != [] {
      var before := log[..|log| - 1];
      forall k: nat
        ensures !AllowedAt(before, k, a, b)
      {
        assert !AllowedAt(log, k, a, b);
      }
      NoneBetween(before, a, b);
      assert !AllowedAt(log, |log| - 1, a, b);
    }
  }

  ghost predicate AllowedAt(log: seq<Call>, i: nat, a: nat, b: nat) {
    i < |log| && log[i].allowed && a <= log[i].at < b
  }

  /** Three calls within one duration lie in at most two windows. */
  lemma NoThirdWindow(log: seq<Call>, w: Window, maxRequests: nat, duration: nat, a: nat, i: nat, j: nat, k: nat)
    requires Sound(log, w, maxRequests, duration)
    requires AllowedAt(log, i, a, a + duration) && AllowedAt(log, j, a, a + duration)
            && AllowedAt(log, k, a, a + duration)
    ensures log[i].window == log[j].window || log[k].window == log[i].window || log[k].window == log[j].window
  {
  }

  /** Any half-open interval of one window's length contains at most twice the budget of allowed calls. */
  lemma AtMostTwiceTheBudget(created: nat, times: seq<nat>, maxRequests: nat, duration: nat, a: nat)
    requires InOrder(times, created) && duration > 0
    ensures AllowedBetween(Log(created, times, maxRequests, duration), a, a + duration) <= 2 * maxRequests
  {
    hide Log, Step, WindowAfter, Sound;
    var log, b := Log(created, times, maxRequests, duration), a + duration;
    var w := WindowAfter(created, times, maxRequests, duration);
    RunSound(created, times, maxRequests, duration);
    if i: nat :| AllowedAt(log, i, a, b) {
      var j: nat := if other: nat :| AllowedAt(log, other, a, b) && log[other].window != log[i].window then other
                    else i;
      forall k: nat | AllowedAt(log, k, a, b)
        ensures log[k].window in {log[i].window, log[j].window}
      {
        NoThirdWindow(log, w, maxRequests, duration, a, i, j, k);
      }
      BudgetOfTwo(log, w, maxRequests, duration, a, log[i].window, log[j].window);
    } else {
      NoneBetween(log, a, b);
    }
  }

  lemma BudgetOfTwo(log: seq<Call>, w: Window, maxRequests: nat, duration: nat, a: nat, u: nat, v: nat)
    requires Sound(log, w, maxRequests, duration)
    requires forall k: nat :: AllowedAt(log, k, a, a + duration) ==> log[k].window in {u, v}
    ensures AllowedBetween(log, a, a + duration) <= 2 * maxRequests
  {
    CountInTwo(log, a, a + duration, u, v);
  }

  /** The first n calls of two bursts: a full budget at the last tick of the first window, then another at
      the first tick of the second. */
  function Bursts(n: nat, maxRequests: nat, duration: nat): (r: seq<nat>)
    requires duration > 0
    ensures |r| == n && forall i :: 0 <= i < n ==> r[i] == if i < maxRequests then duration - 1 else duration
  {
    seq(n, i requires 0 <= i < n => if i < maxRequests then duration - 1 else duration)
  }

  lemma LogStep(times: seq<nat>, maxRequests: nat, duration: nat)
    requires times != []
    ensures var k := |times| - 1;
            var (w, ok) := Step(WindowAfter(0, times[..k], maxRequests, duration), times[k], maxRequests, duration);
            var log := Log(0, times, maxRequests, duration);
            && WindowAfter(0, times, maxRequests, duration) == w
            && log[..k] == Log(0, times[..k], maxRequests, duration) && log[k] == Call(times[k], w.start, ok)
  {
    hide Step;
  }

  lemma {:induction false} BurstsAllowed(n: nat, maxRequests: nat, duration: nat)
    requires n <= 2 * maxRequests && duration > 1
    ensures var times := Bursts(n, maxRequests, duration);
            && WindowAfter(0, times, maxRequests, duration)
               == (if n <= maxRequests then Window(0, n) else Window(duration, n - maxRequests))
            && AllowedBetween(Log(0, times, maxRequests, duration), duration - 1, 2 * duration - 1) == n
  {
    hide Log, WindowAfter;
    if n == 0 {
      NoCalls(maxRequests, duration);
    } else {
      BurstsAllowed(n - 1, maxRequests, duration);
      var times := Bursts(n, maxRequests, duration);
      assert times[..n - 1] == Bursts(n - 1, maxRequests, duration);
      LogStep(times, maxRequests, duration);
    }
  }

  lemma NoCalls(maxRequests: nat, duration: nat)
    ensures Log(0, [], maxRequests, duration) == [] && WindowAfter(0, [], maxRequests, duration) == Window(0, 0)
  {
  }

  /** The bound is met: two budgets one tick apart. */
  lemma TwiceTheBudgetIsReached(maxRequests: nat, duration: nat)
    requires duration > 1
    ensures var times := Bursts(2 * maxRequests, maxRequests, duration);
            && InOrder(times, 0)
            && AllowedBetween(Log(0, times, maxRequests, duration), duration - 1, duration - 1 + duration)
                == 2 * maxRequests
  {
    BurstsAllowed(2 * maxRequests, maxRequests, duration);
  }
}
