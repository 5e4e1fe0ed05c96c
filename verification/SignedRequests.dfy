/** Replay protection of crates/local_api/src/lib.rs: the nonce cache and the signed-request check, over
    whole runs. Times are ticks of one clock; the wall clock shows the whole seconds of the same clock
    (it is not set back or adjusted during a run). A call reads the wall clock first, and the time for the nonce
    cache later, under the cache's lock. */
module SignedRequests {
  import opened Wrappers
  import opened Text

  const TICKS_PER_SECOND: nat := 1_000_000_000
  const WINDOW_SECONDS: nat := 60
  const REPLAY_WINDOW: nat := WINDOW_SECONDS * TICKS_PER_SECOND

  type Nonce = string

  /** Entries older than the window, as `duration_since` sees them (zero for an entry from the future). */
  predicate Fresh(firstSeen: nat, now: nat) {
    (if now < firstSeen then 0 else now - firstSeen) < REPLAY_WINDOW
  }

  function Retained(seen: map<Nonce, nat>, now: nat): (r: map<Nonce, nat>) {
    map n | n in seen && Fresh(seen[n], now) :: seen[n]
  }

  /** The cache after `check_and_record` and its answer. */
  function Recorded(seen: map<Nonce, nat>, nonce: Nonce, now: nat): (map<Nonce, nat>, bool) {
    var kept := Retained(seen, now);
    if nonce in kept then (kept, false) else (kept[nonce := now], true)
  }

  class NonceCache {
    var seen: map<Nonce, nat>

    constructor ()
      ensures seen == map[]
    {
      seen := map[];
    }

    method CheckAndRecord(nonce: Nonce, now: nat) returns (first: bool)
      modifies this
      ensures (seen, first) == Recorded(old(seen), nonce, now)
    {
      seen := map n | n in seen && Fresh(seen[n], now) :: seen[n];
      if nonce in seen {
        first := false;
      } else {
        seen := seen[nonce := now];
        first := true;
      }
    }
  }

  /** A request as the handler sees it: the three headers, and whether the signature header is the HMAC of
      timestamp and nonce under the shared secret. */
  datatype Request = Request(timestamp: Option<string>, nonce: Option<Nonce>, signature: Option<string>, signed: bool)

  /** `parse::<i64>`: an optional sign and digits, within 64 bits. */
  function ParseSeconds(s: string): (r: Option<int>)
    ensures r.Some? ==> -0x8000_0000_0000_0000 <= r.value < 0x8000_0000_0000_0000
  {
    var negative := s != "" && s[0] == '-';
    var digits := if s != "" && (s[0] == '-' || s[0] == '+') then s[1..] else s;
    match PositionalValue(digits, 10)
    case None => None
    case Some(n) =>
      var v: int := if negative then 0 - n else n;
      if digits != "" && -0x8000_0000_0000_0000 <= v < 0x8000_0000_0000_0000 then Some(v) else None
  }

  function WallSeconds(now: nat): nat {
    now / TICKS_PER_SECOND
  }

  function Abs(n: int): nat {
    if n < 0 then -n else n
  }

  /** Everything `verify_signed_request` checks before it consults the nonce cache. */
  predicate Passes(r: Request, wall: nat) {
    && r.timestamp.Some? && r.nonce.Some? && r.signature.Some?
    && var ts := ParseSeconds(r.timestamp.value);
       ts.Some? && Abs(WallSeconds(wall) - ts.value) <= WINDOW_SECONDS && r.signed
  }

  /** One call: the cache is touched only by a request that passes everything else. */
  function Verify(seen: map<Nonce, nat>, r: Request, wall: nat, now: nat): (map<Nonce, nat>, bool) {
    if Passes(r, wall) then Recorded(seen, r.nonce.value, now) else (seen, false)
  }

  method VerifySignedRequest(r: Request, wall: nat, now: nat, cache: NonceCache) returns (accepted: bool)
    modifies cache
    ensures (cache.seen, accepted) == Verify(old(cache.seen), r, wall, now)
  {
    if r.timestamp.None? || r.nonce.None? || r.signature.None? {
      return false;
    }
    var timestamp := ParseSeconds(r.timestamp.value);
    if timestamp.None? {
      return false;
    }
    if Abs(WallSeconds(wall) - timestamp.value) > WINDOW_SECONDS {
      return false;
    }
    if !r.signed {
      return false;
    }
    accepted := cache.CheckAndRecord(r.nonce.value, now);
  }

  // ----- runs -----

  /** One call with its two readings of the time. */
  datatype Arrival = Arrival(request: Request, wall: nat, at: nat) {
    function Lag(): int {
      at - wall
    }
  }

  /** Calls in the order in which they take the lock, each of which has read the wall clock before. */
  predicate InOrder(run: seq<Arrival>) {
    && (forall i, j :: 0 <= i < j < |run| ==> run[i].at <= run[j].at)
    && (forall i :: 0 <= i < |run| ==> run[i].wall <= run[i].at)
  }

  /** The cache after a run of calls. */
  function CacheAfter(run: seq<Arrival>): map<Nonce, nat>
    decreases |run|
  {
    if run == [] then map[]
    else Verify(CacheAfter(run[..|run| - 1]), run[|run| - 1].request, run[|run| - 1].wall, run[|run| - 1].at).0
  }

  predicate Accepted(run: seq<Arrival>, i: nat)
    requires i < |run|
  {
    Verify(CacheAfter(run[..i]), run[i].request, run[i].wall, run[i].at).1
  }

  lemma AcceptedPrefix(run: seq<Arrival>, k: nat, i: nat)
    requires i < k <= |run|
    ensures Accepted(run[..k], i) <==> Accepted(run, i)
    ensures InOrder(run) ==> InOrder(run[..k])
  {
    assert run[..k][..i] == run[..i];
  }

  /** The cache holds nothing from the future... */
  lemma {:induction false} NothingLater(run: seq<Arrival>, n: Nonce)
    requires InOrder(run) && run != [] && n in CacheAfter(run)
    ensures CacheAfter(run)[n] <= run[|run| - 1].at
    decreases |run|
  {
    var k := |run| - 1;
    if k > 0 {
      AcceptedPrefix(run, k, 0);
      assert run[..k][k - 1] == run[k - 1];
      if n in CacheAfter(run[..k]) {
        NothingLater(run[..k], n);
      }
    }
  }

  ghost predicate Holds(seen: map<Nonce, nat>, n: Nonce, t: nat) {
    n in seen && t <= seen[n]
  }

  lemma VerifyKeeps(seen: map<Nonce, nat>, r: Request, wall: nat, now: nat, n: Nonce, t: nat)
    requires Holds(seen, n, t) && t <= now && now - t < REPLAY_WINDOW
    ensures Holds(Verify(seen, r, wall, now).0, n, t)
  {
  }

  /** ...and still holds every acceptance of the last window. */
  lemma {:induction false} RecentAcceptanceHeld(run: seq<Arrival>, i: nat)
    requires InOrder(run) && i < |run| && Accepted(run, i)
    requires run[|run| - 1].at - run[i].at < REPLAY_WINDOW
    ensures Holds(CacheAfter(run), run[i].request.nonce.value, run[i].at)
    decreases |run|
  {
    var k := |run| - 1;
    if i < k {
      AcceptedPrefix(run, k, i);
      var before := run[..k];
      assert before[i] == run[i] && before[k - 1] == run[k - 1];
      RecentAcceptanceHeld(before, i);
      VerifyKeeps(CacheAfter(before), run[k].request, run[k].wall, run[k].at, run[i].request.nonce.value, run[i].at);
    }
  }

  /** Two acceptances of one nonce are at least the replay window apart, in every run. */
  lemma AtMostOncePerWindow(run: seq<Arrival>, i: nat, j: nat)
    requires InOrder(run) && i < j < |run|
    requires Accepted(run, i) && Accepted(run, j) && run[i].request.nonce == run[j].request.nonce
    ensures run[j].at - run[i].at >= REPLAY_WINDOW
  {
    if run[j].at - run[i].at < REPLAY_WINDOW {
      AcceptedPrefix(run, j, i);
      var before, n := run[..j], run[i].request.nonce.value;
      assert before[i] == run[i] && before[j - 1] == run[j - 1];
      RecentAcceptanceHeld(before, i);
      HeldIsRefused(CacheAfter(before), run[j].request, run[j].wall, run[j].at, n, run[i].at);
    }
  }

  lemma HeldIsRefused(seen: map<Nonce, nat>, r: Request, wall: nat, now: nat, n: Nonce, t: nat)
    requires Holds(seen, n, t) && t <= now && now - t < REPLAY_WINDOW && r.nonce == Some(n)
    ensures !Verify(seen, r, wall, now).1
  {
    assert n in Retained(seen, now);
  }

  /** The earliest wall reading of a call that takes the lock at `at` no more than `lag` later. */
  function EarliestWall(at: nat, lag: nat): nat {
    if lag <= at then at - lag else 0
  }

  /** When the cache has forgotten a nonce recorded at `at`, a call that lags no more than `lag` can still have read a
      time that its timestamp allows. */
  predicate StillInTime(r: Request, at: nat, lag: nat)
    requires r.timestamp.Some? && ParseSeconds(r.timestamp.value).Some?
  {
    WallSeconds(EarliestWall(at + REPLAY_WINDOW, lag)) <= ParseSeconds(r.timestamp.value).value + WINDOW_SECONDS
  }

  /** Without any lag: the request was not recorded at a whole second later than its timestamp. */
  lemma WithoutLag(r: Request, at: nat)
    requires r.timestamp.Some? && ParseSeconds(r.timestamp.value).Some?
    ensures StillInTime(r, at, 0) <==> WallSeconds(at) <= ParseSeconds(r.timestamp.value).value
  {
    assert (at + REPLAY_WINDOW) / TICKS_PER_SECOND == at / TICKS_PER_SECOND + WINDOW_SECONDS;
  }

  lemma SecondsOrder(t: nat, u: nat)
    requires t <= u
    ensures WallSeconds(t) <= WallSeconds(u)
  {
  }

  /** A signed request that has been accepted once, too late for its timestamp by this measure, is never accepted
      again by a call of no more than that lag. */
  lemma LateRequestNotReplayed(run: seq<Arrival>, i: nat, j: nat, lag: nat)
    requires InOrder(run) && i < j < |run|
    requires run[i].request == run[j].request && Accepted(run, i)
    requires run[j].Lag() <= lag && !StillInTime(run[i].request, run[i].at, lag)
    ensures !Accepted(run, j)
  {
    if Accepted(run, j) {
      AtMostOncePerWindow(run, i, j);
      SecondsOrder(EarliestWall(run[i].at + REPLAY_WINDOW, lag), run[j].wall);
    }
  }

  /** The wall reading with which a second call passes, one window after the first. */
  function WallAgain(r: Request, at: nat): nat
    requires r.timestamp.Some? && ParseSeconds(r.timestamp.value).Some?
  {
    var last := (ParseSeconds(r.timestamp.value).value + WINDOW_SECONDS + 1) * TICKS_PER_SECOND - 1;
    if 0 <= last < at + REPLAY_WINDOW then last else at + REPLAY_WINDOW
  }

  /** Any other accepted request is accepted again one window later, by a call of no more than that lag, when nothing
      else arrives in between. */
  lemma EarlyRequestReplayed(run: seq<Arrival>, i: nat, lag: nat)
    requires InOrder(run) && i == |run| - 1 && Accepted(run, i)
    requires StillInTime(run[i].request, run[i].at, lag)
    ensures var again := Arrival(run[i].request, WallAgain(run[i].request, run[i].at), run[i].at + REPLAY_WINDOW);
            again.Lag() <= lag && InOrder(run + [again]) && Accepted(run + [again], i + 1)
  {
    var r, t := run[i].request, run[i].at;
    var again := Arrival(r, WallAgain(r, t), t + REPLAY_WINDOW);
    assert (run + [again])[..i + 1] == run;
    StillPasses(r, run[i].wall, t, lag);
    var n := r.nonce.value;
    if n in CacheAfter(run) {
      NothingLater(run, n);
    }
    assert n !in Retained(CacheAfter(run), t + REPLAY_WINDOW);
  }

  lemma StillPasses(r: Request, wall: nat, at: nat, lag: nat)
    requires Passes(r, wall) && wall <= at && StillInTime(r, at, lag)
    ensures WallAgain(r, at) <= at + REPLAY_WINDOW <= WallAgain(r, at) + lag
    ensures Passes(r, WallAgain(r, at))
  {
    var ts, end := ParseSeconds(r.timestamp.value).value, at + REPLAY_WINDOW;
    var last := (ts + WINDOW_SECONDS + 1) * TICKS_PER_SECOND - 1;
    assert end / TICKS_PER_SECOND == at / TICKS_PER_SECOND + WINDOW_SECONDS;
    SecondsOrder(wall, at);
    LastTick(ts + WINDOW_SECONDS, EarliestWall(end, lag));
    LastTick(ts + WINDOW_SECONDS, end);
  }

  /** The last tick of a second is the latest instant that shows it. */
  lemma LastTick(second: int, t: nat)
    requires second >= 0
    ensures var last := (second + 1) * TICKS_PER_SECOND - 1;
            last >= 0 && WallSeconds(last) == second && (WallSeconds(t) <= second <==> t <= last)
  {
  }

  ghost predicate ReplayableAt(run: seq<Arrival>, i: nat, later: seq<Arrival>, again: Arrival, lag: nat)
    requires i < |run|
  {
    && again.request == run[i].request && again.Lag() <= lag
    && InOrder(run + later + [again]) && Accepted(run + later + [again], |run| + |later|)
  }

  /** The exact boundary: after its acceptance at the end of any run, a request can be accepted a second time in some
      continuation, by a call that takes no longer than `lag` between its two readings, exactly when it is still in
      time by this measure. */
  lemma ReplayableIff(run: seq<Arrival>, i: nat, lag: nat)
    requires InOrder(run) && i == |run| - 1 && Accepted(run, i)
    ensures (exists later: seq<Arrival>, again: Arrival :: ReplayableAt(run, i, later, again, lag))
            <==> StillInTime(run[i].request, run[i].at, lag)
  {
    if StillInTime(run[i].request, run[i].at, lag) {
      EarlyRequestReplayed(run, i, lag);
      assert run + [] == run;
      var again := Arrival(run[i].request, WallAgain(run[i].request, run[i].at), run[i].at + REPLAY_WINDOW);
      assert ReplayableAt(run, i, [], again, lag);
    }
    if later: seq<Arrival>, again: Arrival :| ReplayableAt(run, i, later, again, lag) {
      var all := run + later + [again];
      assert all[..|run|] == run;
      AcceptedPrefix(all, |run|, i);
      if !StillInTime(run[i].request, run[i].at, lag) {
        LateRequestNotReplayed(all, i, |run| + |later|, lag);
      }
    }
  }

  // ----- who is accepted -----

  /** A signed request that was read within 60 seconds of its timestamp, on either side. */
  predicate InTimeAndSigned(a: Arrival) {
    && a.request.timestamp.Some? && a.request.nonce.Some? && a.request.signature.Some? && a.request.signed
    && var ts := ParseSeconds(a.request.timestamp.value);
       ts.Some? && -60 <= a.wall / 1_000_000_000 - ts.value <= 60
  }

  /** What the cache holds was recorded by an acceptance. */
  lemma {:induction false} RecordedByAcceptance(run: seq<Arrival>, n: Nonce) returns (j: nat)
    requires n in CacheAfter(run)
    ensures j < |run| && Accepted(run, j) && run[j].request.nonce == Some(n) && run[j].at == CacheAfter(run)[n]
    decreases |run|
  {
    var k := |run| - 1;
    if Accepted(run, k) && run[k].request.nonce == Some(n) {
      j := k;
    } else {
      j := RecordedByAcceptance(run[..k], n);
      AcceptedPrefix(run, k, j);
    }
  }

  /** Over every run: a call is accepted exactly when its request is signed and in time, and its nonce has not been
      accepted within the last sixty seconds. */
  lemma AcceptedIff(run: seq<Arrival>, i: nat)
    requires InOrder(run) && i < |run|
    ensures Accepted(run, i)
            <==> InTimeAndSigned(run[i])
                 && forall j :: 0 <= j < i && Accepted(run, j) && run[j].request.nonce == run[i].request.nonce ==>
                      run[i].at - run[j].at >= 60_000_000_000
  {
    hide ParseSeconds;
    if Accepted(run, i) {
      forall j | 0 <= j < i && Accepted(run, j) && run[j].request.nonce == run[i].request.nonce
        ensures run[i].at - run[j].at >= 60_000_000_000
      {
        AtMostOncePerWindow(run, j, i);
      }
    } else if InTimeAndSigned(run[i]) {
      var n := run[i].request.nonce.value;
      assert n in Retained(CacheAfter(run[..i]), run[i].at);
      var j := RecordedByAcceptance(run[..i], n);
      AcceptedPrefix(run, i, j);
    }
  }

  /** Any other request leaves the cache as it is: a forger uses up no nonce. */
  lemma ForgerLeavesCache(run: seq<Arrival>, i: nat)
    requires i < |run| && !InTimeAndSigned(run[i])
    ensures !Accepted(run, i) && CacheAfter(run[..i + 1]) == CacheAfter(run[..i])
  {
    hide ParseSeconds;
    assert run[..i + 1][..i] == run[..i];
  }

  /** A timestamp is read as the number it writes, with either sign or none, within 64 bits. */
  lemma ParsePrintedSeconds(n: nat)
    ensures ParseSeconds(Decimal(n)) == if n < 0x8000_0000_0000_0000 then Some(n) else None
    ensures ParseSeconds("+" + Decimal(n)) == ParseSeconds(Decimal(n))
    ensures var m: int := n; ParseSeconds("-" + Decimal(n)) == if n <= 0x8000_0000_0000_0000 then Some(-m) else None
  {
    hide PositionalValue, Print;
    NoSign(n);
    Signed(Decimal(n), '+');
    Signed(Decimal(n), '-');
  }

  /** A sign alone is no number. */
  lemma NoSeconds()
    ensures ParseSeconds("") == None && ParseSeconds("-") == None && ParseSeconds("+") == None
  {
    assert "-"[1..] == "" && "+"[1..] == "";
  }

  lemma Signed(digits: string, sign: char)
    requires sign == '+' || sign == '-'
    ensures [sign] + digits != "" && ([sign] + digits)[0] == sign && ([sign] + digits)[1..] == digits
    ensures [sign] + digits == (if sign == '+' then "+" else "-") + digits
  {
  }

  lemma NoSign(n: nat)
    ensures Decimal(n)[0] != '-' && Decimal(n)[0] != '+'
  {
    FirstDigit(n);
  }

  lemma {:induction false} FirstDigit(n: nat)
    ensures '0' <= Decimal(n)[0] <= '9'
  {
    if n >= 10 {
      DivideByRadix(n, 10);
      FirstDigit(n / 10);
    }
  }
}
