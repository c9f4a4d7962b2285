/**
 * The wait before the enrollment request in itu_obs_ders_kayit.py: the target
 * time of day, one step of the wait loop, and the loop itself, which renews
 * the token every fifteen minutes while far from the target and then sleeps
 * in ever shorter steps before spinning through the last moments.
 *
 * Times are whole microseconds. The clock is a trace of readings: the i-th
 * reading is what `datetime.now()` returns on the i-th pass of the loop, so
 * the sleeps themselves are not modelled, only what the loop asks for.
 */
module DersKayitWait {
  import opened Wrappers
  import opened ObsHttp
  import opened DersKayitConfig
  import opened Seqs

  const MicrosPerSecond := 1000000
  const MicrosPerMinute := 60 * MicrosPerSecond
  const MicrosPerHour := 60 * MicrosPerMinute
  const MicrosPerDay := 24 * MicrosPerHour

  /** TOKEN_REFRESH_INTERVAL: 15 minutes. */
  const TokenRefreshInterval := 15 * MicrosPerMinute

  /** More than one second left: sleep half a second at a time. */
  const CoarseThreshold := MicrosPerSecond
  const CoarseSleep := 500000

  /** Below 0.02 s the loop spins without sleeping. */
  const SpinThreshold := 20000

  function Min(a: int, b: int): int {
    if a <= b then a else b
  }

  // ---------------------------------------------------------------------
  // _target_today_datetime
  // ---------------------------------------------------------------------

  /** The fields `datetime.replace` accepts. */
  predicate ValidParts(t: TimeParts) {
    0 <= t.hour < 24 && 0 <= t.minute < 60 && 0 <= t.second < 60 && 0 <= t.micro < MicrosPerSecond
  }

  /** The instant of the day the fields name, in microseconds since midnight. */
  function Instant(t: TimeParts): int {
    ((t.hour * 60 + t.minute) * 60 + t.second) * MicrosPerSecond + t.micro
  }

  /** The fields of an instant of the day. */
  function PartsOf(v: int): TimeParts {
    TimeParts(v / MicrosPerHour, v / MicrosPerMinute % 60, v / MicrosPerSecond % 60, v % MicrosPerSecond)
  }

  /** Valid fields name an instant of the day, and that instant gives the fields back. */
  lemma InstantRoundTrip(t: TimeParts)
    requires ValidParts(t)
    ensures 0 <= Instant(t) < MicrosPerDay
    ensures PartsOf(Instant(t)) == t
  {
    var v := Instant(t);
    assert v == t.hour * 3600000000 + t.minute * 60000000 + t.second * 1000000 + t.micro;
    assert v / 3600000000 == t.hour;
    assert v / 60000000 == t.hour * 60 + t.minute;
    assert v / 1000000 == (t.hour * 60 + t.minute) * 60 + t.second;
  }

  /**
   * The target instant of today for a `HH:MM:SS.fff` text: None where
   * `_parse_target_time` or `datetime.replace` raises ValueError.
   */
  function TargetInstant(target: string): (r: Option<int>)
    ensures r.Some? ==> 0 <= r.value < MicrosPerDay
    ensures r.Some? <==> ParseTargetTime(target).Some? && ValidParts(ParseTargetTime(target).value)
    ensures r.Some? ==> PartsOf(r.value) == ParseTargetTime(target).value
  {
    match ParseTargetTime(target)
    case None => None
    case Some(t) =>
      if ValidParts(t) then InstantRoundTrip(t); Some(Instant(t)) else None
  }

  // ---------------------------------------------------------------------
  // One pass of the wait loop
  // ---------------------------------------------------------------------

  /** What one pass asks for: sleep and log in again, sleep, or go round without sleeping. */
  datatype Step = Refresh(sleep: int) | Sleep(duration: int) | Spin

  /**
   * The high-precision part, with `delta` left before the target: half a
   * second while more than a second is left (`min(0.5, delta / 2)` is then
   * always half a second), the whole rest while more than `spin` is left, and
   * no sleep at all below that.
   */
  function PrecisionStep(delta: int, spin: nat): (s: Step)
    ensures !s.Refresh?
    ensures delta > CoarseThreshold ==> s == Sleep(CoarseSleep)
    ensures s.Spin? <==> delta <= spin && delta <= CoarseThreshold
    ensures s.Sleep? ==> 0 < s.duration <= delta
    ensures spin < delta <= CoarseThreshold ==> s == Sleep(delta)
  {
    if delta > CoarseThreshold then
      assert delta / 2 >= CoarseSleep;
      Sleep(Min(CoarseSleep, delta / 2))
    else if delta > spin then Sleep(delta)
    else Spin
  }

  /**
   * One pass of `wait_until_target_time`: with refreshing on and more than
   * fifteen minutes left, sleep fifteen minutes and log in; otherwise the
   * high-precision step.
   */
  function WaitStep(doRefresh: bool, delta: int): (s: Step)
    ensures s.Refresh? <==> doRefresh && delta > TokenRefreshInterval
    ensures s.Refresh? ==> s.sleep == TokenRefreshInterval < delta
    ensures !s.Refresh? ==> s == PrecisionStep(delta, SpinThreshold)
  {
    if doRefresh && delta > TokenRefreshInterval then Refresh(Min(TokenRefreshInterval, delta))
    else PrecisionStep(delta, SpinThreshold)
  }

  /** The passes for the readings taken before the target. */
  function WaitSteps(readings: seq<int>, target: int, doRefresh: bool): (steps: seq<Step>)
    ensures |steps| == |readings|
  {
    if readings == [] then []
    else
      var n := |readings| - 1;
      WaitSteps(readings[..n], target, doRefresh) + [WaitStep(doRefresh, target - readings[n])]
  }

  /** How many passes logged in again. */
  function Refreshes(steps: seq<Step>): (n: nat)
    ensures n <= |steps|
  {
    if steps == [] then 0
    else Refreshes(steps[..|steps| - 1]) + if steps[|steps| - 1].Refresh? then 1 else 0
  }

  /** The i-th pass is the step for the i-th reading. */
  lemma {:induction false} WaitStepsAt(readings: seq<int>, target: int, doRefresh: bool)
    ensures forall i :: 0 <= i < |readings| ==>
              WaitSteps(readings, target, doRefresh)[i] == WaitStep(doRefresh, target - readings[i])
  {
    if readings != [] {
      WaitStepsAt(readings[..|readings| - 1], target, doRefresh);
    }
  }

  /** Each pass sleeps no longer than the time left, so no sleep carries the loop past the target. */
  lemma WaitStepsNeverOversleep(readings: seq<int>, target: int, doRefresh: bool)
    requires forall i :: 0 <= i < |readings| ==> readings[i] < target
    ensures forall i :: 0 <= i < |readings| ==> match WaitSteps(readings, target, doRefresh)[i]
              case Refresh(d) => 0 < d < target - readings[i]
              case Sleep(d) => 0 < d <= target - readings[i]
              case Spin => target - readings[i] <= SpinThreshold
  {
    WaitStepsAt(readings, target, doRefresh);
  }

  /** Without a session and a token holder nobody logs in again. */
  lemma {:induction false} NoRefreshWithoutSession(readings: seq<int>, target: int)
    ensures Refreshes(WaitSteps(readings, target, false)) == 0
  {
    if readings != [] {
      var n := |readings| - 1;
      NoRefreshWithoutSession(readings[..n], target);
      SnocFront(WaitSteps(readings[..n], target, false), WaitStep(false, target - readings[n]));
    }
  }

  /** Passes whose readings are at most fifteen minutes before the target never log in. */
  lemma {:induction false} NoRefreshInLastInterval(readings: seq<int>, target: int, doRefresh: bool)
    requires forall i :: 0 <= i < |readings| ==> target - readings[i] <= TokenRefreshInterval
    ensures Refreshes(WaitSteps(readings, target, doRefresh)) == 0
  {
    if readings != [] {
      var n := |readings| - 1;
      NoRefreshInLastInterval(readings[..n], target, doRefresh);
      SnocFront(WaitSteps(readings[..n], target, doRefresh), WaitStep(doRefresh, target - readings[n]));
    }
  }

  /** The index of the first reading at or after the target, or the trace's length when none is. */
  function FirstReached(clock: seq<int>, target: int, from: nat): (n: nat)
    requires from <= |clock|
    ensures from <= n <= |clock|
    ensures forall i :: from <= i < n ==> clock[i] < target
    ensures n < |clock| ==> clock[n] >= target
    decreases |clock| - from
  {
    if from == |clock| || clock[from] >= target then from else FirstReached(clock, target, from + 1)
  }

  /** Only one index can be the first reading at or after the target. */
  lemma {:induction false} FirstReachedUnique(clock: seq<int>, target: int, from: nat, n: nat)
    requires from <= n <= |clock|
    requires forall i :: from <= i < n ==> clock[i] < target
    requires n == |clock| || clock[n] >= target
    ensures FirstReached(clock, target, from) == n
    decreases n - from
  {
    if from < n {
      FirstReachedUnique(clock, target, from + 1, n);
    }
  }

  // ---------------------------------------------------------------------
  // wait_until_target_time
  // ---------------------------------------------------------------------

  /** `token_holder`: the one-element list through which the loop hands back a renewed token. */
  class TokenHolder {
    var token: Token

    constructor (t: Token)
      ensures token == t
    {
      token := t;
    }
  }

  /** The token a holder ends with after `count` renewals: the last login's, or the one it started with. */
  function TokenAfterRefreshes(start: Token, login: nat -> Token, count: nat): Token {
    if count == 0 then start else login(count - 1)
  }

  datatype WaitOutcome =
    | InvalidTime         // ValueError from the parse or from datetime.replace
    | Reached(at: nat)    // the loop left at the reading with this index
    | TraceEnded          // every reading of the trace was before the target

  /**
   * `wait_until_target_time(target, session, token_holder)`: `hasSession`
   * says whether a session was passed, `login(k)` is what the k-th renewal's
   * `do_login` returns, and `clock` holds the readings of successive passes.
   * The passes are those for the readings before the first one at or after
   * the target, and the holder, when there is one, ends with the token of
   * the last renewal.
   */
  method WaitUntilTargetTime(targetText: string, clock: seq<int>, hasSession: bool, holder: TokenHolder?, login: nat -> Token)
    returns (outcome: WaitOutcome, steps: seq<Step>)
    modifies holder
    ensures TargetInstant(targetText).None? ==>
              outcome == InvalidTime && steps == [] && (holder != null ==> holder.token == old(holder.token))
    ensures TargetInstant(targetText).Some? ==>
              var target := TargetInstant(targetText).value;
              var n := FirstReached(clock, target, 0);
              && outcome == (if n < |clock| then Reached(n) else TraceEnded)
              && steps == WaitSteps(clock[..n], target, hasSession && holder != null)
              && (holder != null ==> holder.token == TokenAfterRefreshes(old(holder.token), login, Refreshes(steps)))
  {
    var targetToday := TargetInstant(targetText);
    if targetToday.None? {
      return InvalidTime, [];
    }
    outcome, steps := WaitLoop(targetToday.value, clock, hasSession && holder != null, holder, login);
  }

  /** The `while True` loop of `wait_until_target_time`, towards the instant `target`. */
  method WaitLoop(target: int, clock: seq<int>, doRefresh: bool, holder: TokenHolder?, login: nat -> Token)
    returns (outcome: WaitOutcome, steps: seq<Step>)
    requires doRefresh ==> holder != null
    modifies holder
    ensures var n := FirstReached(clock, target, 0);
            && outcome == (if n < |clock| then Reached(n) else TraceEnded)
            && steps == WaitSteps(clock[..n], target, doRefresh)
            && (holder != null ==> holder.token == TokenAfterRefreshes(old(holder.token), login, Refreshes(steps)))
  {
    steps := [];
    var renewals := 0;
    var i := 0;
    while i < |clock| && clock[i] < target
      invariant WaitedSoFar(clock, target, doRefresh, i, steps, renewals)
      invariant holder != null ==> holder.token == TokenAfterRefreshes(old(holder.token), login, renewals)
      decreases |clock| - i
    {
      var step := WaitPass(doRefresh, target - clock[i]);
      WaitedStep(clock, target, doRefresh, i, steps, renewals, step);
      if step.Refresh? {
        holder.token := login(renewals);
        renewals := renewals + 1;
      }
      steps := steps + [step];
      i := i + 1;
    }
    FirstReachedUnique(clock, target, 0, i);
    outcome := if i < |clock| then Reached(i) else TraceEnded;
  }

  /** After `i` passes: all readings so far were before the target, with their steps and renewals. */
  ghost predicate WaitedSoFar(clock: seq<int>, target: int, doRefresh: bool, i: nat, steps: seq<Step>, renewals: nat) {
    && i <= |clock|
    && (forall j :: 0 <= j < i ==> clock[j] < target)
    && steps == WaitSteps(clock[..i], target, doRefresh)
    && renewals == Refreshes(steps)
  }

  /** One more pass, for a reading before the target, keeps the loop's account. */
  lemma WaitedStep(clock: seq<int>, target: int, doRefresh: bool, i: nat, steps: seq<Step>, renewals: nat, step: Step)
    requires WaitedSoFar(clock, target, doRefresh, i, steps, renewals)
    requires i < |clock| && clock[i] < target && step == WaitStep(doRefresh, target - clock[i])
    ensures WaitedSoFar(clock, target, doRefresh, i + 1, steps + [step], if step.Refresh? then renewals + 1 else renewals)
  {
    WaitStepsTake(clock, target, doRefresh, i);
    RefreshesSnoc(steps, step);
  }

  /** The branches of one pass: what it sleeps, and whether it logs in after the sleep. */
  method WaitPass(doRefresh: bool, delta: int) returns (step: Step)
    ensures step == WaitStep(doRefresh, delta)
  {
    if doRefresh && delta > TokenRefreshInterval {
      step := Refresh(Min(TokenRefreshInterval, delta));
    } else if delta > CoarseThreshold {
      step := Sleep(Min(CoarseSleep, delta / 2));
    } else if delta > SpinThreshold {
      step := Sleep(delta);
    } else {
      step := Spin;
    }
  }

  /** The passes for one more reading add that reading's step. */
  lemma WaitStepsTake(clock: seq<int>, target: int, doRefresh: bool, i: nat)
    requires i < |clock|
    ensures WaitSteps(clock[..i + 1], target, doRefresh) ==
              WaitSteps(clock[..i], target, doRefresh) + [WaitStep(doRefresh, target - clock[i])]
  {
    assert clock[..i + 1][..i] == clock[..i];
  }

  /** One more pass adds one renewal when it is a renewal. */
  lemma RefreshesSnoc(steps: seq<Step>, s: Step)
    ensures Refreshes(steps + [s]) == Refreshes(steps) + if s.Refresh? then 1 else 0
  {
    SnocFront(steps, s);
  }
}
