/**
 * The busy-poll wait in `Main`: test whether the result log exists; if
 * not, read the clock and give up once the elapsed time passes the limit.
 *
 * The clock and the filesystem are inputs: a trace of polls, each holding
 * the answer of the existence test and, for a negative answer, the clock
 * reading (in .NET ticks of 100 ns) taken in that iteration. A finite
 * trace is a finite observation of the loop: when it runs out while the
 * loop would still go on, the outcome is `Pending`.
 *
 * The source tests `duration.Milliseconds`, the millisecond component of
 * the elapsed `TimeSpan`, which never exceeds 999, against a limit of
 * 600000 ms; that rule can never fire. The rule is a parameter here:
 * `SubSecondComponent` is the test as written, `TotalElapsed` the test on
 * the whole elapsed time that the limit evidently intends.
 */
module Waiter {

  const TicksPerMillisecond: int := 10000
  const MaximumTimeoutMilliseconds: int := 1000 * 600

  /**
   * Integer division as C# does it: the quotient is truncated toward zero,
   * so it never has the opposite sign of the dividend.
   */
  function TruncatedDiv(a: int, b: int): (q: int)
    requires b > 0
    ensures a >= 0 ==> q >= 0
    ensures a <= 0 ==> q <= 0
  {
    if a >= 0 then a / b else -((-a) / b)
  }

  /** The C# remainder `%`: it takes the sign of the dividend and is below the divisor in size. */
  function TruncatedRem(a: int, b: int): (r: int)
    requires b > 0
    ensures -b < r < b
    ensures a >= 0 ==> r >= 0
    ensures a <= 0 ==> r <= 0
  {
    if a >= 0 then a % b else -((-a) % b)
  }

  /**
   * `TimeSpan.Milliseconds` of a span of `ticks`: the millisecond part of
   * the span, `(ticks / 10000) % 1000` in C#, between -999 and 999.
   */
  function MillisecondsComponent(ticks: int): (ms: int)
    ensures -999 <= ms <= 999
    ensures ticks >= 0 ==> ms >= 0
  {
    TruncatedRem(TruncatedDiv(ticks, TicksPerMillisecond), 1000)
  }

  datatype TimeoutRule =
    | SubSecondComponent  // `duration.Milliseconds > MAXIMUM_TIMEOUT_MILISECONDS`, as written
    | TotalElapsed        // the whole elapsed time against the limit

  /** Whether an elapsed span of `ticks` counts as a timeout under `rule`. */
  predicate Exceeds(rule: TimeoutRule, ticks: int)
  {
    match rule
    case SubSecondComponent => MillisecondsComponent(ticks) > MaximumTimeoutMilliseconds
    case TotalElapsed => ticks > MaximumTimeoutMilliseconds * TicksPerMillisecond
  }

  /** The as-written test is false for every span, however long. */
  lemma SubSecondRuleNeverFires(ticks: int)
    ensures !Exceeds(SubSecondComponent, ticks)
  {
  }

  /** One iteration's observations: the existence test, and the clock when it failed. */
  datatype Poll = Poll(resultExists: bool, now: int)

  datatype WaitOutcome =
    | Found(polls: nat)    // the log existed at this test
    | Expired(polls: nat)  // the limit was passed after this test failed
    | Pending              // the trace ended with the loop still running

  /** The loop goes on past a poll that finds no log and does not time out. */
  predicate Continues(rule: TimeoutRule, start: int, p: Poll)
  {
    !p.resultExists && !Exceeds(rule, p.now - start)
  }

  /** What the loop does from poll `k` of the trace on. */
  function WaitFrom(rule: TimeoutRule, start: int, trace: seq<Poll>, k: nat): WaitOutcome
    decreases |trace| - k
  {
    if k >= |trace| then Pending
    else if trace[k].resultExists then Found(k)
    else if Exceeds(rule, trace[k].now - start) then Expired(k)
    else WaitFrom(rule, start, trace, k + 1)
  }

  /**
   * The outcome from poll `k` on, described without recursion: the loop
   * stops at the first poll that finds the log or passes the limit, and is
   * still pending when there is none.
   */
  lemma {:induction false} WaitFromStopsAtFirst(rule: TimeoutRule, start: int, trace: seq<Poll>, k: nat, n: nat)
    requires k <= |trace|
    ensures WaitFrom(rule, start, trace, k) == Found(n) <==>
      k <= n < |trace| && trace[n].resultExists &&
      forall j :: k <= j < n ==> Continues(rule, start, trace[j])
    ensures WaitFrom(rule, start, trace, k) == Expired(n) <==>
      k <= n < |trace| && !trace[n].resultExists && Exceeds(rule, trace[n].now - start) &&
      forall j :: k <= j < n ==> Continues(rule, start, trace[j])
    ensures WaitFrom(rule, start, trace, k) == Pending <==>
      forall j :: k <= j < |trace| ==> Continues(rule, start, trace[j])
    decreases |trace| - k
  {
    if k < |trace| && Continues(rule, start, trace[k]) {
      WaitFromStopsAtFirst(rule, start, trace, k + 1, n);
    }
  }

  /**
   * As written, the loop never times out: it stops exactly at the first poll
   * that finds the log, and it keeps polling for as long as the log is absent.
   */
  lemma AsWrittenWaitsForResult(start: int, trace: seq<Poll>, n: nat)
    ensures !WaitFrom(SubSecondComponent, start, trace, 0).Expired?
    ensures WaitFrom(SubSecondComponent, start, trace, 0) == Found(n) <==>
      n < |trace| && trace[n].resultExists && forall j :: 0 <= j < n ==> !trace[j].resultExists
    ensures WaitFrom(SubSecondComponent, start, trace, 0) == Pending <==>
      forall j :: 0 <= j < |trace| ==> !trace[j].resultExists
  {
    WaitFromStopsAtFirst(SubSecondComponent, start, trace, 0, n);
    var w := WaitFrom(SubSecondComponent, start, trace, 0);
    if w.Expired? {
      WaitFromStopsAtFirst(SubSecondComponent, start, trace, 0, w.polls);
    }
  }

  /**
   * With the intended rule the wait is bounded: once a poll finds no log past
   * the limit, the loop has stopped by that poll; and a log that is found was
   * found with every earlier clock reading within the limit.
   */
  lemma IntendedWaitIsBounded(start: int, trace: seq<Poll>, m: nat)
    requires m < |trace| && trace[m].now - start > MaximumTimeoutMilliseconds * TicksPerMillisecond
    ensures var w := WaitFrom(TotalElapsed, start, trace, 0);
      (w.Found? || w.Expired?) && w.polls <= m
    ensures var w := WaitFrom(TotalElapsed, start, trace, 0);
      w.Found? ==> forall j :: 0 <= j < w.polls ==> trace[j].now - start <= MaximumTimeoutMilliseconds * TicksPerMillisecond
  {
    var w := WaitFrom(TotalElapsed, start, trace, 0);
    WaitFromStopsAtFirst(TotalElapsed, start, trace, 0, 0);
    assert !Continues(TotalElapsed, start, trace[m]);
    if w.Found? || w.Expired? {
      WaitFromStopsAtFirst(TotalElapsed, start, trace, 0, w.polls);
    }
  }

  /**
   * Eleven minutes without a result log: the intended rule gives up at the
   * first poll, while the loop as written is still waiting.
   */
  lemma ElevenMinutesWithoutResult()
    ensures WaitFrom(SubSecondComponent, 0, [Poll(false, 6_600_000_000)], 0) == Pending
    ensures WaitFrom(TotalElapsed, 0, [Poll(false, 6_600_000_000)], 0) == Expired(0)
  {
    assert MillisecondsComponent(6_600_000_000) == 0;
  }

  /**
   * The wait loop of `Main` over a trace of polls. Under the rule as written
   * `hasResult` is never cleared, so the outcome is never `Expired`.
   */
  method WaitForResult(rule: TimeoutRule, start: int, trace: seq<Poll>) returns (w: WaitOutcome)
    ensures w == WaitFrom(rule, start, trace, 0)
    ensures rule == SubSecondComponent ==> !w.Expired?
  {
    var hasResult := true;
    var k := 0;
    while k < |trace| && !trace[k].resultExists
      invariant 0 <= k <= |trace|
      invariant WaitFrom(rule, start, trace, 0) == WaitFrom(rule, start, trace, k)
      invariant hasResult
    {
      var duration := trace[k].now - start;
      if Exceeds(rule, duration) {
        hasResult := false;
        break;
      }
      k := k + 1;
    }
    if !hasResult {
      w := Expired(k);
    } else if k < |trace| {
      w := Found(k);
    } else {
      w := Pending;
    }
  }
}
