/** `with_retry` around `breaker.call`, the composition that `resilience/retry.py` describes: a
    dependency that always fails, retried through a breaker nobody else uses. */
module RetryBreaker {
  import opened Prelude
  import opened CB = CircuitBreaker
  import opened Retry

  /** One attempt: `call` is entered at `entry`; if the dependency is touched it fails at `exit`. */
  datatype Span = Span(entry: real, exit: real)

  function Attempt(b: Breaker, t: Span): Breaker {
    if Rejects(b, t.entry) then b else OnFailure(MaybeHalfOpen(b, t.entry), t.exit)
  }

  /** The breaker after the attempts in `ts`. */
  function Drive(b: Breaker, ts: seq<Span>): Breaker {
    if ts == [] then b else Attempt(Drive(b, ts[..|ts| - 1]), ts[|ts| - 1])
  }

  /** How many of the attempts in `ts` reached the dependency. */
  function Touches(b: Breaker, ts: seq<Span>): nat {
    if ts == [] then 0
    else
      var before := ts[..|ts| - 1];
      Touches(b, before) + if Rejects(Drive(b, before), ts[|ts| - 1].entry) then 0 else 1
  }

  /** Attempts follow one another in time. */
  predicate Sequential(ts: seq<Span>) {
    && (forall i :: 0 <= i < |ts| ==> ts[i].entry <= ts[i].exit)
    && (forall i {:trigger ts[i].entry} :: 0 < i < |ts| ==> ts[i - 1].exit <= ts[i].entry)
  }

  /** Failures still to be counted before a CLOSED breaker trips. */
  function Missing(b: Breaker): int {
    b.config.failureThreshold - b.failureCount
  }

  /** Until the breaker trips every attempt reaches the dependency, and attempt number Missing(b)
      trips it. */
  lemma {:induction false} BeforeTrip(b: Breaker, ts: seq<Span>)
    requires b.state == CLOSED && Missing(b) > 0 && |ts| <= Missing(b)
    ensures Touches(b, ts) == |ts|
    ensures |ts| < Missing(b) ==> Drive(b, ts) == b.(failureCount := b.failureCount + |ts|)
    ensures |ts| == Missing(b) ==>
      Drive(b, ts) == b.(state := OPEN, failureCount := b.config.failureThreshold,
                         openedAt := Some(ts[|ts| - 1].exit), transitionCount := b.transitionCount + 1)
  {
    if ts != [] { BeforeTrip(b, ts[..|ts| - 1]); }
  }

  /** An attempt on an OPEN breaker is rejected, or is a probe that reopens it. */
  lemma ProbeReopens(b: Breaker, t: Span)
    requires b.state == OPEN && b.openedAt.Some?
    ensures Rejects(b, t.entry) <==> t.entry - b.openedAt.value < b.config.cooldown
    ensures Rejects(b, t.entry) ==> Attempt(b, t) == b
    ensures !Rejects(b, t.entry) ==>
      Attempt(b, t).state == OPEN && Attempt(b, t).openedAt == Some(t.exit) && Attempt(b, t).config == b.config
  {
  }

  /** After the trip at time `trip`, each touch is a probe that reopens the breaker, so the p-th probe
      starts at least p cooldowns after the trip. */
  lemma {:induction false} AfterTrip(b: Breaker, ts: seq<Span>)
    requires b.state == CLOSED && Missing(b) > 0 && |ts| >= Missing(b)
    requires Sequential(ts) && b.config.cooldown > 0.0
    ensures var k := Missing(b); var trip := ts[k - 1].exit; var p := Touches(b, ts) - k; var d := Drive(b, ts);
      && p >= 0
      && d.state == OPEN && d.config == b.config && d.openedAt.Some?
      && trip + Times(b.config.cooldown, p) <= d.openedAt.value <= ts[|ts| - 1].exit
      && (p > 0 ==> trip + Times(b.config.cooldown, p) <= ts[|ts| - 1].entry)
      && (ts[|ts| - 1].entry - trip < b.config.cooldown ==> p == 0)
    decreases |ts|
  {
    hide Times, Rejects, Attempt;
    var n := |ts| - 1;
    var k := Missing(b);
    if |ts| == k {
      BeforeTrip(b, ts);
      TimesAdds(b.config.cooldown, 0, 0);
    } else {
      var before := ts[..n];
      AfterTrip(b, before);
      var p := Touches(b, before) - k;
      TimesAdds(b.config.cooldown, p, 1);
      TimesAdds(b.config.cooldown, 0, 0);
      TimesMonotone(b.config.cooldown, 0, p);
      ProbeReopens(Drive(b, before), ts[n]);
      assert ts[n].entry <= ts[n].exit && ts[n - 1].exit <= ts[n].entry && ts[n - 1].entry <= ts[n - 1].exit;
    }
  }

  lemma FloorBound(elapsed: real, cooldown: real, p: int)
    requires cooldown > 0.0 && Times(cooldown, p) <= elapsed
    ensures p <= (elapsed / cooldown).Floor
  {
    var q := elapsed / cooldown;
    assert cooldown * q == elapsed;
    assert cooldown * (q - p as real) == elapsed - Times(cooldown, p);
    NonNegativeFactor(cooldown, q - p as real);
  }

  /** An always-failing dependency is touched at most once per attempt, at most Missing(b) times
      before the trip and once per whole cooldown after it; and exactly min(attempts, Missing(b))
      times when no cooldown ends in between. */
  lemma TouchBound(b: Breaker, ts: seq<Span>)
    requires b.state == CLOSED && Missing(b) > 0 && b.config.cooldown > 0.0
    requires Sequential(ts)
    ensures Touches(b, ts) <= |ts|
    ensures |ts| <= Missing(b) ==> Touches(b, ts) == |ts|
    ensures |ts| > Missing(b) ==>
      var sinceTrip := ts[|ts| - 1].entry - ts[Missing(b) - 1].exit;
      && Missing(b) <= Touches(b, ts) <= Missing(b) + (sinceTrip / b.config.cooldown).Floor
      && (sinceTrip < b.config.cooldown ==> Touches(b, ts) == Missing(b))
  {
    hide Times, Touches, Drive;
    TouchesAtMost(b, ts);
    if |ts| <= Missing(b) {
      BeforeTrip(b, ts);
    } else {
      AfterTrip(b, ts);
      var p := Touches(b, ts) - Missing(b);
      var sinceTrip := ts[|ts| - 1].entry - ts[Missing(b) - 1].exit;
      if p > 0 {
        FloorBound(sinceTrip, b.config.cooldown, p);
      } else {
        EntryAfterTrip(ts, Missing(b) - 1, |ts| - 1);
        TimesAdds(b.config.cooldown, 0, 0);
        FloorBound(sinceTrip, b.config.cooldown, 0);
      }
    }
  }

  lemma {:induction false} TouchesAtMost(b: Breaker, ts: seq<Span>)
    ensures Touches(b, ts) <= |ts|
  {
    if ts != [] { TouchesAtMost(b, ts[..|ts| - 1]); }
  }

  lemma {:induction false} EntryAfterTrip(ts: seq<Span>, i: nat, j: nat)
    requires Sequential(ts) && i < j < |ts|
    ensures ts[i].exit <= ts[j].entry
  {
    if i + 1 < j { EntryAfterTrip(ts, i, j - 1); }
    assert ts[j - 1].exit <= ts[j].entry;
  }

  /** What attempt i of the retry loop sees: a rejection by the breaker or the dependency's own
      failure. Both are `Exception`s, the default of `retryable`. */
  function AttemptOutcome(b: Breaker, ts: seq<Span>): nat -> Outcome<()> {
    (i: nat) =>
      if i < |ts| && Rejects(Drive(b, ts[..i]), ts[i].entry)
      then Raised("CircuitOpenError", true)
      else Raised("dependency failed", true)
  }

  /** So `with_retry` makes all its attempts, whatever the breaker does, and the dependency sees no
      more of them than TouchBound allows. */
  lemma RetryThroughBreaker(b: Breaker, policy: RetryPolicy, ts: seq<Span>, calls: nat)
    requires b.state == CLOSED && Missing(b) > 0 && b.config.cooldown > 0.0 && Sequential(ts)
    requires policy.maxAttempts == |ts| && policy.maxAttempts >= 1
    requires StopsAfter(AttemptOutcome(b, ts), policy.maxAttempts, calls)
    ensures calls == policy.maxAttempts
    ensures Touches(b, ts) <= MinInt(policy.maxAttempts,
      Missing(b) + if calls > Missing(b)
                   then ((ts[calls - 1].entry - ts[Missing(b) - 1].exit) / b.config.cooldown).Floor else 0)
    ensures (calls > Missing(b) ==> ts[calls - 1].entry - ts[Missing(b) - 1].exit < b.config.cooldown)
      ==> Touches(b, ts) == MinInt(policy.maxAttempts, Missing(b))
  {
    hide Touches, Drive, AttemptOutcome, StopsAfter;
    AllAttempts(b, policy, ts, calls);
    TouchBound(b, ts);
    if calls > Missing(b) {
      EntryAfterTrip(ts, Missing(b) - 1, calls - 1);
    }
  }

  lemma AllAttempts(b: Breaker, policy: RetryPolicy, ts: seq<Span>, calls: nat)
    requires StopsAfter(AttemptOutcome(b, ts), policy.maxAttempts, calls)
    ensures calls == policy.maxAttempts
  {
    hide Drive, Rejects;
    assert Retries(AttemptOutcome(b, ts)(calls - 1));
  }

  function Durations(ts: seq<Span>): seq<real> {
    seq(|ts|, i requires 0 <= i < |ts| => ts[i].exit - ts[i].entry)
  }

  /** The attempts of one retry loop: each takes its time, and sleep i separates it from the next. */
  predicate Paced(ts: seq<Span>, sleeps: seq<real>) {
    && |sleeps| + 1 == |ts|
    && (forall i :: 0 <= i < |ts| ==> ts[i].entry <= ts[i].exit)
    && (forall i :: 0 <= i < |sleeps| ==> sleeps[i] >= 0.0 && SleptBetween(ts, sleeps, i))
  }

  predicate SleptBetween(ts: seq<Span>, sleeps: seq<real>, i: nat)
    requires i < |sleeps| && i + 1 < |ts|
  {
    ts[i + 1].entry == ts[i].exit + sleeps[i]
  }

  lemma PacedSequential(ts: seq<Span>, sleeps: seq<real>)
    requires Paced(ts, sleeps)
    ensures Sequential(ts)
  {
    forall i {:trigger ts[i].entry} | 0 < i < |ts| ensures ts[i - 1].exit <= ts[i].entry {
      assert SleptBetween(ts, sleeps, i - 1);
    }
  }

  /** Attempt n starts when all earlier attempts and sleeps are over. */
  lemma {:induction false} EntryTime(ts: seq<Span>, sleeps: seq<real>, n: nat)
    requires Paced(ts, sleeps) && n < |ts|
    ensures ts[n].entry == ts[0].entry + SumReal(sleeps[..n]) + SumReal(Durations(ts[..n]))
  {
    if n > 0 {
      EntryTime(ts, sleeps, n - 1);
      assert SleptBetween(ts, sleeps, n - 1);
      assert sleeps[..n][..n - 1] == sleeps[..n - 1];
      assert Durations(ts[..n])[..n - 1] == Durations(ts[..n - 1]);
    } else {
      assert sleeps[..0] == [] && Durations(ts[..0]) == [];
    }
  }

  /** When all the sleeping the policy allows and the attempts before the last one take less than a cooldown,
      no cooldown ends within the loop: the dependency is touched exactly min(attempts, Missing(b)) times. */
  lemma QuickRetries(b: Breaker, policy: RetryPolicy, ts: seq<Span>, sleeps: seq<real>, calls: nat)
    requires b.state == CLOSED && Missing(b) > 0 && b.config.cooldown > 0.0
    requires policy.maxAttempts >= 1 && policy.baseDelay >= 0.0 && policy.maxDelay >= 0.0
    requires policy.maxAttempts == |ts| && Paced(ts, sleeps)
    requires forall i :: 0 <= i < |sleeps| ==> sleeps[i] <= Delay(policy, i)
    requires StopsAfter(AttemptOutcome(b, ts), policy.maxAttempts, calls)
    requires SleepBudget(policy) + SumReal(Durations(ts[..|ts| - 1])) < b.config.cooldown
    ensures calls == policy.maxAttempts && Touches(b, ts) == MinInt(policy.maxAttempts, Missing(b))
  {
    hide Touches, Drive, Delay, SleepBudget, StopsAfter, SumReal;
    PacedSequential(ts, sleeps);
    RetryThroughBreaker(b, policy, ts, calls);
    WithinSleepBudget(policy, sleeps);
    var n := |ts| - 1;
    EntryTime(ts, sleeps, n);
    assert sleeps[..n] == sleeps;
    if n >= Missing(b) && Missing(b) > 1 { EntryAfterTrip(ts, 0, Missing(b) - 1); }
  }

  /** The attempts of the loop performed on the breaker object itself. */
  method FailThrough(breaker: CB.CircuitBreaker, ts: seq<Span>) returns (touches: nat)
    modifies breaker
    ensures breaker.View() == Drive(old(breaker.View()), ts)
    ensures touches == Touches(old(breaker.View()), ts)
  {
    touches := 0;
    assert ts[..|ts|] == ts;
    for i := 0 to |ts|
      invariant breaker.View() == Drive(old(breaker.View()), ts[..i])
      invariant touches == Touches(old(breaker.View()), ts[..i])
    {
      assert ts[..i + 1][..i] == ts[..i];
      var _, touched := breaker.Call<()>(ts[i].entry, Failed("dependency failed"), ts[i].exit);
      if touched { touches := touches + 1; }
    }
  }
}
