/** `with_retry` of `resilience/retry.py`. The awaited function is a supply of outcomes, one per
    call; random jitter is a supply of fractions in [0, 1]. */
module Retry {
  import opened Prelude

  datatype RetryPolicy = RetryPolicy(maxAttempts: int, baseDelay: real, maxDelay: real, jitter: bool)

  datatype Outcome<T> = Returned(value: T) | Raised(exception: string, retryable: bool)

  /** How `with_retry` ends: a value, a re-raised exception, or its own RuntimeError when it never
      called the function. */
  datatype Final<T> = Value(value: T) | Reraised(exception: string) | NeverCalled

  function Pow2(n: nat): (p: nat)
    ensures p >= 1
  {
    if n == 0 then 1 else 2 * Pow2(n - 1)
  }

  /** x * n. The proofs below hide the products and use the four facts proved next. */
  function Times(x: real, n: int): real {
    x * n as real
  }

  /** A random fraction of a delay, as random.uniform(0, delay) yields. */
  function Jittered(u: real, delay: real): real {
    u * delay
  }

  lemma TimesAdds(x: real, m: int, n: int)
    ensures Times(x, m + n) == Times(x, m) + Times(x, n)
    ensures Times(x, 0) == 0.0 && Times(x, 1) == x
  {
  }

  lemma TimesMonotone(x: real, m: int, n: int)
    requires m <= n && x >= 0.0
    ensures Times(x, m) <= Times(x, n)
  {
  }

  lemma JitterShrinks(u: real, delay: real)
    requires 0.0 <= u <= 1.0 && delay >= 0.0
    ensures 0.0 <= Jittered(u, delay) <= delay
  {
    var v := 1.0 - u;
    assert u * delay >= 0.0 && v * delay >= 0.0;
    assert u * delay + v * delay == delay;
  }

  /** The capped exponential delay after attempt `i`. */
  function Delay(policy: RetryPolicy, i: nat): real {
    MinReal(Times(policy.baseDelay, Pow2(i)), policy.maxDelay)
  }

  predicate Retries<T>(o: Outcome<T>) {
    o.Raised? && o.retryable
  }

  function Conclude<T>(o: Outcome<T>): Final<T> {
    match o
    case Returned(v) => Value(v)
    case Raised(e, _) => Reraised(e)
  }

  /** The delays of a policy as its text describes them: the base delay, then doubled each time, capped. */
  function Backoff(policy: RetryPolicy, i: nat): real {
    if i == 0 then MinReal(policy.baseDelay, policy.maxDelay)
    else MinReal(2.0 * Backoff(policy, i - 1), policy.maxDelay)
  }

  /** Capping at every doubling is capping the exponential. */
  lemma {:induction false} DelayIsBackoff(policy: RetryPolicy, i: nat)
    requires policy.baseDelay >= 0.0 && policy.maxDelay >= 0.0
    ensures Delay(policy, i) == Backoff(policy, i)
  {
    hide Times;
    TimesAdds(policy.baseDelay, 0, 0);
    if i > 0 {
      DelayIsBackoff(policy, i - 1);
      var p := Pow2(i - 1);
      assert Pow2(i) == p + p;
      TimesAdds(policy.baseDelay, p, p);
      TimesMonotone(policy.baseDelay, 0, p);
    }
  }

  /** While the cap is not reached, k delays add up to base * (2^k - 1), which is twice the last one less the
      base. */
  lemma {:induction false} UncappedSum(policy: RetryPolicy, sleeps: seq<real>)
    requires policy.baseDelay >= 0.0 && policy.maxDelay >= 0.0
    requires forall i :: 0 <= i < |sleeps| ==> sleeps[i] == Delay(policy, i)
    requires sleeps != [] ==> sleeps[|sleeps| - 1] < policy.maxDelay
    ensures ExponentialTotal(policy, sleeps)
    ensures sleeps != [] ==> SumReal(sleeps) == 2.0 * sleeps[|sleeps| - 1] - policy.baseDelay
  {
    hide Times, ExponentialTotal, Delay;
    var n := |sleeps|;
    TimesAdds(policy.baseDelay, 0, 0);
    if n > 0 {
      var p := Pow2(n - 1);
      assert Pow2(n) == p + p;
      TimesAdds(policy.baseDelay, p - 1, p);
      TimesAdds(policy.baseDelay, p - 1, 1);
      UncappedDelay(policy, n - 1);
      if n > 1 { EarlierUncapped(policy, n - 1); }
      UncappedSum(policy, sleeps[..n - 1]);
      TotalMeans(policy, sleeps[..n - 1]);
    }
    TotalMeans(policy, sleeps);
  }

  lemma TotalMeans(policy: RetryPolicy, sleeps: seq<real>)
    ensures ExponentialTotal(policy, sleeps) <==> SumReal(sleeps) == Times(policy.baseDelay, Pow2(|sleeps|) - 1)
  {
  }

  lemma UncappedDelay(policy: RetryPolicy, i: nat)
    ensures Delay(policy, i) < policy.maxDelay ==> Delay(policy, i) == Times(policy.baseDelay, Pow2(i))
  {
  }

  lemma EarlierUncapped(policy: RetryPolicy, i: nat)
    requires i > 0 && policy.baseDelay >= 0.0 && Delay(policy, i) < policy.maxDelay
    ensures Delay(policy, i - 1) < policy.maxDelay
  {
    hide Times;
    Pow2Monotone(i - 1, i);
    TimesMonotone(policy.baseDelay, Pow2(i - 1), Pow2(i));
  }

  /** `calls` is where the retrying stops: at the first outcome that is not retried, or at the last
      attempt. */
  ghost predicate StopsAfter<T(!new)>(fn: nat -> Outcome<T>, maxAttempts: int, calls: nat) {
    && 1 <= calls <= maxAttempts
    && (forall i: nat :: i < calls - 1 ==> fn(i).Raised? && fn(i).retryable)
    && (calls == maxAttempts || fn(calls - 1).Returned? || !fn(calls - 1).retryable)
  }

  lemma DelayNonNegative(policy: RetryPolicy, i: nat)
    requires policy.baseDelay >= 0.0 && policy.maxDelay >= 0.0
    ensures Delay(policy, i) >= 0.0
  {
    hide Times;
    TimesAdds(policy.baseDelay, 0, 0);
    TimesMonotone(policy.baseDelay, 0, Pow2(i));
  }

  /** The longest a policy may sleep in total. */
  function SleepBudget(policy: RetryPolicy): real
    requires policy.maxAttempts >= 1
  {
    var n := policy.maxAttempts;
    MinReal(policy.baseDelay * (Pow2(n - 1) - 1) as real, policy.maxDelay * (n - 1) as real)
  }

  lemma BudgetMeans(policy: RetryPolicy)
    requires policy.maxAttempts >= 1
    ensures var n := policy.maxAttempts;
      SleepBudget(policy) == MinReal(Times(policy.baseDelay, Pow2(n - 1) - 1), Times(policy.maxDelay, n - 1))
  {
  }

  lemma {:induction false} SleepSum(policy: RetryPolicy, sleeps: seq<real>)
    requires policy.baseDelay >= 0.0 && policy.maxDelay >= 0.0
    requires forall i :: 0 <= i < |sleeps| ==> 0.0 <= sleeps[i] <= Delay(policy, i)
    ensures 0.0 <= SumReal(sleeps) <= Times(policy.baseDelay, Pow2(|sleeps|) - 1)
    ensures SumReal(sleeps) <= Times(policy.maxDelay, |sleeps|)
  {
    hide Times;
    var n := |sleeps|;
    TimesAdds(policy.baseDelay, 0, 0);
    TimesAdds(policy.maxDelay, 0, 0);
    if n > 0 {
      SleepSum(policy, sleeps[..n - 1]);
      var p := Pow2(n - 1);
      assert Pow2(n) - 1 == (p - 1) + p;
      TimesAdds(policy.baseDelay, p - 1, p);
      TimesAdds(policy.maxDelay, n - 1, 1);
    }
  }

  lemma {:induction false} Pow2Monotone(m: nat, n: nat)
    requires m <= n
    ensures Pow2(m) <= Pow2(n)
  {
    if m < n { Pow2Monotone(m, n - 1); }
  }

  /** Sleeping fewer than `maxAttempts` capped delays stays within the budget. */
  lemma WithinSleepBudget(policy: RetryPolicy, sleeps: seq<real>)
    requires policy.baseDelay >= 0.0 && policy.maxDelay >= 0.0 && |sleeps| < policy.maxAttempts
    requires forall i :: 0 <= i < |sleeps| ==> 0.0 <= sleeps[i] <= Delay(policy, i)
    ensures SumReal(sleeps) <= SleepBudget(policy)
  {
    hide Times, SleepBudget, SumReal, Delay;
    BudgetMeans(policy);
    SleepSum(policy, sleeps);
    Pow2Monotone(|sleeps|, policy.maxAttempts - 1);
    TimesMonotone(policy.baseDelay, Pow2(|sleeps|) - 1, Pow2(policy.maxAttempts - 1) - 1);
    TimesMonotone(policy.maxDelay, |sleeps|, policy.maxAttempts - 1);
  }

  /** The sleeps of a policy, read off the sleeps themselves. Without jitter the first is the base delay and
      each next one the previous one doubled, both capped, and while the cap is not reached the total is
      exactly base * (2^k - 1). With jitter each is its fraction of what it would be without. */
  ghost predicate SleepLaws(policy: RetryPolicy, jitterAt: nat -> real, sleeps: seq<real>) {
    if policy.jitter then
      FractionsOfBackoff(policy, jitterAt, sleeps)
    else
      && (sleeps != [] ==> sleeps[0] == MinReal(policy.baseDelay, policy.maxDelay))
      && (forall i {:trigger sleeps[i]} :: 0 < i < |sleeps| ==> sleeps[i] == MinReal(2.0 * sleeps[i - 1], policy.maxDelay))
      && (sleeps != [] && sleeps[|sleeps| - 1] < policy.maxDelay ==> ExponentialTotal(policy, sleeps))
  }

  ghost predicate FractionsOfBackoff(policy: RetryPolicy, jitterAt: nat -> real, sleeps: seq<real>) {
    forall i :: 0 <= i < |sleeps| ==> sleeps[i] == jitterAt(i) * Backoff(policy, i)
  }

  predicate ExponentialTotal(policy: RetryPolicy, sleeps: seq<real>) {
    SumReal(sleeps) == policy.baseDelay * (Pow2(|sleeps|) - 1) as real
  }

  lemma SleepLawsHold(policy: RetryPolicy, jitterAt: nat -> real, sleeps: seq<real>)
    requires policy.baseDelay >= 0.0 && policy.maxDelay >= 0.0
    requires !policy.jitter ==> forall i :: 0 <= i < |sleeps| ==> sleeps[i] == Delay(policy, i)
    requires policy.jitter ==> forall i :: 0 <= i < |sleeps| ==> sleeps[i] == Jittered(jitterAt(i), Delay(policy, i))
    ensures SleepLaws(policy, jitterAt, sleeps)
  {
    hide Delay, SumReal, Times, Pow2, Backoff, Jittered, SleepLaws;
    if policy.jitter { JitterLaw(policy, jitterAt, sleeps); } else { PlainLaws(policy, jitterAt, sleeps); }
  }

  lemma JitterLaw(policy: RetryPolicy, jitterAt: nat -> real, sleeps: seq<real>)
    requires policy.jitter && policy.baseDelay >= 0.0 && policy.maxDelay >= 0.0
    requires forall i :: 0 <= i < |sleeps| ==> sleeps[i] == Jittered(jitterAt(i), Delay(policy, i))
    ensures SleepLaws(policy, jitterAt, sleeps)
  {
    hide Delay, SumReal, Times, Pow2, Backoff, Jittered;
    forall i | 0 <= i < |sleeps| ensures sleeps[i] == jitterAt(i) * Backoff(policy, i) {
      DelayIsBackoff(policy, i);
      JitteredMeans(jitterAt(i), Backoff(policy, i));
    }
  }

  lemma JitteredMeans(u: real, delay: real)
    ensures Jittered(u, delay) == u * delay
  {
  }

  lemma PlainLaws(policy: RetryPolicy, jitterAt: nat -> real, sleeps: seq<real>)
    requires !policy.jitter && policy.baseDelay >= 0.0 && policy.maxDelay >= 0.0
    requires forall i :: 0 <= i < |sleeps| ==> sleeps[i] == Delay(policy, i)
    ensures SleepLaws(policy, jitterAt, sleeps)
  {
    hide Delay, SumReal, Pow2, Jittered, Backoff, ExponentialTotal, FractionsOfBackoff;
    forall i {:trigger sleeps[i]} | 0 <= i < |sleeps|
      ensures sleeps[i] == if i == 0 then MinReal(policy.baseDelay, policy.maxDelay)
                           else MinReal(2.0 * sleeps[i - 1], policy.maxDelay)
    {
      NextDelay(policy, i);
    }
    if sleeps != [] && sleeps[|sleeps| - 1] < policy.maxDelay { UncappedSum(policy, sleeps); }
  }

  lemma NextDelay(policy: RetryPolicy, i: nat)
    requires policy.baseDelay >= 0.0 && policy.maxDelay >= 0.0
    ensures Delay(policy, i) == if i == 0 then MinReal(policy.baseDelay, policy.maxDelay)
                                else MinReal(2.0 * Delay(policy, i - 1), policy.maxDelay)
  {
    hide Delay;
    DelayIsBackoff(policy, i);
    if i > 0 { DelayIsBackoff(policy, i - 1); }
  }

  method WithRetry<T(!new)>(fn: nat -> Outcome<T>, policy: RetryPolicy, jitterAt: nat -> real)
    returns (r: Final<T>, calls: nat, sleeps: seq<real>)
    requires forall i: nat :: 0.0 <= jitterAt(i) <= 1.0
    ensures policy.maxAttempts <= 0 ==> r == NeverCalled && calls == 0 && sleeps == []
    ensures policy.maxAttempts >= 1 ==>
      && StopsAfter(fn, policy.maxAttempts, calls) && |sleeps| == calls - 1
      && match fn(calls - 1)
         case Returned(v) => r == Value(v)
         case Raised(e, _) => r == Reraised(e)
    ensures !policy.jitter ==> forall i :: 0 <= i < |sleeps| ==> sleeps[i] == Delay(policy, i)
    ensures policy.jitter ==> forall i :: 0 <= i < |sleeps| ==> sleeps[i] == Jittered(jitterAt(i), Delay(policy, i))
    ensures policy.baseDelay >= 0.0 && policy.maxDelay >= 0.0 ==>
      && (forall i :: 0 <= i < |sleeps| ==> 0.0 <= sleeps[i] <= Delay(policy, i))
      && (policy.maxAttempts >= 1 ==> SumReal(sleeps) <= SleepBudget(policy))
      && SleepLaws(policy, jitterAt, sleeps)
  {
    hide Times, Jittered, Pow2, SumReal, SleepBudget, SleepLaws;
    var lastExc: Option<string> := None;
    calls, sleeps := 0, [];
    for attempt := 0 to MaxInt(0, policy.maxAttempts)
      invariant calls == attempt == |sleeps|
      invariant attempt < policy.maxAttempts || attempt == 0
      invariant calls == 0 ==> lastExc == None
      invariant forall i: nat :: i < calls ==> Retries(fn(i))
      invariant !policy.jitter ==> forall i :: 0 <= i < |sleeps| ==> sleeps[i] == Delay(policy, i)
      invariant policy.jitter ==> forall i :: 0 <= i < |sleeps| ==> sleeps[i] == Jittered(jitterAt(i), Delay(policy, i))
      invariant policy.baseDelay >= 0.0 && policy.maxDelay >= 0.0 ==>
        forall i :: 0 <= i < |sleeps| ==> 0.0 <= sleeps[i] <= Delay(policy, i)
    {
      var outcome := fn(attempt);
      calls := calls + 1;
      if !Retries(outcome) {
        if policy.baseDelay >= 0.0 && policy.maxDelay >= 0.0 {
          WithinSleepBudget(policy, sleeps);
          SleepLawsHold(policy, jitterAt, sleeps);
        }
        return Conclude(outcome), calls, sleeps;
      }
      lastExc := Some(outcome.exception);
      if attempt == policy.maxAttempts - 1 { break; }
      var delay := Delay(policy, attempt);
      if policy.baseDelay >= 0.0 && policy.maxDelay >= 0.0 {
        DelayNonNegative(policy, attempt);
        JitterShrinks(jitterAt(attempt), delay);
      }
      if policy.jitter { delay := Jittered(jitterAt(attempt), delay); }
      sleeps := sleeps + [delay];
    }
    if policy.baseDelay >= 0.0 && policy.maxDelay >= 0.0 {
      if policy.maxAttempts >= 1 { WithinSleepBudget(policy, sleeps); }
      SleepLawsHold(policy, jitterAt, sleeps);
    }
    return if lastExc.Some? then Reraised(lastExc.value) else NeverCalled, calls, sleeps;
  }
}
