/** The circuit breaker of `resilience/circuit_breaker.py`: its state as a value, each locked body
    as a function on that value, and the object whose methods perform them in place. */
module CircuitBreaker {
  import opened Prelude

  datatype CircuitState = CLOSED | OPEN | HALF_OPEN

  datatype Config = Config(failureThreshold: int, cooldown: real, probeCount: int)

  datatype Breaker = Breaker(
    config: Config,
    state: CircuitState,
    failureCount: int,
    openedAt: Option<real>,
    probeSuccesses: int,
    transitionCount: int)

  datatype CircuitOpenError = CircuitOpenError

  function Fresh(config: Config): Breaker {
    Breaker(config, CLOSED, 0, None, 0, 0)
  }

  predicate CooledDown(b: Breaker, now: real) {
    b.openedAt.Some? && now - b.openedAt.value >= b.config.cooldown
  }

  /** `_maybe_transition_to_half_open` */
  function MaybeHalfOpen(b: Breaker, now: real): Breaker {
    if b.state == OPEN && CooledDown(b, now) then b.(state := HALF_OPEN, probeSuccesses := 0) else b
  }

  function Trip(b: Breaker, now: real): Breaker {
    b.(state := OPEN, openedAt := Some(now), transitionCount := b.transitionCount + 1)
  }

  /** `record_failure` */
  function OnFailure(b: Breaker, now: real): Breaker {
    match b.state
    case HALF_OPEN => Trip(b, now)
    case OPEN => b
    case CLOSED =>
      var counted := b.(failureCount := b.failureCount + 1);
      if counted.failureCount >= b.config.failureThreshold then Trip(counted, now) else counted
  }

  /** `record_success` */
  function OnSuccess(b: Breaker): Breaker {
    match b.state
    case HALF_OPEN =>
      var counted := b.(probeSuccesses := b.probeSuccesses + 1);
      if counted.probeSuccesses >= b.config.probeCount
      then counted.(state := CLOSED, failureCount := 0, openedAt := None)
      else counted
    case CLOSED => b.(failureCount := 0)
    case OPEN => b
  }

  /** `is_open`, whose test of `_opened_at` is a truth test: a breaker opened at clock value 0.0 is
      reported open for ever. */
  predicate ReportsOpen(b: Breaker, now: real) {
    b.state == OPEN && !(b.openedAt.Some? && b.openedAt.value != 0.0 && CooledDown(b, now))
  }

  /** `call` at `now` raises CircuitOpenError without touching the dependency. */
  predicate Rejects(b: Breaker, now: real) {
    MaybeHalfOpen(b, now).state == OPEN
  }

  /** The breaker is OPEN and its cooldown is still running. */
  predicate CoolingDown(b: Breaker, now: real) {
    b.state == OPEN && !CooledDown(b, now)
  }

  /** `is_open` agrees with `call` except on a breaker opened at clock value 0.0 whose cooldown is
      over: `is_open` still says open, `call` would probe. */
  lemma ReportsOpenIffRejects(b: Breaker, now: real)
    ensures Rejects(b, now) <==> CoolingDown(b, now)
    ensures Rejects(b, now) ==> ReportsOpen(b, now)
    ensures (ReportsOpen(b, now) <==> Rejects(b, now)) <==>
      !(b.state == OPEN && b.openedAt == Some(0.0) && now >= b.config.cooldown)
  {
  }

  /** The outcome of awaiting the protected function. */
  datatype FnOutcome<T> = Returned(value: T) | Failed(exception: string)

  datatype CallError = Open(CircuitOpenError) | FromFn(exception: string)

  class CircuitBreaker {
    const config: Config
    var state: CircuitState
    var failureCount: int
    var openedAt: Option<real>
    var probeSuccesses: int
    var transitionCount: int

    function View(): Breaker
      reads this
    {
      Breaker(config, state, failureCount, openedAt, probeSuccesses, transitionCount)
    }

    constructor (config: Config)
      ensures View() == Fresh(config)
      ensures this.config == config && state == CLOSED && openedAt == None
      ensures failureCount == 0 && probeSuccesses == 0 && transitionCount == 0
    {
      this.config := config;
      state, failureCount, openedAt, probeSuccesses, transitionCount := CLOSED, 0, None, 0, 0;
    }

    method IsOpen(now: real) returns (open: bool)
      ensures open == ReportsOpen(View(), now)
      ensures Rejects(View(), now) ==> open
    {
      if state == CLOSED { return false; }
      if state == OPEN {
        if openedAt.Some? && openedAt.value != 0.0 && now - openedAt.value >= config.cooldown {
          return false;
        }
        return true;
      }
      return false;
    }

    method MaybeTransitionToHalfOpen(now: real)
      modifies this
      ensures View() == MaybeHalfOpen(old(View()), now)
    {
      if state == OPEN && openedAt.Some? && now - openedAt.value >= config.cooldown {
        state := HALF_OPEN;
        probeSuccesses := 0;
      }
    }

    method RecordFailure(now: real)
      modifies this
      ensures View() == OnFailure(old(View()), now)
    {
      if state == HALF_OPEN {
        state := OPEN;
        openedAt := Some(now);
        transitionCount := transitionCount + 1;
        return;
      }
      if state == OPEN { return; }
      failureCount := failureCount + 1;
      if failureCount >= config.failureThreshold {
        if state == CLOSED {
          state := OPEN;
          openedAt := Some(now);
          transitionCount := transitionCount + 1;
        }
      }
    }

    method RecordSuccess()
      modifies this
      ensures View() == OnSuccess(old(View()))
    {
      if state == HALF_OPEN {
        probeSuccesses := probeSuccesses + 1;
        if probeSuccesses >= config.probeCount {
          state := CLOSED;
          failureCount := 0;
          openedAt := None;
        }
      } else if state == CLOSED {
        failureCount := 0;
      }
    }

    /** `call` when no other coroutine uses the breaker between entry and exit: `fn` runs from
        `entry` to `exit` and ends in `outcome`. Interleaved calls are the subject of
        BreakerProtocol. */
    method Call<T>(entry: real, outcome: FnOutcome<T>, exit: real) returns (r: Result<T, CallError>, touched: bool)
      modifies this
      ensures touched <==> !old(CoolingDown(View(), entry))
      ensures !touched ==> r == Err(Open(CircuitOpenError)) && View() == old(View())
      ensures touched && outcome.Returned? ==> r == Ok(outcome.value) && View() == OnSuccess(MaybeHalfOpen(old(View()), entry))
      ensures touched && outcome.Failed? ==>
        r == Err(FromFn(outcome.exception)) && View() == OnFailure(MaybeHalfOpen(old(View()), entry), exit)
    {
      MaybeTransitionToHalfOpen(entry);
      if state == OPEN {
        return Err(Open(CircuitOpenError)), false;
      }
      touched := true;
      match outcome {
        case Returned(v) =>
          RecordSuccess();
          r := Ok(v);
        case Failed(e) =>
          RecordFailure(exit);
          r := Err(FromFn(e));
      }
    }
  }
}
