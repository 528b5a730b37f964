/** Any number of coroutines sharing one circuit breaker. Each locked body is one atomic step; while a
    call awaits `fn`, any steps of others and any passage of time may happen. Between the half-open check of
    a call and its rejection or dispatch nothing else can happen, because `call` does not suspend there. Runs
    that respect this are called prompt: the safety theorems hold for all runs, prompt or not, and every run
    that a lemma claims to exist is prompt. */
module BreakerProtocol {
  import opened Prelude
  import opened CircuitBreaker

  /** Where one `call` stands: it has passed the half-open check, or it is awaiting `fn`. */
  datatype Phase = Entered | InFn

  datatype System = System(breaker: Breaker, clock: real, calls: map<nat, Phase>)

  datatype Action =
    | Tick(dt: real)
    | Enter(id: nat)                  // await self._maybe_transition_to_half_open()
    | Reject(id: nat)                 // raise CircuitOpenError
    | Dispatch(id: nat)               // fn() starts
    | Complete(id: nat, ok: bool)     // fn() ended; record_success or record_failure
    | Cancel(id: nat)                 // the task is cancelled: neither outcome is recorded
    | ReportSuccess                   // record_success or record_failure called directly
    | ReportFailure

  predicate Enabled(s: System, a: Action) {
    match a
    case Tick(dt) => dt >= 0.0
    case Enter(id) => id !in s.calls
    case Reject(id) => id in s.calls && s.calls[id] == Entered && s.breaker.state == OPEN
    case Dispatch(id) => id in s.calls && s.calls[id] == Entered && s.breaker.state != OPEN
    case Complete(id, _) => id in s.calls && s.calls[id] == InFn
    case Cancel(id) => id in s.calls
    case _ => true
  }

  function Step(s: System, a: Action): System {
    match a
    case Tick(dt) => s.(clock := s.clock + dt)
    case Enter(id) => s.(breaker := MaybeHalfOpen(s.breaker, s.clock), calls := s.calls[id := Entered])
    case Reject(id) => s.(calls := s.calls - {id})
    case Dispatch(id) => s.(calls := s.calls[id := InFn])
    case Complete(id, ok) =>
      s.(breaker := if ok then OnSuccess(s.breaker) else OnFailure(s.breaker, s.clock), calls := s.calls - {id})
    case Cancel(id) => s.(calls := s.calls - {id})
    case ReportSuccess => s.(breaker := OnSuccess(s.breaker))
    case ReportFailure => s.(breaker := OnFailure(s.breaker, s.clock))
  }

  /** A fresh breaker of any configuration, nobody calling it. */
  predicate Init(s: System) {
    var b := s.breaker;
    && b.state == CLOSED && b.failureCount == 0 && b.openedAt == None && b.probeSuccesses == 0 && b.transitionCount == 0
    && s.calls == map[]
  }

  /** What the constructor makes is fresh and has the configuration it was given. */
  lemma FreshIsInit(config: Config, now: real)
    ensures Init(System(Fresh(config), now, map[])) && Fresh(config).config == config
  {
  }

  /** The system after the first i actions of `run`. */
  function At(s: System, run: seq<Action>, i: nat): System
    requires i <= |run|
  {
    if i == 0 then s else Step(At(s, run, i - 1), run[i - 1])
  }

  ghost predicate Runs(s: System, run: seq<Action>) {
    forall i {:trigger run[i]} :: 0 <= i < |run| ==> Enabled(At(s, run, i), run[i])
  }

  /** Action i of the run moves the breaker into OPEN. */
  predicate Opens(s: System, run: seq<Action>, i: nat)
    requires i < |run|
  {
    At(s, run, i).breaker.state != OPEN && At(s, run, i + 1).breaker.state == OPEN
  }

  // ---------------------------------------------------------------- cooldown safety

  lemma StepBasics(s: System, a: Action)
    requires Enabled(s, a)
    ensures Step(s, a).clock >= s.clock && Step(s, a).breaker.config == s.breaker.config
  {
  }

  /** An OPEN breaker changes only when its cooldown is over. */
  lemma StepWhileOpen(s: System, a: Action)
    requires s.breaker.state == OPEN
    ensures Step(s, a).breaker == s.breaker || CooledDown(s.breaker, s.clock)
  {
  }

  /** A step that opens the breaker notes the time. */
  lemma StepOpens(s: System, a: Action)
    requires s.breaker.state != OPEN && Step(s, a).breaker.state == OPEN
    ensures Step(s, a).breaker.openedAt == Some(s.clock)
  {
  }

  lemma {:induction false} ClockAndConfig(s: System, run: seq<Action>, i: nat, j: nat)
    requires Runs(s, run) && i <= j <= |run|
    ensures At(s, run, i).clock <= At(s, run, j).clock
    ensures At(s, run, j).breaker.config == At(s, run, i).breaker.config
  {
    hide Enabled, Step;
    if i < j {
      ClockAndConfig(s, run, i, j - 1);
      assert Enabled(At(s, run, j - 1), run[j - 1]);
      StepBasics(At(s, run, j - 1), run[j - 1]);
    }
  }

  /** Once action i has opened the circuit, it stays OPEN until its cooldown is over. */
  lemma {:induction false} StaysOpenWhileCooling(s: System, run: seq<Action>, i: nat, j: nat)
    requires Runs(s, run) && i < j <= |run| && Opens(s, run, i)
    ensures
      || At(s, run, j).clock >= At(s, run, i).clock + s.breaker.config.cooldown
      || (At(s, run, j).breaker.state == OPEN && At(s, run, j).breaker.openedAt == Some(At(s, run, i).clock))
    decreases j
  {
    hide Enabled, Step, Runs;
    var before := At(s, run, j - 1);
    ClockAndConfig(s, run, 0, j - 1);
    ClockAndConfig(s, run, j - 1, j);
    assert At(s, run, j) == Step(before, run[j - 1]);
    if j == i + 1 {
      StepOpens(before, run[j - 1]);
    } else {
      StaysOpenWhileCooling(s, run, i, j - 1);
      if before.breaker.state == OPEN { StepWhileOpen(before, run[j - 1]); }
    }
  }

  /** No `fn` is dispatched between a step that opens the circuit and the end of that cooldown,
      however the calls interleave. */
  lemma NoDispatchWhileCooling(s: System, run: seq<Action>, i: nat, j: nat)
    requires Runs(s, run) && i < j < |run|
    ensures Opens(s, run, i) && run[j].Dispatch? ==> At(s, run, j).clock >= At(s, run, i).clock + s.breaker.config.cooldown
  {
    hide Step;
    if Opens(s, run, i) {
      StaysOpenWhileCooling(s, run, i, j);
      assert Enabled(At(s, run, j), run[j]);
    }
  }

  /** The clock readings at which the first n actions opened the circuit, in order. */
  function Openings(s: System, run: seq<Action>, n: nat): seq<real>
    requires n <= |run|
  {
    if n == 0 then []
    else Openings(s, run, n - 1) + if Opens(s, run, n - 1) then [At(s, run, n - 1).clock] else []
  }

  lemma {:induction false} LastOpening(s: System, run: seq<Action>, n: nat) returns (i: nat)
    requires n <= |run| && Openings(s, run, n) != []
    ensures i < n && Opens(s, run, i)
    ensures Openings(s, run, n)[|Openings(s, run, n)| - 1] == At(s, run, i).clock
  {
    if Opens(s, run, n - 1) {
      i := n - 1;
    } else {
      i := LastOpening(s, run, n - 1);
    }
  }

  predicate Spaced(ts: seq<real>, gap: real) {
    forall k {:trigger ts[k]} :: 0 < k < |ts| ==> ts[k] >= ts[k - 1] + gap
  }

  /** Successive openings are at least a cooldown apart. */
  lemma {:induction false} OpeningsSpaced(s: System, run: seq<Action>, n: nat)
    requires Runs(s, run) && n <= |run|
    ensures Spaced(Openings(s, run, n), s.breaker.config.cooldown)
  {
    hide At, Runs, Opens, Enabled, Step;
    if n > 0 {
      OpeningsSpaced(s, run, n - 1);
      var before := Openings(s, run, n - 1);
      if Opens(s, run, n - 1) && before != [] {
        var i := LastOpening(s, run, n - 1);
        SecondOpening(s, run, i, n - 1);
      }
    }
  }

  lemma SecondOpening(s: System, run: seq<Action>, i: nat, j: nat)
    requires Runs(s, run) && i < j < |run| && Opens(s, run, i) && Opens(s, run, j)
    ensures At(s, run, j).clock >= At(s, run, i).clock + s.breaker.config.cooldown
  {
    StaysOpenWhileCooling(s, run, i, j);
  }

  /** Hence opening number k comes at least k cooldowns after the first one. */
  lemma {:induction false} KthOpening(s: System, run: seq<Action>, n: nat, k: nat)
    requires Runs(s, run) && n <= |run| && k < |Openings(s, run, n)|
    ensures Openings(s, run, n)[k] >= Openings(s, run, n)[0] + k as real * s.breaker.config.cooldown
    decreases k
  {
    hide Openings, Runs;
    if k > 0 {
      KthOpening(s, run, n, k - 1);
      OpeningsSpaced(s, run, n);
      assert k as real * s.breaker.config.cooldown == (k - 1) as real * s.breaker.config.cooldown + s.breaker.config.cooldown;
    }
  }

  // ---------------------------------------------------------------- the state invariant

  /** What has happened so far: trips CLOSED to OPEN, HALF_OPEN to OPEN, HALF_OPEN to CLOSED, and
      recorded failures; and, read off the recorded outcomes alone, the failures in a row while CLOSED
      and the successes since the breaker last became HALF_OPEN. */
  datatype Tally = Tally(trips: nat, reopens: nat, closes: nat, failures: nat, streak: nat, probes: nat)

  const NOTHING_YET := Tally(0, 0, 0, 0, 0, 0)

  predicate RecordsFailure(a: Action) {
    a.ReportFailure? || (a.Complete? && !a.ok)
  }

  predicate RecordsSuccess(a: Action) {
    a.ReportSuccess? || (a.Complete? && a.ok)
  }

  function Count(t: Tally, from: CircuitState, to: CircuitState, a: Action): Tally {
    Tally(
      t.trips + if from == CLOSED && to == OPEN then 1 else 0,
      t.reopens + if from == HALF_OPEN && to == OPEN then 1 else 0,
      t.closes + if from == HALF_OPEN && to == CLOSED then 1 else 0,
      t.failures + if RecordsFailure(a) then 1 else 0,
      if from != CLOSED || RecordsSuccess(a) then 0 else if RecordsFailure(a) then t.streak + 1 else t.streak,
      if from != HALF_OPEN then 0 else if RecordsSuccess(a) then t.probes + 1 else t.probes)
  }

  function TallyAt(s: System, run: seq<Action>, i: nat): Tally
    requires i <= |run|
  {
    if i == 0 then NOTHING_YET
    else Count(TallyAt(s, run, i - 1), At(s, run, i - 1).breaker.state, At(s, run, i).breaker.state, run[i - 1])
  }

  predicate Consistent(b: Breaker, t: Tally) {
    var threshold := b.config.failureThreshold;
    && (b.state == CLOSED ==> b.failureCount == t.streak < threshold && b.openedAt.None? && t.trips == t.closes)
    && (b.state != CLOSED ==> b.failureCount == threshold && b.openedAt.Some? && t.trips == t.closes + 1)
    && (b.state == HALF_OPEN ==> b.probeSuccesses == t.probes < b.config.probeCount)
    && b.transitionCount == t.trips + t.reopens
    // every trip took `threshold` failures, every reopening one more; the current count is on top
    && t.failures >= threshold * t.trips + t.reopens + (if b.state == CLOSED then t.streak else 0)
  }

  lemma StepKeepsConsistent(s: System, a: Action, t: Tally)
    requires s.breaker.config.failureThreshold >= 1 && s.breaker.config.probeCount >= 1
    requires Consistent(s.breaker, t)
    ensures Consistent(Step(s, a).breaker, Count(t, s.breaker.state, Step(s, a).breaker.state, a))
  {
    var threshold := s.breaker.config.failureThreshold;
    assert threshold * (t.trips + 1) == threshold * t.trips + threshold;
  }

  lemma FreshConsistent(s: System)
    requires Init(s) && s.breaker.config.failureThreshold >= 1
    ensures Consistent(s.breaker, NOTHING_YET)
  {
  }

  /** Every state of every run of a breaker with threshold and probe count at least 1 is consistent. */
  lemma {:induction false} AlwaysConsistent(s: System, run: seq<Action>, i: nat)
    requires Init(s) && Runs(s, run) && i <= |run|
    requires s.breaker.config.failureThreshold >= 1 && s.breaker.config.probeCount >= 1
    ensures Consistent(At(s, run, i).breaker, TallyAt(s, run, i))
  {
    hide Consistent, Count, Step, Enabled, Init;
    if i == 0 {
      FreshConsistent(s);
    } else {
      AlwaysConsistent(s, run, i - 1);
      ClockAndConfig(s, run, 0, i - 1);
      StepKeepsConsistent(At(s, run, i - 1), run[i - 1], TallyAt(s, run, i - 1));
    }
  }

  function LastOf(ts: seq<real>): real {
    if ts == [] then 0.0 else ts[|ts| - 1]
  }

  /** Unless CLOSED, the breaker remembers when it was last opened. */
  lemma {:induction false} OpenedAtIsLastOpening(s: System, run: seq<Action>, i: nat)
    requires Init(s) && i <= |run|
    ensures At(s, run, i).breaker.state != CLOSED ==>
      Openings(s, run, i) != [] && At(s, run, i).breaker.openedAt == Some(LastOf(Openings(s, run, i)))
  {
    if i > 0 { OpenedAtIsLastOpening(s, run, i - 1); }
  }

  /** When the state changes, in terms of recorded outcomes and the clock alone: CLOSED opens on the
      threshold-th failure in a row, HALF_OPEN opens on any failure and closes on the last required
      success since it became HALF_OPEN, OPEN becomes HALF_OPEN when a call enters after the cooldown,
      and there is no other change. */
  lemma ChangesExactlyWhen(s: System, run: seq<Action>, i: nat)
    requires Init(s) && Runs(s, run) && i < |run|
    requires s.breaker.config.failureThreshold >= 1 && s.breaker.config.probeCount >= 1
    ensures
      var b := At(s, run, i).breaker; var a := run[i]; var t := TallyAt(s, run, i);
      var to := At(s, run, i + 1).breaker.state;
      match b.state
      case CLOSED =>
        to == if RecordsFailure(a) && t.streak + 1 == b.config.failureThreshold then OPEN else CLOSED
      case HALF_OPEN =>
        to == if RecordsFailure(a) then OPEN
              else if RecordsSuccess(a) && t.probes + 1 == b.config.probeCount then CLOSED
              else HALF_OPEN
      case OPEN =>
        to == if a.Enter? && At(s, run, i).clock >= LastOf(Openings(s, run, i)) + b.config.cooldown then HALF_OPEN else OPEN
  {
    hide At, TallyAt, Count, Openings;
    AlwaysConsistent(s, run, i);
    ClockAndConfig(s, run, 0, i);
    OpenedAtIsLastOpening(s, run, i);
    assert At(s, run, i + 1) == Step(At(s, run, i), run[i]) by { Unfold(s, run, i); }
  }

  lemma Unfold(s: System, run: seq<Action>, i: nat)
    requires i < |run|
    ensures At(s, run, i + 1) == Step(At(s, run, i), run[i])
  {
  }

  /** Each transition was counted once: `_transition_count` is the number of openings, first trips and
      reopenings alike. So it is what the property's name says, the number of moves from CLOSED to OPEN,
      exactly while no probe has failed. */
  lemma {:induction false} TransitionsAreOpenings(s: System, run: seq<Action>, i: nat)
    requires Init(s) && i <= |run|
    ensures var count := At(s, run, i).breaker.transitionCount; var t := TallyAt(s, run, i);
      && count == |Openings(s, run, i)| == t.trips + t.reopens
      && (count == t.trips <==> t.reopens == 0)
  {
    hide Enabled;
    if i > 0 { TransitionsAreOpenings(s, run, i - 1); }
  }

  /** However many failures are reported at once, from CLOSED exactly one transition fires, as soon as
      the threshold is reached, and none before. */
  lemma {:induction false} SimultaneousFailures(s: System, n: nat)
    requires s.breaker.state == CLOSED && s.breaker.failureCount < s.breaker.config.failureThreshold
    ensures var run := seq(n, _ => ReportFailure);
      var b := At(s, run, n).breaker; var missing := s.breaker.config.failureThreshold - s.breaker.failureCount;
      && (n < missing ==> b == s.breaker.(failureCount := s.breaker.failureCount + n))
      && (n >= missing ==> b.state == OPEN && b.openedAt == Some(s.clock) && b.transitionCount == s.breaker.transitionCount + 1)
      && At(s, run, n).clock == s.clock && b.config == s.breaker.config
  {
    if n > 0 {
      SimultaneousFailures(s, n - 1);
      SamePrefix(s, seq(n, _ => ReportFailure), seq(n - 1, _ => ReportFailure), n - 1);
    }
  }

  lemma {:induction false} SamePrefix(s: System, run: seq<Action>, run': seq<Action>, n: nat)
    requires n <= |run| && n <= |run'| && run[..n] == run'[..n]
    ensures At(s, run, n) == At(s, run', n) && TallyAt(s, run, n) == TallyAt(s, run', n)
  {
    if n > 0 {
      assert run[..n - 1] == run[..n][..n - 1] && run'[..n - 1] == run'[..n][..n - 1];
      assert run[n - 1] == run[..n][n - 1] && run'[n - 1] == run'[..n][n - 1];
      SamePrefix(s, run, run', n - 1);
    }
  }

  // ---------------------------------------------------------------- prompt runs

  /** If action i enters a call, the next one rejects or dispatches it. */
  predicate FollowedUp(run: seq<Action>, i: nat)
    requires i < |run|
  {
    run[i].Enter? ==> i + 1 < |run| && (run[i + 1] == Reject(run[i].id) || run[i + 1] == Dispatch(run[i].id))
  }

  ghost predicate Prompt(run: seq<Action>) {
    forall i: nat :: i < |run| ==> FollowedUp(run, i)
  }

  lemma PromptAppend(a: seq<Action>, b: seq<Action>)
    requires Prompt(a) && Prompt(b)
    ensures Prompt(a + b)
  {
    forall i: nat | i < |a + b| ensures FollowedUp(a + b, i) {
      if i < |a| { assert FollowedUp(a, i); } else { assert FollowedUp(b, i - |a|); }
    }
  }

  /** In a prompt run the call that ends the cooldown is dispatched. */
  lemma CooldownEndsWithDispatch(s: System, run: seq<Action>, i: nat)
    requires Runs(s, run) && Prompt(run) && i < |run|
    requires At(s, run, i).breaker.state == OPEN && At(s, run, i + 1).breaker.state != OPEN
    ensures At(s, run, i + 1).breaker.state == HALF_OPEN
    ensures run[i].Enter? && i + 1 < |run| && run[i + 1] == Dispatch(run[i].id)
  {
    assert FollowedUp(run, i);
    assert Enabled(At(s, run, i), run[i]);
    if i + 1 < |run| { assert Enabled(At(s, run, i + 1), run[i + 1]); }
  }

  // ---------------------------------------------------------------- building runs

  /** A run followed by one enabled action is a run. */
  lemma Extend(s: System, first: seq<Action>, a: Action) returns (run: seq<Action>)
    requires Runs(s, first) && Enabled(At(s, first, |first|), a)
    ensures run == first + [a] && Runs(s, run)
    ensures At(s, run, |run|) == Step(At(s, first, |first|), a)
    ensures TallyAt(s, run, |run|) ==
      Count(TallyAt(s, first, |first|), At(s, first, |first|).breaker.state, At(s, run, |run|).breaker.state, a)
  {
    hide Enabled, Step, Count;
    var k := |first|;
    run := first + [a];
    forall i | 0 <= i <= k ensures At(s, run, i) == At(s, first, i) && TallyAt(s, run, i) == TallyAt(s, first, i) {
      assert run[..i] == first[..i];
      SamePrefix(s, run, first, i);
    }
    forall i | 0 <= i < |run| ensures Enabled(At(s, run, i), run[i]) {
      if i < k { assert run[i] == first[i]; }
    }
  }

  /** No call enters or is dispatched and no success is reported from outside. */
  predicate Passive(run: seq<Action>) {
    forall i :: 0 <= i < |run| ==> !run[i].Enter? && !run[i].Dispatch? && !run[i].ReportSuccess?
  }

  lemma PassivePrompt(first: seq<Action>, rest: seq<Action>)
    requires Prompt(first) && Passive(rest)
    ensures Prompt(first + rest)
  {
    PromptAppend(first, rest);
  }

  /** A call that is let through enters and is dispatched. */
  lemma LetIn(s: System, first: seq<Action>, id: nat) returns (run: seq<Action>)
    requires Runs(s, first) && Prompt(first)
    requires var here := At(s, first, |first|); id !in here.calls && !Rejects(here.breaker, here.clock)
    ensures run == first + [Enter(id), Dispatch(id)] && Runs(s, run) && Prompt(run)
    ensures var here := At(s, first, |first|);
      At(s, run, |run|) == System(MaybeHalfOpen(here.breaker, here.clock), here.clock, here.calls[id := InFn])
    ensures TallyAt(s, run, |run|).trips == TallyAt(s, first, |first|).trips
    ensures TallyAt(s, run, |run|).reopens == TallyAt(s, first, |first|).reopens
  {
    hide At, TallyAt, Runs;
    run := Extend(s, first, Enter(id));
    run := Extend(s, run, Dispatch(id));
    assert run == first + [Enter(id), Dispatch(id)];
    PromptAppend(first, [Enter(id), Dispatch(id)]);
  }

  /** Failure reports trip a CLOSED breaker. */
  lemma TripFrom(s: System, first: seq<Action>) returns (rest: seq<Action>)
    requires Runs(s, first) && At(s, first, |first|).breaker.state == CLOSED
    ensures Runs(s, first + rest) && Passive(rest)
    ensures var here := At(s, first, |first|); var there := At(s, first + rest, |first + rest|);
      && there.breaker.state == OPEN && there.breaker.openedAt == Some(there.clock)
      && there.breaker.config == here.breaker.config && there.calls == here.calls
      && var t := TallyAt(s, first + rest, |first + rest|);
         t.trips == TallyAt(s, first, |first|).trips + 1 && t.reopens == TallyAt(s, first, |first|).reopens
    decreases var b := At(s, first, |first|).breaker; b.config.failureThreshold - b.failureCount
  {
    hide At, TallyAt, Runs;
    var run := Extend(s, first, ReportFailure);
    if At(s, run, |run|).breaker.state == OPEN {
      rest := [ReportFailure];
    } else {
      var more := TripFrom(s, run);
      rest := [ReportFailure] + more;
      assert run + more == first + rest;
    }
  }

  /** Waiting ends the cooldown of a breaker just opened. */
  lemma WaitFrom(s: System, first: seq<Action>) returns (wait: Action)
    requires Runs(s, first)
    requires var here := At(s, first, |first|); here.breaker.state == OPEN && here.breaker.openedAt == Some(here.clock)
    ensures Runs(s, first + [wait]) && wait.Tick?
    ensures var here := At(s, first, |first|); var there := At(s, first + [wait], |first| + 1);
      there.breaker == here.breaker && there.calls == here.calls && CooledDown(there.breaker, there.clock)
    ensures var t := TallyAt(s, first, |first|); var t' := TallyAt(s, first + [wait], |first| + 1);
      t'.trips == t.trips && t'.reopens == t.reopens
  {
    hide At, TallyAt, Runs;
    var cooldown := At(s, first, |first|).breaker.config.cooldown;
    wait := Tick(if cooldown < 0.0 then 0.0 else cooldown);
    var run := Extend(s, first, wait);
  }

  /** From a fresh breaker to one that has just opened for the first time. */
  lemma FirstTrip(s: System) returns (run: seq<Action>)
    requires Init(s)
    ensures Runs(s, run) && Prompt(run)
    ensures var there := At(s, run, |run|);
      there.breaker.state == OPEN && there.breaker.openedAt == Some(there.clock) && there.calls == map[]
    ensures TallyAt(s, run, |run|).trips == 1 && TallyAt(s, run, |run|).reopens == 0
  {
    run := TripFrom(s, []);
    assert [] + run == run;
    PassivePrompt([], run);
  }

  /** Under every configuration, for every n there is a prompt run in which the circuit went from CLOSED to
      OPEN once while `_transition_count` is 1 + n. */
  lemma {:induction false} ReopensCounted(s: System, n: nat) returns (run: seq<Action>)
    requires Init(s)
    ensures Runs(s, run) && Prompt(run)
    ensures TallyAt(s, run, |run|).trips == 1 && At(s, run, |run|).breaker.transitionCount == 1 + n
    ensures var there := At(s, run, |run|);
      there.breaker.state == OPEN && there.breaker.openedAt == Some(there.clock) && there.calls == map[]
    ensures TallyAt(s, run, |run|).reopens == n
  {
    hide At, TallyAt, Runs, Openings, Prompt;
    if n == 0 {
      run := FirstTrip(s);
    } else {
      var first := ReopensCounted(s, n - 1);
      var wait := WaitFrom(s, first);
      PassivePrompt(first, [wait]);
      run := LetIn(s, first + [wait], 0);
      PassivePrompt(run, [Complete(0, false)]);
      run := Extend(s, run, Complete(0, false));
    }
    TransitionsAreOpenings(s, run, |run|);
  }

  // ---------------------------------------------------------------- HALF_OPEN is not one probe

  /** Calls 0 to n - 1, and no others, are inside `fn`. */
  ghost predicate AllInFn(s: System, n: nat) {
    && (forall id: nat {:trigger id in s.calls} :: id in s.calls <==> id < n)
    && (forall id: nat :: id in s.calls ==> s.calls[id] == InFn)
  }

  /** The module text promises one probe while HALF_OPEN. The code promises no bound under any
      configuration: for every n > 0 a fresh breaker has a prompt run that ends in HALF_OPEN with n calls
      inside `fn` at once. */
  lemma ProbesUnbounded(s: System, n: nat) returns (run: seq<Action>)
    requires Init(s) && n > 0
    ensures Runs(s, run) && Prompt(run)
    ensures At(s, run, |run|).breaker.state == HALF_OPEN
    ensures AllInFn(At(s, run, |run|), n)
  {
    var first := FirstTrip(s);
    var wait := WaitFrom(s, first);
    PassivePrompt(first, [wait]);
    run := ProbesFrom(s, first + [wait], n);
  }

  /** The same from any idle breaker whose cooldown is over. */
  lemma {:induction false} ProbesFrom(s: System, first: seq<Action>, n: nat) returns (run: seq<Action>)
    requires Runs(s, first) && Prompt(first) && n > 0
    requires var here := At(s, first, |first|);
      here.calls == map[] && here.breaker.state == OPEN && CooledDown(here.breaker, here.clock)
    ensures Runs(s, run) && Prompt(run)
    ensures At(s, run, |run|).breaker.state == HALF_OPEN
    ensures AllInFn(At(s, run, |run|), n)
  {
    hide At, Runs, TallyAt, Prompt;
    if n == 1 {
      run := LetIn(s, first, 0);
    } else {
      var before := ProbesFrom(s, first, n - 1);
      assert n - 1 !in At(s, before, |before|).calls;
      run := LetIn(s, before, n - 1);
    }
  }

  // ---------------------------------------------------------------- successes of calls from before the trip

  /** The calls inside `fn` that are not probes. */
  function Stale(s: System, probes: set<nat>): set<nat> {
    set id | id in s.calls && s.calls[id] == InFn && id !in probes
  }

  /** The probes so far: those given, and every call dispatched since. */
  function Probes(probes: set<nat>, run: seq<Action>, i: nat): set<nat>
    requires i <= |run|
  {
    if i == 0 then probes
    else Probes(probes, run, i - 1) + if run[i - 1].Dispatch? then {run[i - 1].id} else {}
  }

  /** No success is reported from outside, and no call that is a probe by then succeeds. */
  predicate NoProbeSucceeds(run: seq<Action>, probes: set<nat>) {
    forall i {:trigger run[i]} :: 0 <= i < |run| ==>
      !run[i].ReportSuccess? && (run[i].Complete? && run[i].ok ==> run[i].id !in Probes(probes, run, i))
  }

  /** How many successes a HALF_OPEN breaker still needs; the code always takes at least one. */
  function Needed(b: Breaker): int {
    MaxInt(1, b.config.probeCount - b.probeSuccesses)
  }

  /** What holds while no probe succeeds, if there were `left` stale calls at the start: every success counted
      was one of theirs. */
  predicate Bounded(s: System, probes: set<nat>, left: int) {
    && |Stale(s, probes)| <= left
    && (s.breaker.state == HALF_OPEN ==> s.breaker.probeSuccesses + |Stale(s, probes)| <= left)
    && (s.breaker.state == CLOSED ==> left >= MaxInt(1, s.breaker.config.probeCount))
  }

  lemma StaleShrinks(s: System, a: Action, probes: set<nat>, probes': set<nat>)
    requires Enabled(s, a) && probes' == probes + if a.Dispatch? then {a.id} else {}
    ensures Stale(Step(s, a), probes') ==
      if a.Complete? || a.Cancel? then Stale(s, probes) - {a.id} else Stale(s, probes)
    ensures a.Complete? && a.id !in probes ==> a.id in Stale(s, probes)
  {
    hide MaybeHalfOpen, OnSuccess, OnFailure;
    var before, after := Stale(s, probes), Stale(Step(s, a), probes');
    match a
    case Complete(id, _) => assert after == before - {id};
    case Cancel(id) => assert after == before - {id};
    case Enter(id) => assert after == before;
    case Reject(id) => assert after == before;
    case Dispatch(id) => assert after == before;
    case _ => assert after == before;
  }

  lemma StaleStep(s: System, a: Action, probes: set<nat>, probes': set<nat>)
    requires Enabled(s, a) && probes' == probes + if a.Dispatch? then {a.id} else {}
    ensures |Stale(Step(s, a), probes')| <= |Stale(s, probes)|
    ensures a.Complete? && a.id !in probes ==> |Stale(Step(s, a), probes')| == |Stale(s, probes)| - 1
  {
    hide Stale, Step, Enabled;
    StaleShrinks(s, a, probes, probes');
    Subset(Stale(Step(s, a), probes'), Stale(s, probes));
  }

  lemma {:induction false} Subset(a: set<nat>, b: set<nat>)
    requires a <= b
    ensures |a| <= |b|
  {
    if x :| x in a { Subset(a - {x}, b - {x}); }
  }

  lemma BoundedStep(s: System, a: Action, probes: set<nat>, probes': set<nat>, left: int)
    requires Enabled(s, a) && probes' == probes + if a.Dispatch? then {a.id} else {}
    requires !a.ReportSuccess? && (a.Complete? && a.ok ==> a.id !in probes)
    requires Bounded(s, probes, left)
    ensures Bounded(Step(s, a), probes', left)
  {
    hide Stale;
    StaleStep(s, a, probes, probes');
  }

  lemma {:induction false} BoundedRun(s: System, run: seq<Action>, i: nat, probes: set<nat>, left: int)
    requires Runs(s, run) && NoProbeSucceeds(run, probes) && i <= |run| && Bounded(s, probes, left)
    ensures Bounded(At(s, run, i), Probes(probes, run, i), left)
  {
    hide Bounded, Step, Enabled, Runs, NoProbeSucceeds;
    if i > 0 {
      BoundedRun(s, run, i - 1, probes, left);
      Instance(s, run, i - 1, probes);
      BoundedStep(At(s, run, i - 1), run[i - 1], Probes(probes, run, i - 1), Probes(probes, run, i), left);
    }
  }

  lemma Instance(s: System, run: seq<Action>, i: nat, probes: set<nat>)
    requires Runs(s, run) && NoProbeSucceeds(run, probes) && i < |run|
    ensures Enabled(At(s, run, i), run[i]) && !run[i].ReportSuccess?
    ensures run[i].Complete? && run[i].ok ==> run[i].id !in Probes(probes, run, i)
  {
    hide Enabled, Step;
    assert Enabled(At(s, run, i), run[i]);
  }

  /** All actions are successes of calls that are no probes. */
  predicate StaleSuccesses(run: seq<Action>, probes: set<nat>) {
    forall i :: 0 <= i < |run| ==> run[i].Complete? && run[i].ok && run[i].id !in probes
  }

  /** Stale calls close a HALF_OPEN breaker by succeeding, if there are enough of them. */
  lemma CompleteFrom(s: System, first: seq<Action>, probes: set<nat>) returns (rest: seq<Action>)
    requires Runs(s, first)
    requires var here := At(s, first, |first|);
      here.breaker.state == HALF_OPEN && |Stale(here, probes)| >= Needed(here.breaker)
    ensures Runs(s, first + rest) && StaleSuccesses(rest, probes)
    ensures At(s, first + rest, |first + rest|).breaker.state == CLOSED
    decreases |Stale(At(s, first, |first|), probes)|
  {
    hide At, Runs, Stale, TallyAt, Count;
    var here := At(s, first, |first|);
    var id := AnyStale(here, probes);
    var a := Complete(id, true);
    StaleStep(here, a, probes, probes);
    var run := Extend(s, first, a);
    if At(s, run, |run|).breaker.state == CLOSED {
      rest := [a];
    } else {
      var more := CompleteFrom(s, run, probes);
      rest := [a] + more;
      assert run + more == first + rest;
    }
  }

  lemma AnyStale(s: System, probes: set<nat>) returns (id: nat)
    requires |Stale(s, probes)| > 0
    ensures id in s.calls && s.calls[id] == InFn && id !in probes
  {
    id :| id in Stale(s, probes);
  }

  lemma {:induction false} SameProbes(run: seq<Action>, probes: set<nat>, i: nat)
    requires StaleSuccesses(run, probes) && i <= |run|
    ensures Probes(probes, run, i) == probes
  {
    if i > 0 { SameProbes(run, probes, i - 1); }
  }

  /** A prompt run that closes the circuit although no probe, neither a given one nor one dispatched in it,
      succeeds. */
  ghost predicate ClosesUnprobed(s: System, run: seq<Action>, probes: set<nat>) {
    Runs(s, run) && Prompt(run) && NoProbeSucceeds(run, probes) && At(s, run, |run|).breaker.state == CLOSED
  }

  predicate NoDispatch(run: seq<Action>) {
    forall i :: 0 <= i < |run| ==> !run[i].Dispatch?
  }

  /** Successes of calls that are no probes close a circuit that has just become HALF_OPEN, exactly when
      at least as many of them are inside `fn` as successes are required. Dispatching more probes makes no
      difference. */
  lemma ClosesUnprobedIff(s: System, probes: set<nat>)
    requires s.breaker.state == HALF_OPEN && s.breaker.probeSuccesses == 0
    ensures (exists run :: ClosesUnprobed(s, run, probes)) <==> |Stale(s, probes)| >= Needed(s.breaker)
    ensures (exists run :: ClosesUnprobed(s, run, probes) && NoDispatch(run)) <==> |Stale(s, probes)| >= Needed(s.breaker)
  {
    hide Stale, Step, Enabled, Prompt, NoProbeSucceeds;
    if |Stale(s, probes)| >= Needed(s.breaker) {
      assert At(s, [], 0) == s;
      var run := CompleteFrom(s, [], probes);
      assert [] + run == run;
      StaleSuccessesUnprobed(run, probes);
      assert ClosesUnprobed(s, run, probes) && NoDispatch(run);
    }
    if run :| ClosesUnprobed(s, run, probes) {
      BoundedRun(s, run, |run|, probes, |Stale(s, probes)|);
      ClockAndConfig(s, run, 0, |run|);
    }
  }

  lemma StaleSuccessesUnprobed(run: seq<Action>, probes: set<nat>)
    requires StaleSuccesses(run, probes)
    ensures Prompt(run) && NoProbeSucceeds(run, probes) && Passive(run)
  {
    forall i | 0 <= i < |run| ensures Probes(probes, run, i) == probes { SameProbes(run, probes, i); }
  }

  /** Under every configuration a fresh breaker has such a run: after i actions it is OPEN, from then on
      only call p is dispatched, p does not succeed, and it ends CLOSED. */
  lemma FreshClosesUnprobed(s: System) returns (run: seq<Action>, i: nat, p: nat)
    requires Init(s)
    ensures Runs(s, run) && Prompt(run) && i <= |run|
    ensures At(s, run, i).breaker.state == OPEN && At(s, run, |run|).breaker.state == CLOSED
    ensures forall j :: i <= j < |run| && run[j].Dispatch? ==> run[j] == Dispatch(p)
    ensures forall j :: i <= j < |run| ==> !run[j].ReportSuccess? && run[j] != Complete(p, true)
  {
    hide At, Runs, TallyAt, Stale, Prompt, StaleSuccesses;
    p := MaxInt(1, s.breaker.config.probeCount);
    var calls := EnterMany(s, p);
    var trip := TripFrom(s, calls);
    PassivePrompt(calls, trip);
    var tripped := calls + trip;
    i := |tripped|;
    var half := ProbeAfterTrip(s, tripped, p);
    var rest := CompleteFrom(s, half, {p});
    StaleSuccessesUnprobed(rest, {p});
    PassivePrompt(half, rest);
    run := half + rest;
    assert run[..i] == tripped[..i];
    SamePrefix(s, run, tripped, i);
    OnlyProbe(run, half[i..], rest, i, p);
  }

  lemma OnlyProbe(run: seq<Action>, middle: seq<Action>, rest: seq<Action>, i: nat, p: nat)
    requires i <= |run| && run[i..] == middle + rest && StaleSuccesses(rest, {p})
    requires |middle| == 3 && middle[0].Tick? && middle[1..] == [Enter(p), Dispatch(p)]
    ensures forall j :: i <= j < |run| && run[j].Dispatch? ==> run[j] == Dispatch(p)
    ensures forall j :: i <= j < |run| ==> !run[j].ReportSuccess? && run[j] != Complete(p, true)
  {
    assert middle[1] == Enter(p) && middle[2] == Dispatch(p);
    forall j | i <= j < |run|
      ensures run[j].Dispatch? ==> run[j] == Dispatch(p)
      ensures !run[j].ReportSuccess? && run[j] != Complete(p, true)
    {
      assert run[j] == (middle + rest)[j - i];
    }
  }

  /** The cooldown over, call p is let in as a probe. */
  lemma ProbeAfterTrip(s: System, tripped: seq<Action>, p: nat) returns (half: seq<Action>)
    requires Runs(s, tripped) && Prompt(tripped) && AllInFn(At(s, tripped, |tripped|), p)
    requires var there := At(s, tripped, |tripped|);
      there.breaker.state == OPEN && there.breaker.openedAt == Some(there.clock)
    ensures |half| == |tripped| + 3 && half[..|tripped|] == tripped
    ensures half[|tripped|].Tick? && half[|tripped| + 1..] == [Enter(p), Dispatch(p)]
    ensures Runs(s, half) && Prompt(half)
    ensures var here := At(s, half, |half|);
      && here.breaker.state == HALF_OPEN && here.breaker.probeSuccesses == 0
      && here.breaker.config == At(s, tripped, |tripped|).breaker.config
      && |Stale(here, {p})| == p
  {
    hide At, Runs, TallyAt, Stale, Prompt;
    var wait := WaitFrom(s, tripped);
    PassivePrompt(tripped, [wait]);
    assert p !in At(s, tripped, |tripped|).calls;
    half := LetIn(s, tripped + [wait], p);
    AllStale(At(s, tripped, |tripped|), At(s, half, |half|), p);
  }

  function Below(n: nat): (ids: set<nat>)
    ensures |ids| == n && forall id: nat :: id in ids <==> id < n
  {
    if n == 0 then {} else Below(n - 1) + {n - 1}
  }

  lemma AllStale(s: System, s': System, n: nat)
    requires AllInFn(s, n) && s'.calls == s.calls[n := InFn]
    ensures |Stale(s', {n})| == n
  {
    assert Stale(s', {n}) == Below(n);
  }

  /** n calls enter a fresh breaker and none has returned. */
  lemma {:induction false} EnterMany(s: System, n: nat) returns (run: seq<Action>)
    requires Init(s)
    ensures Runs(s, run) && Prompt(run)
    ensures At(s, run, |run|).breaker == s.breaker && AllInFn(At(s, run, |run|), n)
  {
    if n == 0 {
      run := [];
    } else {
      var first := EnterMany(s, n - 1);
      run := EnterOne(s, first, n - 1);
    }
  }

  lemma EnterOne(s: System, first: seq<Action>, id: nat) returns (run: seq<Action>)
    requires Runs(s, first) && Prompt(first)
    requires AllInFn(At(s, first, |first|), id) && At(s, first, |first|).breaker.state == CLOSED
    ensures Runs(s, run) && Prompt(run) && At(s, run, |run|).breaker == At(s, first, |first|).breaker
    ensures AllInFn(At(s, run, |run|), id + 1)
  {
    hide At, Runs, TallyAt, Prompt;
    assert id !in At(s, first, |first|).calls;
    run := LetIn(s, first, id);
  }

  // ---------------------------------------------------------------- the object as one schedule

  /** A call that nobody interrupts, from entry to exit. */
  function Uninterrupted(b: Breaker, now: real, id: nat, dt: real, ok: bool): seq<Action> {
    if Rejects(b, now) then [Enter(id), Reject(id)] else [Enter(id), Dispatch(id), Tick(dt), Complete(id, ok)]
  }

  /** It is a prompt run, and leaves the breaker as the method `CircuitBreaker.Call` does. */
  lemma CallIsRun(s: System, id: nat, dt: real, ok: bool)
    requires id !in s.calls && dt >= 0.0
    ensures var run := Uninterrupted(s.breaker, s.clock, id, dt, ok);
      && Runs(s, run) && Prompt(run)
      && At(s, run, |run|).breaker ==
           if CoolingDown(s.breaker, s.clock) then s.breaker
           else if ok then OnSuccess(MaybeHalfOpen(s.breaker, s.clock))
           else OnFailure(MaybeHalfOpen(s.breaker, s.clock), s.clock + dt)
  {
    hide OnFailure, OnSuccess;
    var run := Uninterrupted(s.breaker, s.clock, id, dt, ok);
    ReportsOpenIffRejects(s.breaker, s.clock);
    var s1 := Step(s, run[0]);
    assert At(s, run, 0) == s;
    assert At(s, run, 1) == s1;
    assert At(s, run, 2) == Step(s1, run[1]);
    if !Rejects(s.breaker, s.clock) {
      assert At(s, run, 3) == Step(At(s, run, 2), run[2]);
      assert At(s, run, 4) == Step(At(s, run, 3), run[3]);
    }
  }
}
