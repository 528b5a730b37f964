/** The router over breakers that live through arbitrary interleaved runs. */
module RoutingSafety {
  import opened CircuitBreaker
  import opened BreakerProtocol
  import opened Scorer
  import opened Router

  /** Once any step of any run has opened a role's circuit, `select` does not return that role until the
      cooldown of that opening is over. */
  lemma OpenedRoleNotSelected(s: System, run: seq<Action>, i: nat, j: nat,
                              catalog: seq<ModelMetadata>, breakers: Breakers, role: string, tokens: int, policy: RoutingPolicy)
    requires Runs(s, run) && i < j <= |run| && Opens(s, run, i)
    requires role in breakers && breakers[role] == At(s, run, j).breaker
    requires At(s, run, j).clock < At(s, run, i).clock + s.breaker.config.cooldown
    ensures var r := Select(catalog, breakers, At(s, run, j).clock, tokens, policy);
      r.Ok? ==> r.value.selectedRole != role
  {
    hide Select;
    StaysOpenWhileCooling(s, run, i, j);
    ClockAndConfig(s, run, 0, j);
    var now := At(s, run, j).clock;
    if Select(catalog, breakers, now, tokens, policy).Ok? {
      SelectedIsCallable(catalog, breakers, now, tokens, policy);
    }
  }
}
