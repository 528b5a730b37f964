/** Circuit-aware model selection, `routing/router.py`. */
module Router {
  import opened Prelude
  import opened CircuitBreaker
  import opened StableSort
  import opened Scorer

  datatype Complexity = LOW | MEDIUM | HIGH

  datatype RoutingDecision = RoutingDecision(selectedRole: string, estimatedCost: real, complexity: Complexity)

  datatype RoutingError = ModelUnavailableError

  type Breakers = map<string, Breaker>

  function ClassifyComplexity(tokens: int): Complexity {
    if tokens < 500 then LOW else if tokens < 2000 then MEDIUM else HIGH
  }

  function RoleFor(c: Complexity): string {
    match c
    case LOW => "fast"
    case MEDIUM => "default"
    case HIGH => "reasoning"
  }

  predicate IsCircuitOpen(breakers: Breakers, role: string, now: real) {
    role in breakers && breakers[role].state == OPEN && ReportsOpen(breakers[role], now)
  }

  predicate Usable(m: ModelMetadata, breakers: Breakers, now: real) {
    m.isAvailable && !IsCircuitOpen(breakers, m.role, now)
  }

  function UsableModels(catalog: seq<ModelMetadata>, breakers: Breakers, now: real): seq<ModelMetadata> {
    if catalog == [] then []
    else (if Usable(catalog[0], breakers, now) then [catalog[0]] else []) + UsableModels(catalog[1..], breakers, now)
  }

  /** The first model with the role, if any. */
  function FirstWithRole(models: seq<ModelMetadata>, role: string): Option<ModelMetadata> {
    if models == [] then None
    else if models[0].role == role then Some(models[0])
    else FirstWithRole(models[1..], role)
  }

  function Choose(usable: seq<ModelMetadata>, complexity: Complexity, policy: RoutingPolicy): Option<ModelMetadata> {
    var preferred := FirstWithRole(usable, RoleFor(complexity));
    if preferred.Some? && complexity != MEDIUM then preferred
    else
      var ranked := Rank(usable, policy);
      if ranked == [] then None else Some(ranked[0])
  }

  /** At least a hundredth of a cent. */
  function EstimatedCost(tokens: int, m: ModelMetadata): real {
    var cost := tokens as real / 1000.0 * m.cost;
    if cost < 0.0001 then 0.0001 else cost
  }

  function Select(catalog: seq<ModelMetadata>, breakers: Breakers, now: real, tokens: int, policy: RoutingPolicy)
    : Result<RoutingDecision, RoutingError>
  {
    var complexity := ClassifyComplexity(tokens);
    match Choose(UsableModels(catalog, breakers, now), complexity, policy)
    case None => Err(ModelUnavailableError)
    case Some(best) =>
      Ok(RoutingDecision(best.role, EstimatedCost(tokens, best), complexity))
  }

  // ---------------------------------------------------------------- circuits

  /** A role is skipped exactly when `call` on its breaker at that instant would be rejected, except
      for a breaker opened at clock value 0.0 whose cooldown is over: it is skipped for ever. */
  lemma SkippedIffCallRejects(breakers: Breakers, role: string, now: real)
    requires role in breakers
    ensures var b := breakers[role];
      && (Rejects(b, now) ==> IsCircuitOpen(breakers, role, now))
      && ((IsCircuitOpen(breakers, role, now) <==> Rejects(b, now)) <==>
            !(b.state == OPEN && b.openedAt == Some(0.0) && now >= b.config.cooldown))
  {
    ReportsOpenIffRejects(breakers[role], now);
  }

  // ---------------------------------------------------------------- the catalogue filter

  /** Position k of the filtered catalogue comes from a usable entry i, and every usable entry before
      i comes earlier in the filtered catalogue. */
  lemma {:induction false} UsableOrigin(catalog: seq<ModelMetadata>, breakers: Breakers, now: real, k: nat) returns (i: nat)
    requires k < |UsableModels(catalog, breakers, now)|
    ensures i < |catalog| && Usable(catalog[i], breakers, now) && catalog[i] == UsableModels(catalog, breakers, now)[k]
    ensures forall j :: 0 <= j < i && Usable(catalog[j], breakers, now) ==> catalog[j] in UsableModels(catalog, breakers, now)[..k]
  {
    hide Usable;
    var head := if Usable(catalog[0], breakers, now) then [catalog[0]] else [];
    var rest := UsableModels(catalog[1..], breakers, now);
    assert UsableModels(catalog, breakers, now) == head + rest;
    if k < |head| {
      i := 0;
    } else {
      var i' := UsableOrigin(catalog[1..], breakers, now, k - |head|);
      i := i' + 1;
      PrefixAppend(head, rest, k);
      forall j | 0 <= j < i && Usable(catalog[j], breakers, now) ensures catalog[j] in (head + rest)[..k] {
        if j > 0 { assert catalog[j] == catalog[1..][j - 1]; }
      }
    }
  }

  lemma PrefixAppend(head: seq<ModelMetadata>, rest: seq<ModelMetadata>, k: nat)
    requires |head| <= k <= |head + rest|
    ensures (head + rest)[..k] == head + rest[..k - |head|]
  {
  }

  lemma {:induction false} UsableKept(catalog: seq<ModelMetadata>, breakers: Breakers, now: real, j: nat)
    requires j < |catalog| && Usable(catalog[j], breakers, now)
    ensures catalog[j] in UsableModels(catalog, breakers, now)
  {
    if j > 0 {
      assert catalog[j] == catalog[1..][j - 1];
      UsableKept(catalog[1..], breakers, now, j - 1);
    }
  }

  lemma {:induction false} UsableAreAvailable(catalog: seq<ModelMetadata>, breakers: Breakers, now: real)
    ensures OnlyAvailable(UsableModels(catalog, breakers, now)) == UsableModels(catalog, breakers, now)
  {
    if catalog != [] {
      UsableAreAvailable(catalog[1..], breakers, now);
      var rest := UsableModels(catalog[1..], breakers, now);
      if Usable(catalog[0], breakers, now) {
        assert ([catalog[0]] + rest)[1..] == rest;
      } else {
        assert [] + rest == rest;
      }
    }
  }

  lemma {:induction false} FirstWithRoleIndex(models: seq<ModelMetadata>, role: string) returns (k: nat)
    ensures FirstWithRole(models, role).Some? ==>
      k < |models| && models[k] == FirstWithRole(models, role).value && models[k].role == role
      && forall m :: 0 <= m < k ==> models[m].role != role
    ensures FirstWithRole(models, role).None? ==> forall m :: 0 <= m < |models| ==> models[m].role != role
  {
    if models == [] || models[0].role == role {
      k := 0;
    } else {
      var k' := FirstWithRoleIndex(models[1..], role);
      k := k' + 1;
      forall m | 0 <= m < |models| && (m < k || FirstWithRole(models, role).None?) ensures models[m].role != role {
        if m > 0 { assert models[m] == models[1..][m - 1]; }
      }
    }
  }

  // ---------------------------------------------------------------- selection

  /** `select` raises exactly when every catalogue entry is unavailable or behind an open circuit. */
  lemma SelectRaisesIff(catalog: seq<ModelMetadata>, breakers: Breakers, now: real, tokens: int, policy: RoutingPolicy)
    ensures Select(catalog, breakers, now, tokens, policy).Err? <==> forall j :: 0 <= j < |catalog| ==> !Usable(catalog[j], breakers, now)
  {
    hide Usable, UsableModels, Sort, SortedBy, SameByKey, EstimatedCost, ClassifyComplexity;
    var usable := UsableModels(catalog, breakers, now);
    UsableAreAvailable(catalog, breakers, now);
    SortIsStable(usable, RankKey(policy));
    if usable != [] {
      var i := UsableOrigin(catalog, breakers, now, 0);
    } else {
      forall j | 0 <= j < |catalog| ensures !Usable(catalog[j], breakers, now) {
        if Usable(catalog[j], breakers, now) { UsableKept(catalog, breakers, now, j); }
      }
    }
  }

  /** The entry of the catalogue that a decision stands for. On a LOW or HIGH request it is the first
      usable entry with the matching role, if there is one. In every other case it is, among the
      usable entries, the first with the highest score. */
  ghost predicate BestEntry(
    catalog: seq<ModelMetadata>, breakers: Breakers, now: real, complexity: Complexity, policy: RoutingPolicy, i: nat)
  {
    && i < |catalog| && Usable(catalog[i], breakers, now)
    && if complexity != MEDIUM &&
          exists j :: 0 <= j < |catalog| && Usable(catalog[j], breakers, now) && catalog[j].role == RoleFor(complexity) then
         && catalog[i].role == RoleFor(complexity)
         && forall j :: 0 <= j < i && Usable(catalog[j], breakers, now) ==> catalog[j].role != RoleFor(complexity)
       else
         && (forall j :: 0 <= j < |catalog| && Usable(catalog[j], breakers, now) ==> Score(catalog[j], policy) <= Score(catalog[i], policy))
         && (forall j :: 0 <= j < i && Usable(catalog[j], breakers, now) ==> Score(catalog[j], policy) < Score(catalog[i], policy))
  }

  /** What the decision says about its entry: it is available, its role is not cooling down, and the cost is
      that of the tokens, but at least a hundredth of a cent. */
  predicate DecidedFor(d: RoutingDecision, m: ModelMetadata, breakers: Breakers, now: real, tokens: int) {
    && d.selectedRole == m.role && m.isAvailable
    && (m.role in breakers ==> !CoolingDown(breakers[m.role], now))
    && 1000.0 * d.estimatedCost == (if tokens as real * m.cost < 0.1 then 0.1 else tokens as real * m.cost)
  }

  lemma SelectPicksBest(
    catalog: seq<ModelMetadata>, breakers: Breakers, now: real, tokens: int, policy: RoutingPolicy) returns (i: nat)
    requires Select(catalog, breakers, now, tokens, policy).Ok?
    ensures BestEntry(catalog, breakers, now, ClassifyComplexity(tokens), policy, i)
    ensures var d := Select(catalog, breakers, now, tokens, policy).value;
      && d.selectedRole == catalog[i].role
      && d.complexity == ClassifyComplexity(tokens)
      && DecidedFor(d, catalog[i], breakers, now, tokens)
  {
    hide EstimatedCost, DecidedFor;
    i := BestIndex(catalog, breakers, now, tokens, policy);
    hide BestEntry;
    BestEntryUsable(catalog, breakers, now, ClassifyComplexity(tokens), policy, i);
    DecisionFor(catalog[i], breakers, now, tokens);
  }

  lemma BestEntryUsable(
    catalog: seq<ModelMetadata>, breakers: Breakers, now: real, complexity: Complexity, policy: RoutingPolicy, i: nat)
    requires BestEntry(catalog, breakers, now, complexity, policy, i)
    ensures i < |catalog| && Usable(catalog[i], breakers, now)
  {
  }

  lemma DecisionFor(m: ModelMetadata, breakers: Breakers, now: real, tokens: int)
    requires Usable(m, breakers, now)
    ensures DecidedFor(RoutingDecision(m.role, EstimatedCost(tokens, m), ClassifyComplexity(tokens)), m, breakers, now, tokens)
  {
    assert 1000.0 * (tokens as real / 1000.0 * m.cost) == tokens as real * m.cost;
    if m.role in breakers { ReportsOpenIffRejects(breakers[m.role], now); }
  }

  lemma BestIndex(
    catalog: seq<ModelMetadata>, breakers: Breakers, now: real, tokens: int, policy: RoutingPolicy) returns (i: nat)
    requires Select(catalog, breakers, now, tokens, policy).Ok?
    ensures BestEntry(catalog, breakers, now, ClassifyComplexity(tokens), policy, i)
    ensures Select(catalog, breakers, now, tokens, policy).value ==
      RoutingDecision(catalog[i].role, EstimatedCost(tokens, catalog[i]), ClassifyComplexity(tokens))
  {
    hide EstimatedCost, ClassifyComplexity, Usable, UsableModels, Sort, Score, BestEntry;
    var usable := UsableModels(catalog, breakers, now);
    var complexity := ClassifyComplexity(tokens);
    if FirstWithRole(usable, RoleFor(complexity)).Some? && complexity != MEDIUM {
      i := PreferredIndex(catalog, breakers, now, complexity, policy);
    } else {
      i := RankedIndex(catalog, breakers, now, complexity, policy);
    }
  }

  lemma PreferredIndex(catalog: seq<ModelMetadata>, breakers: Breakers, now: real, complexity: Complexity, policy: RoutingPolicy)
    returns (i: nat)
    requires complexity != MEDIUM
    requires FirstWithRole(UsableModels(catalog, breakers, now), RoleFor(complexity)).Some?
    ensures BestEntry(catalog, breakers, now, complexity, policy, i)
    ensures catalog[i] == FirstWithRole(UsableModels(catalog, breakers, now), RoleFor(complexity)).value
  {
    hide Usable, UsableModels, Score;
    var usable := UsableModels(catalog, breakers, now);
    var k := FirstWithRoleIndex(usable, RoleFor(complexity));
    i := UsableOrigin(catalog, breakers, now, k);
  }

  lemma RankedIndex(catalog: seq<ModelMetadata>, breakers: Breakers, now: real, complexity: Complexity, policy: RoutingPolicy)
    returns (i: nat)
    requires FirstWithRole(UsableModels(catalog, breakers, now), RoleFor(complexity)).None? || complexity == MEDIUM
    requires Rank(UsableModels(catalog, breakers, now), policy) != []
    ensures BestEntry(catalog, breakers, now, complexity, policy, i)
    ensures catalog[i] == Rank(UsableModels(catalog, breakers, now), policy)[0]
  {
    hide Usable, UsableModels, Score, Sort;
    var usable := UsableModels(catalog, breakers, now);
    var k := FirstWithRoleIndex(usable, RoleFor(complexity));
    forall j | 0 <= j < |catalog| && Usable(catalog[j], breakers, now) ensures catalog[j] in usable {
      UsableKept(catalog, breakers, now, j);
    }
    UsableAreAvailable(catalog, breakers, now);
    var key := RankKey(policy);
    assert usable != [] by { SortIsStable(usable, key); }
    k := HeadIsFirstMinimum(usable, key);
    i := UsableOrigin(catalog, breakers, now, k);
    forall j | 0 <= j < |catalog| && Usable(catalog[j], breakers, now) ensures Score(catalog[j], policy) <= Score(catalog[i], policy) {
      assert key(catalog[i]) <= key(catalog[j]);
    }
    forall j | 0 <= j < i && Usable(catalog[j], breakers, now) ensures Score(catalog[j], policy) < Score(catalog[i], policy) {
      assert key(catalog[i]) < key(catalog[j]);
    }
  }

  /** `select` never returns a role whose breaker is cooling down: the very next `call` on it, at the
      same instant, is let through. */
  lemma SelectedIsCallable(catalog: seq<ModelMetadata>, breakers: Breakers, now: real, tokens: int, policy: RoutingPolicy)
    requires Select(catalog, breakers, now, tokens, policy).Ok?
    ensures var role := Select(catalog, breakers, now, tokens, policy).value.selectedRole;
      role in breakers ==> !CoolingDown(breakers[role], now) && !Rejects(breakers[role], now)
  {
    var i := SelectPicksBest(catalog, breakers, now, tokens, policy);
    if catalog[i].role in breakers { ReportsOpenIffRejects(breakers[catalog[i].role], now); }
  }

  /** On the ranked path no usable model that dominates the selected one has strictly better quality,
      when quality counts and neither is free. */
  lemma SelectedNotBeaten(
    catalog: seq<ModelMetadata>, breakers: Breakers, now: real, complexity: Complexity, policy: RoutingPolicy,
    i: nat, j: nat)
    requires NonNegative(policy) && policy.qualityWeight > 0.0 && i < |catalog| && j < |catalog|
    ensures
      && BestEntry(catalog, breakers, now, complexity, policy, i)
      && (complexity == MEDIUM || NoneWithRole(catalog, breakers, now, RoleFor(complexity)))
      && Usable(catalog[j], breakers, now) && Dominates(catalog[j], catalog[i]) && !FreeLoses(catalog[j], catalog[i])
      ==> catalog[j].quality == catalog[i].quality
  {
    if Dominates(catalog[j], catalog[i]) && !FreeLoses(catalog[j], catalog[i]) {
      DominatorScores(catalog[j], catalog[i], policy);
    }
  }

  /** The size of a request decides: fewer than 500 tokens go to "fast" and 2000 or more to "reasoning" when
      such a model is usable; every other request goes to the first best score. */
  lemma SizeDecides(catalog: seq<ModelMetadata>, breakers: Breakers, now: real, tokens: int, policy: RoutingPolicy) returns (i: nat)
    requires Select(catalog, breakers, now, tokens, policy).Ok?
    ensures var role := Select(catalog, breakers, now, tokens, policy).value.selectedRole;
      && (tokens < 500 && !NoneWithRole(catalog, breakers, now, "fast") ==> role == "fast")
      && (tokens >= 2000 && !NoneWithRole(catalog, breakers, now, "reasoning") ==> role == "reasoning")
      && i < |catalog| && role == catalog[i].role
      && (ByScore(catalog, breakers, now, tokens) ==> FirstBestScore(catalog, breakers, now, policy, i))
  {
    i := SelectPicksBest(catalog, breakers, now, tokens, policy);
  }

  /** The request is neither small nor large, or no usable model has its role. */
  predicate ByScore(catalog: seq<ModelMetadata>, breakers: Breakers, now: real, tokens: int) {
    && (tokens < 500 ==> NoneWithRole(catalog, breakers, now, "fast"))
    && (tokens >= 2000 ==> NoneWithRole(catalog, breakers, now, "reasoning"))
  }

  /** Entry i is usable, no usable one scores higher, and none before it as high. */
  ghost predicate FirstBestScore(catalog: seq<ModelMetadata>, breakers: Breakers, now: real, policy: RoutingPolicy, i: nat) {
    && i < |catalog| && Usable(catalog[i], breakers, now)
    && (forall j :: 0 <= j < |catalog| && Usable(catalog[j], breakers, now) ==> Score(catalog[j], policy) <= Score(catalog[i], policy))
    && (forall j :: 0 <= j < i && Usable(catalog[j], breakers, now) ==> Score(catalog[j], policy) < Score(catalog[i], policy))
  }

  /** Entry i has the least value among the usable ones, and none before it as little. */
  ghost predicate FirstLeast(
    catalog: seq<ModelMetadata>, breakers: Breakers, now: real, value: ModelMetadata -> real, i: nat)
  {
    && i < |catalog| && Usable(catalog[i], breakers, now)
    && (forall j :: 0 <= j < |catalog| && Usable(catalog[j], breakers, now) ==> value(catalog[j]) >= value(catalog[i]))
    && (forall j :: 0 <= j < i && Usable(catalog[j], breakers, now) ==> value(catalog[j]) > value(catalog[i]))
  }

  /** When only one criterion counts, a request decided by score goes to the first usable model of the best
      quality, of the lowest cost, or of the lowest latency, up to the thresholds of the scores. */
  lemma OneCriterionDecides(catalog: seq<ModelMetadata>, breakers: Breakers, now: real, tokens: int) returns (q: nat, c: nat, l: nat)
    requires ByScore(catalog, breakers, now, tokens)
    requires exists j :: 0 <= j < |catalog| && Usable(catalog[j], breakers, now)
    ensures FirstLeast(catalog, breakers, now, (m: ModelMetadata) => -m.quality, q)
    ensures Select(catalog, breakers, now, tokens, QUALITY_ONLY).Ok?
         && Select(catalog, breakers, now, tokens, QUALITY_ONLY).value.selectedRole == catalog[q].role
    ensures FirstLeast(catalog, breakers, now, (m: ModelMetadata) => ChargedCost(m), c)
    ensures Select(catalog, breakers, now, tokens, COST_ONLY).Ok?
         && Select(catalog, breakers, now, tokens, COST_ONLY).value.selectedRole == catalog[c].role
    ensures FirstLeast(catalog, breakers, now, (m: ModelMetadata) => ChargedLatency(m), l)
    ensures Select(catalog, breakers, now, tokens, LATENCY_ONLY).Ok?
         && Select(catalog, breakers, now, tokens, LATENCY_ONLY).value.selectedRole == catalog[l].role
  {
    hide Select, Usable, FirstLeast, ByScore, Score, ChargedCost, ChargedLatency;
    forall a: ModelMetadata, b: ModelMetadata | a.isAvailable && b.isAvailable
      ensures Score(a, QUALITY_ONLY) >= Score(b, QUALITY_ONLY) <==> a.quality >= b.quality
      ensures Score(a, COST_ONLY) >= Score(b, COST_ONLY) <==> ChargedCost(a) <= ChargedCost(b)
      ensures Score(a, LATENCY_ONLY) >= Score(b, LATENCY_ONLY) <==> ChargedLatency(a) <= ChargedLatency(b)
    {
      OneCriterionOrder(a, b);
    }
    q := CriterionDecides(catalog, breakers, now, tokens, QUALITY_ONLY, (m: ModelMetadata) => -m.quality);
    c := CriterionDecides(catalog, breakers, now, tokens, COST_ONLY, (m: ModelMetadata) => ChargedCost(m));
    l := CriterionDecides(catalog, breakers, now, tokens, LATENCY_ONLY, (m: ModelMetadata) => ChargedLatency(m));
  }

  lemma CriterionDecides(catalog: seq<ModelMetadata>, breakers: Breakers, now: real, tokens: int, policy: RoutingPolicy,
                         value: ModelMetadata -> real) returns (i: nat)
    requires ByScore(catalog, breakers, now, tokens)
    requires exists j :: 0 <= j < |catalog| && Usable(catalog[j], breakers, now)
    requires forall a: ModelMetadata, b: ModelMetadata :: a.isAvailable && b.isAvailable ==>
      (Score(a, policy) >= Score(b, policy) <==> value(a) <= value(b))
    ensures FirstLeast(catalog, breakers, now, value, i)
    ensures Select(catalog, breakers, now, tokens, policy).Ok?
         && Select(catalog, breakers, now, tokens, policy).value.selectedRole == catalog[i].role
  {
    hide Select, Usable, FirstBestScore, ByScore, Score;
    SelectRaisesIff(catalog, breakers, now, tokens, policy);
    i := SizeDecides(catalog, breakers, now, tokens, policy);
    BestIsLeast(catalog, breakers, now, policy, value, i);
  }

  lemma BestIsLeast(catalog: seq<ModelMetadata>, breakers: Breakers, now: real, policy: RoutingPolicy,
                    value: ModelMetadata -> real, i: nat)
    requires FirstBestScore(catalog, breakers, now, policy, i)
    requires forall a: ModelMetadata, b: ModelMetadata :: a.isAvailable && b.isAvailable ==>
      (Score(a, policy) >= Score(b, policy) <==> value(a) <= value(b))
    ensures FirstLeast(catalog, breakers, now, value, i)
  {
    hide IsCircuitOpen, Score;
    forall j | 0 <= j < |catalog| && Usable(catalog[j], breakers, now)
      ensures value(catalog[j]) >= value(catalog[i])
      ensures j < i ==> value(catalog[j]) > value(catalog[i])
    {
      assert Score(catalog[i], policy) >= Score(catalog[j], policy);
      assert j < i ==> !(Score(catalog[j], policy) >= Score(catalog[i], policy));
    }
  }

  predicate NoneWithRole(catalog: seq<ModelMetadata>, breakers: Breakers, now: real, role: string) {
    forall k :: 0 <= k < |catalog| && Usable(catalog[k], breakers, now) ==> catalog[k].role != role
  }

  function WithoutRole(catalog: seq<ModelMetadata>, role: string): seq<ModelMetadata> {
    if catalog == [] then []
    else (if catalog[0].role == role then [] else [catalog[0]]) + WithoutRole(catalog[1..], role)
  }

  /** Falling back: with a role's circuit open, `select` decides as if the role were not in the
      catalogue at all. */
  lemma OpenCircuitRemovesRole(
    catalog: seq<ModelMetadata>, breakers: Breakers, now: real, tokens: int, policy: RoutingPolicy, role: string)
    requires IsCircuitOpen(breakers, role, now)
    ensures Select(catalog, breakers, now, tokens, policy) == Select(WithoutRole(catalog, role), breakers, now, tokens, policy)
  {
    WithoutRoleUsable(catalog, breakers, now, role);
  }

  lemma {:induction false} WithoutRoleUsable(catalog: seq<ModelMetadata>, breakers: Breakers, now: real, role: string)
    requires IsCircuitOpen(breakers, role, now)
    ensures UsableModels(WithoutRole(catalog, role), breakers, now) == UsableModels(catalog, breakers, now)
  {
    if catalog != [] {
      WithoutRoleUsable(catalog[1..], breakers, now, role);
      var rest := WithoutRole(catalog[1..], role);
      if catalog[0].role != role {
        assert ([catalog[0]] + rest)[1..] == rest;
      } else {
        assert [] + rest == rest;
      }
    }
  }
}
