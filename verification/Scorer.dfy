/** Policy-weighted model scores, `routing/scorer.py` and the weights of `routing/policies.py`. */
module Scorer {
  import opened Prelude
  import opened StableSort

  datatype ModelMetadata = ModelMetadata(role: string, quality: real, cost: real, latency: real, isAvailable: bool)

  datatype RoutingPolicy = RoutingPolicy(qualityWeight: real, costWeight: real, latencyWeight: real)

  function CostNorm(cost: real): real {
    var costScore := if cost > 0.0 then 1.0 / cost else 1.0;
    MinReal(costScore / 100.0, 1.0)
  }

  function LatencyNorm(latency: real): real {
    var latencyScore := if latency > 0.0 then 1.0 / latency else 1.0;
    MinReal(latencyScore / 0.01, 1.0)
  }

  /** One dimension's contribution to a score. */
  function Term(norm: real, weight: real): real {
    norm * weight
  }

  function Weighted(m: ModelMetadata, p: RoutingPolicy): real {
    Term(m.quality, p.qualityWeight) + Term(CostNorm(m.cost), p.costWeight) + Term(LatencyNorm(m.latency), p.latencyWeight)
  }

  function Score(m: ModelMetadata, p: RoutingPolicy): real {
    if !m.isAvailable then -1.0 else Weighted(m, p)
  }

  /** The sort key of `rank`: descending score. */
  function RankKey(p: RoutingPolicy): ModelMetadata -> real {
    m => -Score(m, p)
  }

  function OnlyAvailable(models: seq<ModelMetadata>): seq<ModelMetadata> {
    if models == [] then []
    else (if models[0].isAvailable then [models[0]] else []) + OnlyAvailable(models[1..])
  }

  function Rank(models: seq<ModelMetadata>, p: RoutingPolicy): seq<ModelMetadata> {
    Sort(OnlyAvailable(models), RankKey(p))
  }

  predicate NonNegative(p: RoutingPolicy) {
    p.qualityWeight >= 0.0 && p.costWeight >= 0.0 && p.latencyWeight >= 0.0
  }

  /** `a` is at least as good as `b` in quality, cost and latency. */
  predicate Dominates(a: ModelMetadata, b: ModelMetadata) {
    && a.isAvailable && b.isAvailable
    && a.quality >= b.quality && a.cost <= b.cost && a.latency <= b.latency
  }

  /** A free model is scored as if it cost one dollar per thousand tokens, so it loses to a paid model
      cheaper than that. */
  predicate FreeLoses(a: ModelMetadata, b: ModelMetadata) {
    a.cost <= 0.0 < b.cost < 1.0
  }

  lemma InverseAntitone(x: real, y: real)
    requires 0.0 < x <= y
    ensures 1.0 / y <= 1.0 / x
  {
    assert x * (1.0 / x) == 1.0 && y * (1.0 / y) == 1.0;
    var d := 1.0 / x - 1.0 / y;
    assert d * (x * y) == y - x;
    assert x * y > 0.0;
    if d < 0.0 { assert d * (x * y) < 0.0; }
  }

  lemma CostNormAntitone(c: real, d: real)
    requires c <= d
    ensures CostNorm(c) >= CostNorm(d) <==> !(c <= 0.0 < d < 1.0)
  {
    if c > 0.0 {
      InverseAntitone(c, d);
    } else if d > 0.0 {
      if d >= 1.0 { InverseAntitone(1.0, d); }
      else { InverseStrict(d); }
    }
  }

  lemma InverseStrict(d: real)
    requires 0.0 < d < 1.0
    ensures 1.0 / d > 1.0
  {
    InverseAntitone(d, 1.0);
    assert d * (1.0 / d) == 1.0;
  }

  lemma LatencyNormAntitone(l: real, m: real)
    requires l <= m
    ensures LatencyNorm(l) >= LatencyNorm(m)
  {
    if l > 0.0 { InverseAntitone(l, m); }
  }

  lemma TermMonotone(x: real, y: real, w: real)
    requires x >= y && w >= 0.0
    ensures Term(x, w) >= Term(y, w)
    ensures x > y && w > 0.0 ==> Term(x, w) > Term(y, w)
  {
    var d := x - y;
    assert d * w == Term(x, w) - Term(y, w);
    assert d * w >= 0.0;
    if d > 0.0 && w > 0.0 { assert d * w > 0.0; }
  }

  /** A dominating model never scores lower, and scores higher when its quality is higher and counts. */
  lemma DominatorScores(a: ModelMetadata, b: ModelMetadata, p: RoutingPolicy)
    requires Dominates(a, b) && NonNegative(p) && !FreeLoses(a, b)
    ensures Score(a, p) >= Score(b, p)
    ensures a.quality > b.quality && p.qualityWeight > 0.0 ==> Score(a, p) > Score(b, p)
  {
    CostNormAntitone(a.cost, b.cost);
    LatencyNormAntitone(a.latency, b.latency);
    hide CostNorm, LatencyNorm, Term;
    TermMonotone(a.quality, b.quality, p.qualityWeight);
    TermMonotone(CostNorm(a.cost), CostNorm(b.cost), p.costWeight);
    TermMonotone(LatencyNorm(a.latency), LatencyNorm(b.latency), p.latencyWeight);
  }

  /** Scoring respects dominance under every policy exactly when it is not a free model against one
      cheaper than a dollar. */
  lemma DominanceRespectedIff(a: ModelMetadata, b: ModelMetadata)
    requires Dominates(a, b)
    ensures (forall p: RoutingPolicy :: NonNegative(p) ==> Score(a, p) >= Score(b, p)) <==> !FreeLoses(a, b)
  {
    if FreeLoses(a, b) {
      var costOnly := RoutingPolicy(0.0, 1.0, 0.0);
      CostNormAntitone(a.cost, b.cost);
      assert Score(a, costOnly) == CostNorm(a.cost) && Score(b, costOnly) == CostNorm(b.cost);
      assert NonNegative(costOnly) && Score(a, costOnly) < Score(b, costOnly);
    } else {
      forall p: RoutingPolicy | NonNegative(p) ensures Score(a, p) >= Score(b, p) {
        DominatorScores(a, b, p);
      }
    }
  }

  // ---------------------------------------------------------------- what each weight does

  /** What a model costs as far as its score can tell: everything up to a cent is a cent, and free is a
      dollar. */
  function ChargedCost(m: ModelMetadata): real {
    if m.cost <= 0.0 then 1.0 else if m.cost < 0.01 then 0.01 else m.cost
  }

  /** Everything up to 100 ms is 100 ms. */
  function ChargedLatency(m: ModelMetadata): real {
    if m.latency < 100.0 then 100.0 else m.latency
  }

  lemma ShareOf(x: real, least: real, share: real)
    requires x >= least > 0.0 && share == MinReal(least * (1.0 / x), 1.0)
    ensures 0.0 < share <= 1.0 && share * x == least
  {
    var inv := 1.0 / x;
    assert inv * x == 1.0;
    assert (least * inv) * x == least * (inv * x) == least;
    LeastShare(x, least);
    assert share == least * inv;
  }

  lemma LeastShare(x: real, least: real)
    requires x >= least > 0.0
    ensures 0.0 < least * (1.0 / x) <= 1.0
  {
    InverseAntitone(least, x);
    var inv, d := 1.0 / x, 1.0 / least - 1.0 / x;
    assert inv > 0.0 && least * (1.0 / least) == 1.0;
    assert least * d == 1.0 - least * inv;
    assert least * d >= 0.0 && least * inv > 0.0;
  }

  lemma CostShare(m: ModelMetadata)
    ensures 0.0 < CostNorm(m.cost) <= 1.0 && CostNorm(m.cost) * ChargedCost(m) == 0.01
  {
    if m.cost >= 0.01 {
      assert (1.0 / m.cost) / 100.0 == 0.01 * (1.0 / m.cost);
      ShareOf(m.cost, 0.01, CostNorm(m.cost));
    } else if m.cost > 0.0 {
      InverseAntitone(m.cost, 0.01);
      assert 1.0 / 0.01 == 100.0;
    }
  }

  lemma LatencyShare(m: ModelMetadata)
    ensures 0.0 < LatencyNorm(m.latency) <= 1.0 && LatencyNorm(m.latency) * ChargedLatency(m) == 100.0
  {
    if m.latency >= 100.0 {
      assert (1.0 / m.latency) / 0.01 == 100.0 * (1.0 / m.latency);
      ShareOf(m.latency, 100.0, LatencyNorm(m.latency));
    } else if m.latency > 0.0 {
      InverseAntitone(m.latency, 100.0);
      assert 1.0 / 100.0 == 0.01;
    }
  }

  const QUALITY_ONLY := RoutingPolicy(1.0, 0.0, 0.0)
  const COST_ONLY := RoutingPolicy(0.0, 1.0, 0.0)
  const LATENCY_ONLY := RoutingPolicy(0.0, 0.0, 1.0)

  /** The score is linear in the policy: each weight multiplies the score under that criterion alone. */
  lemma ScoreIsLinear(m: ModelMetadata, p: RoutingPolicy)
    requires m.isAvailable
    ensures Score(m, p) == Score(m, QUALITY_ONLY) * p.qualityWeight
                         + Score(m, COST_ONLY) * p.costWeight
                         + Score(m, LATENCY_ONLY) * p.latencyWeight
  {
    hide CostNorm, LatencyNorm;
  }

  /** The score under each criterion alone: quality itself; and inversely proportional to cost and latency,
      with full marks at a cent and at 100 ms. */
  lemma ScoreUnderOne(m: ModelMetadata)
    requires m.isAvailable
    ensures Score(m, QUALITY_ONLY) == m.quality
    ensures Score(m, COST_ONLY) * ChargedCost(m) == 0.01
    ensures Score(m, LATENCY_ONLY) * ChargedLatency(m) == 100.0
  {
    CostShare(m);
    LatencyShare(m);
    hide CostNorm, LatencyNorm, ChargedCost, ChargedLatency;
    UnderOne(m);
  }

  lemma UnderOne(m: ModelMetadata)
    requires m.isAvailable
    ensures Score(m, QUALITY_ONLY) == m.quality
    ensures Score(m, COST_ONLY) == CostNorm(m.cost) && Score(m, LATENCY_ONLY) == LatencyNorm(m.latency)
  {
    hide CostNorm, LatencyNorm;
  }

  /** An unavailable model scores below every available one. */
  lemma UnavailableScoresLowest(m: ModelMetadata, other: ModelMetadata, p: RoutingPolicy)
    requires !m.isAvailable && other.isAvailable && other.quality >= 0.0 && NonNegative(p)
    ensures Score(m, p) == -1.0 && Score(other, p) >= 0.0
  {
    CostShare(other);
    LatencyShare(other);
    hide CostNorm, LatencyNorm, Term, ChargedCost, ChargedLatency;
    TermMonotone(other.quality, 0.0, p.qualityWeight);
    TermMonotone(CostNorm(other.cost), 0.0, p.costWeight);
    TermMonotone(LatencyNorm(other.latency), 0.0, p.latencyWeight);
    ZeroTerms(p);
  }

  lemma ZeroTerms(p: RoutingPolicy)
    ensures Term(0.0, p.qualityWeight) == Term(0.0, p.costWeight) == Term(0.0, p.latencyWeight) == 0.0
  {
  }

  lemma InverseOrder(x: real, a: real, y: real, b: real, k: real)
    requires a > 0.0 && b > 0.0 && k > 0.0 && x * a == k && y * b == k
    ensures x >= y <==> a <= b
  {
    NonNegativeFactor(b, y);
    assert (x - y) * a == y * (b - a);
    if a <= b {
      NonNegativeProduct(y, b - a);
      NonNegativeFactor(a, x - y);
    } else {
      NonNegativeProduct(y, a - b);
      assert (y - x) * a == y * (a - b);
      NonNegativeFactor(a, y - x);
      NonZeroProduct(y, a - b);
    }
  }

  lemma NonNegativeProduct(x: real, y: real)
    requires x >= 0.0 && y >= 0.0
    ensures x * y >= 0.0
  {
  }

  lemma NonZeroProduct(x: real, y: real)
    requires x != 0.0 && y > 0.0
    ensures x * y != 0.0
  {
    if x > 0.0 { assert x * y > 0.0; } else { assert x * y < 0.0; }
  }

  /** So when only one criterion counts, a model scores at least as high as another exactly when it is at
      least as good in that criterion, up to the thresholds. */
  lemma OneCriterionOrder(a: ModelMetadata, b: ModelMetadata)
    requires a.isAvailable && b.isAvailable
    ensures Score(a, QUALITY_ONLY) >= Score(b, QUALITY_ONLY) <==> a.quality >= b.quality
    ensures Score(a, COST_ONLY) >= Score(b, COST_ONLY) <==> ChargedCost(a) <= ChargedCost(b)
    ensures Score(a, LATENCY_ONLY) >= Score(b, LATENCY_ONLY) <==> ChargedLatency(a) <= ChargedLatency(b)
  {
    hide Score;
    ScoreUnderOne(a);
    ScoreUnderOne(b);
    InverseOrder(Score(a, COST_ONLY), ChargedCost(a), Score(b, COST_ONLY), ChargedCost(b), 0.01);
    InverseOrder(Score(a, LATENCY_ONLY), ChargedLatency(a), Score(b, LATENCY_ONLY), ChargedLatency(b), 100.0);
  }

  /** `rank` loses no available model, keeps no other, and puts better scores first, ties in catalogue
      order. */
  lemma RankIsStable(models: seq<ModelMetadata>, p: RoutingPolicy)
    ensures IsStableSort(OnlyAvailable(models), Rank(models, p), RankKey(p))
    ensures multiset(Rank(models, p)) == multiset(OnlyAvailable(models))
    ensures forall i, j :: 0 <= i < j < |Rank(models, p)| ==> Score(Rank(models, p)[i], p) >= Score(Rank(models, p)[j], p)
  {
    var key := RankKey(p);
    SortIsStable(OnlyAvailable(models), key);
    var ranked := Rank(models, p);
    forall i, j | 0 <= i < j < |ranked| ensures Score(ranked[i], p) >= Score(ranked[j], p) {
      assert key(ranked[i]) <= key(ranked[j]);
    }
  }
}
