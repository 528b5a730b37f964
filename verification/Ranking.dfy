/** Cosine ranking, `context/ranking.py`, over exact reals. The Euclidean norm of the array library is
    a parameter known only by what a norm is. */
module Ranking {
  import opened Prelude
  import opened StableSort
  import opened Reals

  type Vector = seq<real>

  /** A candidate chunk; a missing embedding is None. */
  datatype Candidate = Candidate(content: string, embedding: Option<Vector>, metadata: map<string, string>)

  datatype RankedChunk = RankedChunk(content: string, score: real, metadata: map<string, string>)

  datatype RankError = ShapeMismatch(expected: nat, actual: nat)

  function Dot(u: Vector, v: Vector): real
    requires |u| == |v|
  {
    if u == [] then 0.0 else Mul(u[0], v[0]) + Dot(u[1..], v[1..])
  }

  /** `np.linalg.norm`: the non-negative root of v . v. */
  ghost predicate IsNorm(norm: Vector -> real) {
    forall v: Vector :: norm(v) >= 0.0 && Mul(norm(v), norm(v)) == Dot(v, v)
  }

  function Over(v: Vector, n: real): (w: Vector)
    requires n != 0.0
    ensures |w| == |v|
  {
    if v == [] then [] else [Ratio(v[0], n)] + Over(v[1..], n)
  }

  /** Cosine similarity of two vectors of non-zero norm. */
  function Cosine(norm: Vector -> real, q: Vector, v: Vector): real
    requires |q| == |v| && norm(q) != 0.0 && norm(v) != 0.0
  {
    Dot(Over(q, norm(q)), Over(v, norm(v)))
  }

  /** The score of one candidate against a query of non-zero norm. */
  function Score(norm: Vector -> real, q: Vector, c: Candidate): Result<real, RankError>
    requires norm(q) != 0.0
  {
    match c.embedding
    case None => Ok(0.0)
    case Some(v) =>
      if norm(v) == 0.0 then Ok(0.0)
      else if |v| != |q| then Err(ShapeMismatch(|q|, |v|))
      else Ok(Cosine(norm, q, v))
  }

  function WithScore(c: Candidate, score: real): RankedChunk {
    RankedChunk(c.content, score, c.metadata)
  }

  /** All candidates with their scores, in order, or the first shape error. */
  function ScoreAll(norm: Vector -> real, q: Vector, cs: seq<Candidate>): Result<seq<RankedChunk>, RankError>
    requires norm(q) != 0.0
  {
    if cs == [] then Ok([])
    else
      match ScoreAll(norm, q, cs[..|cs| - 1])
      case Err(e) => Err(e)
      case Ok(before) =>
        match Score(norm, q, cs[|cs| - 1])
        case Err(e) => Err(e)
        case Ok(score) => Ok(before + [WithScore(cs[|cs| - 1], score)])
  }

  function Unscored(cs: seq<Candidate>): seq<RankedChunk> {
    seq(|cs|, i requires 0 <= i < |cs| => WithScore(cs[i], 0.0))
  }

  function Descending(): RankedChunk -> real {
    (c: RankedChunk) => -c.score
  }

  /** `rank`, with Python's meaning of `[:top_k]` for every top_k. */
  function Ranked(norm: Vector -> real, q: Vector, cs: seq<Candidate>, topK: int): Result<seq<RankedChunk>, RankError> {
    if cs == [] then Ok([])
    else if norm(q) == 0.0 then Ok(Unscored(Slice(cs, 0, topK)))
    else
      match ScoreAll(norm, q, cs)
      case Err(e) => Err(e)
      case Ok(scored) => Ok(Slice(Sort(scored, Descending()), 0, topK))
  }

  method Rank(norm: Vector -> real, q: Vector, cs: seq<Candidate>, topK: int) returns (r: Result<seq<RankedChunk>, RankError>)
    ensures r == Ranked(norm, q, cs, topK)
  {
    if cs == [] { return Ok([]); }
    if norm(q) == 0.0 { return Ok(Unscored(Slice(cs, 0, topK))); }
    var scored: seq<RankedChunk> := [];
    assert cs[..|cs|] == cs;
    for i := 0 to |cs|
      invariant ScoreAll(norm, q, cs[..i]) == Ok(scored)
    {
      assert cs[..i + 1][..i] == cs[..i];
      var score := Score(norm, q, cs[i]);
      if score.Err? {
        ErrorSticks(norm, q, cs, i + 1);
        return Err(score.error);
      }
      scored := scored + [WithScore(cs[i], score.value)];
    }
    scored := Sort(scored, Descending());
    return Ok(Slice(scored, 0, topK));
  }

  lemma {:induction false} ErrorSticks(norm: Vector -> real, q: Vector, cs: seq<Candidate>, n: nat)
    requires norm(q) != 0.0 && n <= |cs| && ScoreAll(norm, q, cs[..n]).Err?
    ensures ScoreAll(norm, q, cs) == ScoreAll(norm, q, cs[..n])
    decreases |cs|
  {
    if n == |cs| {
      assert cs[..n] == cs;
    } else {
      assert cs[..|cs| - 1][..n] == cs[..n];
      ErrorSticks(norm, q, cs[..|cs| - 1], n);
    }
  }

  // ---------------------------------------------------------------- cosines lie in [-1, 1]

  lemma {:induction false} DotBounds(u: Vector, v: Vector)
    requires |u| == |v|
    ensures -(Dot(u, u) + Dot(v, v)) <= 2.0 * Dot(u, v) <= Dot(u, u) + Dot(v, v)
  {
    hide Mul;
    if u != [] {
      DotBounds(u[1..], v[1..]);
      TwiceProduct(u[0], v[0]);
    }
  }

  /** Dividing the vectors by m and n divides their product by m * n. */
  lemma {:induction false} DotOver(u: Vector, m: real, v: Vector, n: real)
    requires |u| == |v| && m != 0.0 && n != 0.0
    ensures Mul(Mul(m, n), Dot(Over(u, m), Over(v, n))) == Dot(u, v)
  {
    hide Mul, Ratio;
    if u == [] {
      MulAdd(Mul(m, n), 0.0, 0.0);
    } else {
      DotOver(u[1..], m, v[1..], n);
      var a, b := Over(u[1..], m), Over(v[1..], n);
      var x, y := Ratio(u[0], m), Ratio(v[0], n);
      assert Over(u, m) == [x] + a && Over(v, n) == [y] + b;
      assert Dot(Over(u, m), Over(v, n)) == Mul(x, y) + Dot(a, b);
      RatioTimes(u[0], m);
      RatioTimes(v[0], n);
      MulMixed(m, n, x, y);
      MulAdd(Mul(m, n), Mul(x, y), Dot(a, b));
    }
  }

  lemma UnitLength(norm: Vector -> real, v: Vector)
    requires IsNorm(norm) && norm(v) != 0.0
    ensures Dot(Over(v, norm(v)), Over(v, norm(v))) == 1.0
  {
    hide Dot, Over, Mul;
    var n := norm(v);
    var square := Mul(n, n);
    Square(n);
    DotOver(v, n, v, n);
    MulAdd(square, 1.0, 0.0);
    SameFactor(square, Dot(Over(v, n), Over(v, n)), 1.0);
  }

  /** Every score lies in [-1, 1]. */
  lemma ScoreInRange(norm: Vector -> real, q: Vector, c: Candidate)
    requires IsNorm(norm) && norm(q) != 0.0 && Score(norm, q, c).Ok?
    ensures -1.0 <= Score(norm, q, c).value <= 1.0
  {
    hide Dot, Over;
    match c.embedding
    case None =>
    case Some(v) =>
      if norm(v) != 0.0 {
        DotBounds(Over(q, norm(q)), Over(v, norm(v)));
        UnitLength(norm, q);
        UnitLength(norm, v);
      }
  }

  // ---------------------------------------------------------------- scale invariance

  function Scale(k: real, v: Vector): (w: Vector)
    ensures |w| == |v|
  {
    if v == [] then [] else [Mul(k, v[0])] + Scale(k, v[1..])
  }

  lemma {:induction false} DotScale(k: real, v: Vector)
    ensures Dot(Scale(k, v), Scale(k, v)) == Mul(Mul(k, k), Dot(v, v))
  {
    hide Mul;
    var kk := Mul(k, k);
    if v == [] {
      MulAdd(kk, 0.0, 0.0);
    } else {
      DotScale(k, v[1..]);
      var tail := Scale(k, v[1..]);
      assert Scale(k, v) == [Mul(k, v[0])] + tail;
      MulMixed(k, v[0], k, v[0]);
      MulAdd(kk, Mul(v[0], v[0]), Dot(v[1..], v[1..]));
    }
  }

  lemma NormScales(norm: Vector -> real, k: real, v: Vector)
    requires IsNorm(norm) && k > 0.0
    ensures norm(Scale(k, v)) == Mul(k, norm(v))
  {
    hide Dot, Scale, Mul;
    var n := norm(v);
    DotScale(k, v);
    MulMixed(k, n, k, n);
    MulSign(k, n);
    SameRoot(norm(Scale(k, v)), Mul(k, n));
  }

  lemma UnitScales(norm: Vector -> real, k: real, v: Vector)
    requires IsNorm(norm) && k > 0.0
    ensures norm(Scale(k, v)) == 0.0 <==> norm(v) == 0.0
    ensures norm(v) != 0.0 ==> Over(Scale(k, v), norm(Scale(k, v))) == Over(v, norm(v))
  {
    hide Over, Scale, Mul;
    NormScales(norm, k, v);
    MulAdd(k, 0.0, 0.0);
    if norm(v) != 0.0 {
      NonZeroMul(k, norm(v));
      OverScales(k, v, norm(v), norm(Scale(k, v)));
    }
  }

  lemma {:induction false} OverScales(k: real, v: Vector, n: real, m: real)
    requires k > 0.0 && n != 0.0 && m == Mul(k, n) && m != 0.0
    ensures Over(Scale(k, v), m) == Over(v, n)
  {
    hide Mul, Ratio;
    if v != [] {
      OverScales(k, v[1..], n, m);
      CancelFactor(k, v[0], n, m);
      assert Scale(k, v) == [Mul(k, v[0])] + Scale(k, v[1..]);
    }
  }

  lemma CancelFactor(k: real, x: real, n: real, m: real)
    requires k > 0.0 && n != 0.0 && m == Mul(k, n) && m != 0.0
    ensures Ratio(Mul(k, x), m) == Ratio(x, n)
  {
    hide Mul, Ratio;
    var p, r := Ratio(x, n), Ratio(Mul(k, x), m);
    RatioTimes(x, n);
    RatioTimes(Mul(k, x), m);
    MulMixed(k, n, p, 0.0);
    SameFactor(m, r, p);
  }

  /** `d` is `c` with its embedding, if any, scaled by k. */
  function Rescaled(c: Candidate, k: real): Candidate {
    match c.embedding
    case None => c
    case Some(v) => c.(embedding := Some(Scale(k, v)))
  }

  function RescaledAll(cs: seq<Candidate>, ks: seq<real>): (ds: seq<Candidate>)
    requires |cs| == |ks|
    ensures |ds| == |cs|
  {
    seq(|cs|, i requires 0 <= i < |cs| => Rescaled(cs[i], ks[i]))
  }

  lemma ScoreScales(norm: Vector -> real, q: Vector, c: Candidate, kq: real, kc: real)
    requires IsNorm(norm) && norm(q) != 0.0 && kq > 0.0 && kc > 0.0 && norm(Scale(kq, q)) != 0.0
    ensures Score(norm, Scale(kq, q), Rescaled(c, kc)) == Score(norm, q, c)
  {
    hide Dot, Over, Scale, IsNorm;
    UnitScales(norm, kq, q);
    match c.embedding
    case None =>
    case Some(v) => UnitScales(norm, kc, v);
  }

  lemma {:induction false} ScoreAllScales(norm: Vector -> real, q: Vector, cs: seq<Candidate>, kq: real, ks: seq<real>)
    requires IsNorm(norm) && norm(q) != 0.0 && kq > 0.0 && norm(Scale(kq, q)) != 0.0
    requires |ks| == |cs| && forall i :: 0 <= i < |ks| ==> ks[i] > 0.0
    ensures ScoreAll(norm, Scale(kq, q), RescaledAll(cs, ks)) == ScoreAll(norm, q, cs)
  {
    hide Score, Scale, IsNorm;
    if cs != [] {
      var n := |cs| - 1;
      ScoreAllScales(norm, q, cs[..n], kq, ks[..n]);
      assert RescaledAll(cs, ks)[..n] == RescaledAll(cs[..n], ks[..n]);
      ScoreScales(norm, q, cs[n], kq, ks[n]);
      SameChunk(cs[n], ks[n]);
    }
  }

  lemma SameChunk(c: Candidate, k: real)
    ensures forall score :: WithScore(Rescaled(c, k), score) == WithScore(c, score)
  {
  }

  /** The ranking depends on directions only: scaling the query and every embedding by any positive
      factors changes nothing. */
  lemma RankScaleInvariant(norm: Vector -> real, q: Vector, cs: seq<Candidate>, topK: int, kq: real, ks: seq<real>)
    requires IsNorm(norm) && kq > 0.0
    requires |ks| == |cs| && forall i :: 0 <= i < |ks| ==> ks[i] > 0.0
    ensures Ranked(norm, Scale(kq, q), RescaledAll(cs, ks), topK) == Ranked(norm, q, cs, topK)
  {
    hide Scale, Over, Sort, ScoreAll, IsNorm;
    UnitScales(norm, kq, q);
    if norm(q) != 0.0 {
      ScoreAllScales(norm, q, cs, kq, ks);
    } else {
      UnscoredScales(cs, ks, topK);
    }
  }

  lemma UnscoredScales(cs: seq<Candidate>, ks: seq<real>, topK: int)
    requires |ks| == |cs|
    ensures Unscored(Slice(RescaledAll(cs, ks), 0, topK)) == Unscored(Slice(cs, 0, topK))
  {
    hide Scale;
    var a, b := Unscored(Slice(RescaledAll(cs, ks), 0, topK)), Unscored(Slice(cs, 0, topK));
    assert |a| == |b|;
    forall i | 0 <= i < |a| ensures a[i] == b[i] {
      assert Slice(RescaledAll(cs, ks), 0, topK)[i] == Rescaled(Slice(cs, 0, topK)[i], ks[i]);
    }
  }

  // ---------------------------------------------------------------- the cut

  /** The result is a prefix of all candidates in order of score, ties in input order; so no omitted
      candidate scores higher than a returned one. */
  lemma TopScores(norm: Vector -> real, q: Vector, cs: seq<Candidate>, topK: int) returns (rest: seq<RankedChunk>)
    requires cs != [] && norm(q) != 0.0 && ScoreAll(norm, q, cs).Ok?
    ensures var scored := ScoreAll(norm, q, cs).value; var r := Ranked(norm, q, cs, topK).value;
      && IsStableSort(scored, r + rest, Descending())
      && multiset(r + rest) == multiset(scored)
      && |r| == SliceBound(topK, |cs|)
      && (forall i, j :: 0 <= i < |r| && 0 <= j < |rest| ==> r[i].score >= rest[j].score)
  {
    hide ScoreAll, Score, Sort, WithKey;
    var scored := ScoreAll(norm, q, cs).value;
    var key := Descending();
    SortIsStable(scored, key);
    ScoreAllLength(norm, q, cs);
    var sorted := Sort(scored, key);
    var m := SliceBound(topK, |sorted|);
    rest := sorted[m..];
    var r := Ranked(norm, q, cs, topK).value;
    assert r == sorted[..m];
    assert r + rest == sorted;
    forall i, j | 0 <= i < |r| && 0 <= j < |rest| ensures r[i].score >= rest[j].score {
      assert key(sorted[i]) <= key(sorted[m + j]);
    }
  }

  lemma {:induction false} ScoreAllLength(norm: Vector -> real, q: Vector, cs: seq<Candidate>)
    requires norm(q) != 0.0 && ScoreAll(norm, q, cs).Ok?
    ensures |ScoreAll(norm, q, cs).value| == |cs|
  {
    if cs != [] { ScoreAllLength(norm, q, cs[..|cs| - 1]); }
  }

  /** The branch for a zero query is what the general branch would do if every score were 0. */
  lemma ZeroQueryIsAllZeroScores(cs: seq<Candidate>, topK: int)
    ensures Unscored(Slice(cs, 0, topK)) == Slice(Sort(Unscored(cs), Descending()), 0, topK)
  {
    var key := Descending();
    assert forall i :: 0 <= i < |cs| ==> key(Unscored(cs)[i]) == -0.0;
    SortedIsFixed(Unscored(cs), key);
    assert Unscored(Slice(cs, 0, topK)) == Slice(Unscored(cs), 0, topK);
  }

  // ---------------------------------------------------------------- candidates without a direction

  /** No embedding, or one of norm zero: scored 0. */
  predicate Directionless(norm: Vector -> real, c: Candidate) {
    c.embedding.None? || norm(c.embedding.value) == 0.0
  }

  /** The score of a candidate that has one. */
  function ScoreOf(norm: Vector -> real, q: Vector, c: Candidate): real {
    if norm(q) != 0.0 && Score(norm, q, c).Ok? then Score(norm, q, c).value else 0.0
  }

  function Shown(norm: Vector -> real, q: Vector): Candidate -> RankedChunk {
    (c: Candidate) => WithScore(c, ScoreOf(norm, q, c))
  }

  /** The candidates in the order in which `rank` lists them before it cuts. */
  function RankOrder(norm: Vector -> real, q: Vector, cs: seq<Candidate>): seq<Candidate> {
    Sort(cs, (c: Candidate) => -ScoreOf(norm, q, c))
  }

  lemma {:induction false} ScoreAllIsMap(norm: Vector -> real, q: Vector, cs: seq<Candidate>)
    requires norm(q) != 0.0 && ScoreAll(norm, q, cs).Ok?
    ensures ScoreAll(norm, q, cs).value == Map(Shown(norm, q), cs)
  {
    hide Score, ScoreOf, Map;
    if cs == [] {
      MapNothing(Shown(norm, q), cs);
    } else {
      var n := |cs| - 1;
      ScoreAllIsMap(norm, q, cs[..n]);
      assert cs == cs[..n] + [cs[n]];
      MapSnoc(Shown(norm, q), cs[..n], cs[n]);
      ShownScore(norm, q, cs[n]);
    }
  }

  lemma ShownScore(norm: Vector -> real, q: Vector, c: Candidate)
    requires norm(q) != 0.0 && Score(norm, q, c).Ok?
    ensures Shown(norm, q)(c) == WithScore(c, Score(norm, q, c).value)
  {
  }

  /** Every candidate with a direction has as many components as the query. */
  predicate SameShape(norm: Vector -> real, q: Vector, cs: seq<Candidate>) {
    forall i :: 0 <= i < |cs| ==> Directionless(norm, cs[i]) || |cs[i].embedding.value| == |q|
  }

  /** `rank` raises exactly when there are candidates, the query has a direction and some candidate with a
      direction has another number of components. */
  lemma RankRaisesIff(norm: Vector -> real, q: Vector, cs: seq<Candidate>, topK: int)
    ensures Ranked(norm, q, cs, topK).Err? <==> norm(q) != 0.0 && !SameShape(norm, q, cs)
  {
    hide Sort, ScoreAll;
    if norm(q) != 0.0 { ScoreAllOkIff(norm, q, cs); }
  }

  lemma {:induction false} ScoreAllOkIff(norm: Vector -> real, q: Vector, cs: seq<Candidate>)
    requires norm(q) != 0.0
    ensures ScoreAll(norm, q, cs).Ok? <==> SameShape(norm, q, cs)
  {
    hide Cosine;
    if cs != [] {
      var n := |cs| - 1;
      ScoreAllOkIff(norm, q, cs[..n]);
      assert SameShape(norm, q, cs) <==> SameShape(norm, q, cs[..n]) && Score(norm, q, cs[n]).Ok? by {
        assert forall i :: 0 <= i < n ==> cs[..n][i] == cs[i];
      }
    }
  }

  /** How far the embedding points along the query. */
  function Along(q: Vector, c: Candidate): real {
    if c.embedding.Some? && |c.embedding.value| == |q| then Dot(q, c.embedding.value) else 0.0
  }

  /** The sign of a score is the sign of the product of the vectors. */
  lemma ScoreSign(norm: Vector -> real, q: Vector, c: Candidate)
    requires IsNorm(norm) && norm(q) != 0.0
    requires !Directionless(norm, c) && |c.embedding.value| == |q|
    ensures ScoreOf(norm, q, c) > 0.0 <==> Along(q, c) > 0.0
    ensures ScoreOf(norm, q, c) == 0.0 <==> Along(q, c) == 0.0
  {
    hide Dot, Over, Mul;
    var v := c.embedding.value;
    var m, n := norm(q), norm(v);
    var score := ScoreOf(norm, q, c);
    DotOver(q, m, v, n);
    MulSign(m, n);
    MulSign(Mul(m, n), score);
    MulSign(Mul(m, n), -score);
    MulMixed(Mul(m, n), score, 0.0, 0.0);
    MulMixed(Mul(m, n), -score, 0.0, 0.0);
    MulNegative(score, Mul(m, n));
    MulAdd(Mul(m, n), 0.0, 0.0);
  }

  /** The text calls 0.0 the lowest possible relevance. Cosines go down to -1, so candidates without a
      direction come after all others exactly when each of the others points along the query, or is at a
      right angle to it and listed earlier. */
  lemma DirectionlessLastIff(norm: Vector -> real, q: Vector, cs: seq<Candidate>, topK: int)
    requires IsNorm(norm) && cs != [] && norm(q) != 0.0 && SameShape(norm, q, cs)
    ensures Ranked(norm, q, cs, topK) == Ok(Slice(Map(Shown(norm, q), RankOrder(norm, q, cs)), 0, topK))
    ensures Last((c: Candidate) => Directionless(norm, c), RankOrder(norm, q, cs)) <==>
      forall i, j :: 0 <= i < |cs| && 0 <= j < |cs| && Directionless(norm, cs[i]) && !Directionless(norm, cs[j]) ==>
        Along(q, cs[j]) > 0.0 || (Along(q, cs[j]) == 0.0 && j < i)
  {
    hide Score, Sort, Last, Along, IsNorm;
    var key := (c: Candidate) => -ScoreOf(norm, q, c);
    var p := (c: Candidate) => Directionless(norm, c);
    ScoreAllOkIff(norm, q, cs);
    ScoreAllIsMap(norm, q, cs);
    SortMaps(cs, Shown(norm, q), Descending(), key);
    forall i | 0 <= i < |cs| && p(cs[i]) ensures key(cs[i]) == 0.0 { ZeroScore(norm, q, cs[i]); }
    SortedLastIff(cs, key, p, 0.0);
    forall j | 0 <= j < |cs| && !Directionless(norm, cs[j])
      ensures ScoreOf(norm, q, cs[j]) > 0.0 <==> Along(q, cs[j]) > 0.0
      ensures ScoreOf(norm, q, cs[j]) == 0.0 <==> Along(q, cs[j]) == 0.0
    {
      ScoreSign(norm, q, cs[j]);
    }
  }

  /** A score is the cosine of the angle to the query: norms times score is the product of the vectors. A
      candidate without a direction scores 0. */
  predicate CosineScore(norm: Vector -> real, q: Vector, c: Candidate, score: real) {
    if Directionless(norm, c) then score == 0.0
    else
      var v := c.embedding.value;
      |v| == |q| && norm(q) * norm(v) * score == Dot(q, v)
  }

  lemma ScoreIsCosine(norm: Vector -> real, q: Vector, c: Candidate)
    requires norm(q) != 0.0 && (Directionless(norm, c) || |c.embedding.value| == |q|)
    ensures CosineScore(norm, q, c, ScoreOf(norm, q, c))
  {
    if !Directionless(norm, c) {
      var v := c.embedding.value;
      DotOver(q, norm(q), v, norm(v));
      hide Dot, Over;
    }
  }

  /** The length of the embedding, 1 for a candidate without a direction. */
  function Length(norm: Vector -> real, c: Candidate): real {
    if Directionless(norm, c) then 1.0 else norm(c.embedding.value)
  }

  /** The product with the query, 0 for a candidate without a direction. */
  function Product(norm: Vector -> real, q: Vector, c: Candidate): real {
    if Directionless(norm, c) then 0.0 else Along(q, c)
  }

  /** `a` points closer to the query than `b`, compared without dividing. */
  predicate Closer(norm: Vector -> real, q: Vector, a: Candidate, b: Candidate) {
    Product(norm, q, a) * Length(norm, b) > Product(norm, q, b) * Length(norm, a)
  }

  predicate AsClose(norm: Vector -> real, q: Vector, a: Candidate, b: Candidate) {
    Product(norm, q, a) * Length(norm, b) == Product(norm, q, b) * Length(norm, a)
  }

  lemma CrossOrder(k: real, x: real, s: real, m: real, y: real, t: real, n: real)
    requires k > 0.0 && m > 0.0 && n > 0.0
    requires x == Mul(Mul(k, m), s) && y == Mul(Mul(k, n), t)
    ensures Mul(x, n) > Mul(y, m) <==> s > t
    ensures Mul(x, n) == Mul(y, m) <==> s == t
  {
    hide Mul;
    var f := Mul(Mul(k, m), n);
    MulSign(k, m);
    MulSign(Mul(k, m), n);
    MulMixed(Mul(k, m), s, n, 1.0);
    MulMixed(Mul(k, n), t, m, 1.0);
    MulMixed(k, n, m, 1.0);
    MulMixed(k, m, n, 1.0);
    MulAdd(s, 0.0, 0.0); MulAdd(t, 0.0, 0.0); MulAdd(n, 0.0, 0.0); MulAdd(m, 0.0, 0.0); MulAdd(k, 0.0, 0.0);
    assert Mul(x, n) == Mul(f, s);
    assert Mul(y, m) == Mul(f, t);
    MulAdd(f, s - t, t);
    MulAdd(f, t - s, s);
    MulSign(f, s - t);
    MulSign(f, t - s);
    MulAdd(f, 0.0, 0.0);
  }

  lemma CloserIffScore(norm: Vector -> real, q: Vector, a: Candidate, b: Candidate)
    requires IsNorm(norm) && norm(q) != 0.0
    requires Directionless(norm, a) || |a.embedding.value| == |q|
    requires Directionless(norm, b) || |b.embedding.value| == |q|
    ensures Closer(norm, q, a, b) <==> ScoreOf(norm, q, a) > ScoreOf(norm, q, b)
    ensures AsClose(norm, q, a, b) <==> ScoreOf(norm, q, a) == ScoreOf(norm, q, b)
  {
    hide Dot, Score, ScoreOf, Over;
    Factored(norm, q, a);
    Factored(norm, q, b);
    CrossOrder(norm(q), Product(norm, q, a), ScoreOf(norm, q, a), Length(norm, a),
               Product(norm, q, b), ScoreOf(norm, q, b), Length(norm, b));
  }

  lemma Factored(norm: Vector -> real, q: Vector, c: Candidate)
    requires IsNorm(norm) && norm(q) != 0.0 && (Directionless(norm, c) || |c.embedding.value| == |q|)
    ensures norm(q) > 0.0 && Length(norm, c) > 0.0
    ensures Product(norm, q, c) == Mul(Mul(norm(q), Length(norm, c)), ScoreOf(norm, q, c))
  {
    hide Dot, Over, Mul;
    assert norm(q) >= 0.0;
    if Directionless(norm, c) {
      ZeroScore(norm, q, c);
      MulAdd(Mul(norm(q), 1.0), 0.0, 0.0);
    } else {
      assert norm(c.embedding.value) >= 0.0;
      DotOver(q, norm(q), c.embedding.value, norm(c.embedding.value));
    }
  }

  /** Entry k of the result shows a candidate with its cosine. */
  predicate Shows(norm: Vector -> real, q: Vector, r: RankedChunk, c: Candidate) {
    r.content == c.content && r.metadata == c.metadata && CosineScore(norm, q, c, r.score)
  }

  /** The ranking without reference to scores: all candidates in the order in which they point to the query,
      closest first, equally close ones in input order; each shown with its content, metadata and cosine; the
      first top_k of them, or all but the last -top_k. */
  lemma RankLaw(norm: Vector -> real, q: Vector, cs: seq<Candidate>, topK: int) returns (perm: seq<nat>)
    requires IsNorm(norm) && cs != [] && norm(q) != 0.0 && SameShape(norm, q, cs)
    ensures IsPermutation(perm, |cs|)
    ensures forall k, l :: 0 <= k < l < |cs| ==>
      Closer(norm, q, cs[perm[k]], cs[perm[l]]) || (AsClose(norm, q, cs[perm[k]], cs[perm[l]]) && perm[k] < perm[l])
    ensures Ranked(norm, q, cs, topK).Ok?
    ensures var r := Ranked(norm, q, cs, topK).value;
      && |r| == (if topK >= |cs| then |cs| else if topK >= 0 then topK else if |cs| + topK >= 0 then |cs| + topK else 0)
      && forall k :: 0 <= k < |r| ==> Shows(norm, q, r[k], cs[perm[k]])
  {
    hide Score, Sort, Last, Along, IsNorm, Closer, AsClose, CosineScore, Directionless;
    var key := (c: Candidate) => -ScoreOf(norm, q, c);
    perm := SortPermutes(cs, key);
    DirectionlessLastIff(norm, q, cs, topK);
    var order := RankOrder(norm, q, cs);
    var r := Ranked(norm, q, cs, topK).value;
    forall k, l | 0 <= k < l < |cs|
      ensures Closer(norm, q, cs[perm[k]], cs[perm[l]]) || (AsClose(norm, q, cs[perm[k]], cs[perm[l]]) && perm[k] < perm[l])
    {
      CloserIffScore(norm, q, cs[perm[k]], cs[perm[l]]);
    }
    forall k | 0 <= k < |r| ensures Shows(norm, q, r[k], cs[perm[k]]) {
      assert r[k] == Shown(norm, q)(order[k]);
      ScoreIsCosine(norm, q, cs[perm[k]]);
    }
  }

  /** For a zero query: the first candidates as they were listed, each with its content, metadata and score
      0. */
  lemma ZeroQueryLaw(norm: Vector -> real, q: Vector, cs: seq<Candidate>, topK: int)
    requires norm(q) == 0.0
    ensures Ranked(norm, q, cs, topK).Ok?
    ensures var r := Ranked(norm, q, cs, topK).value;
      && |r| == (if topK >= |cs| then |cs| else if topK >= 0 then topK else if |cs| + topK >= 0 then |cs| + topK else 0)
      && forall k :: 0 <= k < |r| ==> r[k].content == cs[k].content && r[k].metadata == cs[k].metadata && r[k].score == 0.0
  {
  }

  lemma ZeroScore(norm: Vector -> real, q: Vector, c: Candidate)
    requires Directionless(norm, c)
    ensures ScoreOf(norm, q, c) == 0.0
  {
  }

  /** A candidate pointing away from the query is outranked by one without an embedding. */
  lemma OppositeOutranked(norm: Vector -> real, away: Candidate, missing: Candidate)
    requires IsNorm(norm) && away.embedding == Some([-1.0]) && missing.embedding == None
    ensures Ranked(norm, [1.0], [away, missing], 1) == Ok([WithScore(missing, 0.0)])
  {
    var q: Vector, v: Vector := [1.0], [-1.0];
    UnitNorm(norm, 1.0);
    UnitNorm(norm, -1.0);
    assert Over(q, 1.0) == [1.0] && Over(v, 1.0) == [-1.0];
    assert Score(norm, q, away) == Ok(-1.0);
    var first, scored := [WithScore(away, -1.0)], [WithScore(away, -1.0), WithScore(missing, 0.0)];
    assert [] + [away] == [away] && [away] + [missing] == [away, missing];
    assert [] + first == first && first + [WithScore(missing, 0.0)] == scored;
    ScoreAllSnoc(norm, q, [], away, [], -1.0);
    ScoreAllSnoc(norm, q, [away], missing, first, 0.0);
    assert scored[1..] == [WithScore(missing, 0.0)];
    assert Sort(scored[1..], Descending()) == [WithScore(missing, 0.0)];
  }

  lemma ScoreAllSnoc(norm: Vector -> real, q: Vector, cs: seq<Candidate>, c: Candidate, before: seq<RankedChunk>, score: real)
    requires norm(q) != 0.0 && ScoreAll(norm, q, cs) == Ok(before) && Score(norm, q, c) == Ok(score)
    ensures ScoreAll(norm, q, cs + [c]) == Ok(before + [WithScore(c, score)])
  {
    var all := cs + [c];
    assert all[..|all| - 1] == cs && all[|all| - 1] == c;
  }

  lemma UnitNorm(norm: Vector -> real, x: real)
    requires IsNorm(norm) && (x == 1.0 || x == -1.0)
    ensures norm([x]) == 1.0
  {
    var v: Vector := [x];
    assert Dot(v, v) == 1.0;
    SameRoot(norm(v), 1.0);
  }
}
