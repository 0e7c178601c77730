/**
 * The normalization context and the skill score.
 *
 * Both copies of the scoring code run the same algorithm and differ only in
 * their four feature weights, so the weights are a parameter here and the two
 * constant sets are `SingleFileWeights` and `PackageWeights`.
 */
module Scoring {
  import opened Wrappers
  import opened Entities

  /** The four scored features, in the order the score lists them. */
  datatype Feature = Age | Experience | UniformSize | Evaluation

  const AllFeatures: seq<Feature> := [Age, Experience, UniformSize, Evaluation]

  /**
   * The raw value of a feature for a player, as the context builder and the
   * scorer both read it: the age and the experience when present, the ordinal
   * of the uniform size when it is one of the twelve sizes, and the evaluation
   * score when its numeric coercion succeeded.
   */
  function FeatureValue(p: Player, f: Feature): Option<real> {
    match f
    case Age => p.age
    case Experience => if p.experience.Some? then Some(p.experience.value as real) else None
    case UniformSize =>
      (match IndexOf(UniformSizes, p.uniformSize)
       case Some(i) => Some(i as real)
       case None => None)
    case Evaluation => p.evaluationScore
  }

  /** The `{min, max}` record of one feature. */
  datatype MinMax = MinMax(min: Option<real>, max: Option<real>)

  /** Four independent bounds, one per feature. */
  datatype NormalizationContext = NormalizationContext(
    age: MinMax, experience: MinMax, uniformSize: MinMax, evaluationScore: MinMax)
  {
    function Bounds(f: Feature): MinMax {
      match f
      case Age => age
      case Experience => experience
      case UniformSize => uniformSize
      case Evaluation => evaluationScore
    }
  }

  /** The values of one feature collected from the players, in player order. */
  function Collected(ps: seq<Player>, f: Feature): seq<real> {
    if ps == [] then []
    else
      var front := Collected(ps[..|ps| - 1], f);
      match FeatureValue(ps[|ps| - 1], f)
      case Some(v) => front + [v]
      case None => front
  }

  /** A value is collected exactly when some player has it for that feature. */
  lemma CollectedMembers(ps: seq<Player>, f: Feature, v: real)
    ensures v in Collected(ps, f) <==> exists p :: p in ps && FeatureValue(p, f) == Some(v)
  {
    if v in Collected(ps, f) {
      var p := CollectedWitness(ps, f, v);
    }
    forall p | p in ps && FeatureValue(p, f) == Some(v)
      ensures v in Collected(ps, f)
    {
      CollectedComplete(ps, f, p);
    }
  }

  /** A collected value comes from some player. */
  lemma {:induction false} CollectedWitness(ps: seq<Player>, f: Feature, v: real) returns (p: Player)
    requires v in Collected(ps, f)
    ensures p in ps && FeatureValue(p, f) == Some(v)
  {
    var n := |ps| - 1;
    if v in Collected(ps[..n], f) {
      p := CollectedWitness(ps[..n], f, v);
      assert p in ps[..n];
    } else {
      p := ps[n];
    }
  }

  /** Every player's value of the feature is collected. */
  lemma {:induction false} CollectedComplete(ps: seq<Player>, f: Feature, p: Player)
    requires p in ps && FeatureValue(p, f).Some?
    ensures FeatureValue(p, f).value in Collected(ps, f)
  {
    var n := |ps| - 1;
    if p != ps[n] {
      assert ps == ps[..n] + [ps[n]];
      assert p in ps[..n];
      CollectedComplete(ps[..n], f, p);
    }
  }

  /** Collecting over one more player appends that player's value, if any. */
  lemma CollectedSnoc(ps: seq<Player>, i: nat, f: Feature)
    requires i < |ps|
    ensures Collected(ps[..i + 1], f) == Collected(ps[..i], f) + OptionList(FeatureValue(ps[i], f))
  {
    assert ps[..i + 1][..i] == ps[..i];
  }

  /** The values an option holds, as a list of at most one. */
  function OptionList(o: Option<real>): (r: seq<real>)
    ensures o.None? ==> r == []
    ensures o.Some? ==> r == [o.value]
  {
    if o.Some? then [o.value] else []
  }

  /** Collecting one feature looks at that feature only. */
  lemma {:induction false} CollectedDependsOnFeatureOnly(ps: seq<Player>, qs: seq<Player>, f: Feature)
    requires |ps| == |qs|
    requires forall i :: 0 <= i < |ps| ==> FeatureValue(ps[i], f) == FeatureValue(qs[i], f)
    ensures Collected(ps, f) == Collected(qs, f)
  {
    if ps != [] {
      CollectedDependsOnFeatureOnly(ps[..|ps| - 1], qs[..|qs| - 1], f);
    }
  }

  function SeqMin(vs: seq<real>): (m: real)
    requires vs != []
    ensures m in vs && forall v :: v in vs ==> m <= v
  {
    if |vs| == 1 then vs[0]
    else
      var rest := SeqMin(vs[1..]);
      assert vs == [vs[0]] + vs[1..];
      if vs[0] <= rest then vs[0] else rest
  }

  function SeqMax(vs: seq<real>): (m: real)
    requires vs != []
    ensures m in vs && forall v :: v in vs ==> v <= m
  {
    if |vs| == 1 then vs[0]
    else
      var rest := SeqMax(vs[1..]);
      assert vs == [vs[0]] + vs[1..];
      if vs[0] >= rest then vs[0] else rest
  }

  /** `get_min_max`: both bounds absent for no values, else the least and the greatest value. */
  function GetMinMax(vs: seq<real>): (r: MinMax)
    ensures vs == [] <==> r == MinMax(None, None)
    ensures r.min.Some? <==> r.max.Some?
    ensures r.min.Some? ==> r.min.value in vs && forall v :: v in vs ==> r.min.value <= v
    ensures r.max.Some? ==> r.max.value in vs && forall v :: v in vs ==> v <= r.max.value
  {
    if vs == [] then MinMax(None, None) else MinMax(Some(SeqMin(vs)), Some(SeqMax(vs)))
  }

  /** Bounds that hold the same values are the same bounds, whatever their order or repetition. */
  lemma GetMinMaxBySet(vs: seq<real>, us: seq<real>)
    requires forall v :: v in vs ==> v in us
    requires forall v :: v in us ==> v in vs
    ensures GetMinMax(vs) == GetMinMax(us)
  {
    if vs != [] {
      var x := vs[0];
      assert x in vs;
      var a, b := GetMinMax(vs), GetMinMax(us);
      assert a.min.value <= b.min.value && b.min.value <= a.min.value;
      assert a.max.value <= b.max.value && b.max.value <= a.max.value;
    } else if us != [] {
      FirstIsMember(us);
      assert false;
    }
  }

  lemma FirstIsMember(s: seq<real>)
    ensures s != [] ==> exists x :: x in s
  {
    if s != [] {
      var x := s[0];
      assert x in s;
    }
  }

  /** The context of a population, as a function of the players. */
  function ContextOf(ps: seq<Player>): NormalizationContext {
    NormalizationContext(
      GetMinMax(Collected(ps, Age)),
      GetMinMax(Collected(ps, Experience)),
      GetMinMax(Collected(ps, UniformSize)),
      GetMinMax(Collected(ps, Evaluation)))
  }

  /** `build_normalization_context`: one pass appending to four value lists, then their bounds. */
  method BuildNormalizationContext(players: seq<Player>) returns (ctx: NormalizationContext)
    ensures ctx == ContextOf(players)
  {
    var ages, experiences, uniformOrdinals, evals := [], [], [], [];
    for i := 0 to |players|
      invariant ages == Collected(players[..i], Age)
      invariant experiences == Collected(players[..i], Experience)
      invariant uniformOrdinals == Collected(players[..i], UniformSize)
      invariant evals == Collected(players[..i], Evaluation)
    {
      var p := players[i];
      CollectedSnoc(players, i, Age);
      CollectedSnoc(players, i, Experience);
      CollectedSnoc(players, i, UniformSize);
      CollectedSnoc(players, i, Evaluation);
      if p.age.Some? {
        ages := ages + [p.age.value];
      }
      if p.experience.Some? {
        experiences := experiences + [p.experience.value as real];
      }
      if p.uniformSize in UniformSizes {
        uniformOrdinals := uniformOrdinals + [IndexOf(UniformSizes, p.uniformSize).value as real];
      }
      if p.evaluationScore.Some? {
        evals := evals + [p.evaluationScore.value];
      }
    }
    assert players[..|players|] == players;
    ctx := NormalizationContext(
      GetMinMax(ages), GetMinMax(experiences), GetMinMax(uniformOrdinals), GetMinMax(evals));
  }

  /** Every bound of a context is either absent on both sides or an ordered pair of collected values. */
  lemma ContextWellFormed(ps: seq<Player>, f: Feature)
    ensures var b := ContextOf(ps).Bounds(f);
      && (b.min.None? <==> b.max.None?)
      && (b.min.None? <==> forall p :: p in ps ==> FeatureValue(p, f).None?)
      && (b.min.Some? ==> b.min.value <= b.max.value)
  {
    var vs := Collected(ps, f);
    if vs != [] {
      var v := vs[0];
      CollectedMembers(ps, f, v);
    } else {
      forall p | p in ps
        ensures FeatureValue(p, f).None?
      {
        if FeatureValue(p, f).Some? {
          CollectedMembers(ps, f, FeatureValue(p, f).value);
        }
      }
    }
  }

  /** The bounds of a player's own feature value enclose it. */
  lemma MemberWithinBounds(ps: seq<Player>, p: Player, f: Feature)
    requires p in ps && FeatureValue(p, f).Some?
    ensures var b := ContextOf(ps).Bounds(f);
      b.min.Some? && b.max.Some? && b.min.value <= FeatureValue(p, f).value <= b.max.value
  {
    CollectedMembers(ps, f, FeatureValue(p, f).value);
  }

  /** The context does not depend on the order of the players. */
  lemma ContextIgnoresOrder(ps: seq<Player>, qs: seq<Player>)
    requires multiset(ps) == multiset(qs)
    ensures ContextOf(ps) == ContextOf(qs)
  {
    forall f | true
      ensures GetMinMax(Collected(ps, f)) == GetMinMax(Collected(qs, f))
    {
      forall v | true
        ensures v in Collected(ps, f) <==> v in Collected(qs, f)
      {
        CollectedMembers(ps, f, v);
        CollectedMembers(qs, f, v);
        assert forall p :: p in ps <==> p in qs by {
          forall p | true ensures p in ps <==> p in qs {
            assert p in ps <==> p in multiset(ps);
            assert p in qs <==> p in multiset(qs);
          }
        }
      }
      GetMinMaxBySet(Collected(ps, f), Collected(qs, f));
    }
    assert ContextOf(ps).age == ContextOf(qs).age;
  }

  /** A gap in one feature never affects the bounds of another. */
  lemma ContextFeatureIndependent(ps: seq<Player>, qs: seq<Player>, f: Feature)
    requires |ps| == |qs|
    requires forall i :: 0 <= i < |ps| ==> FeatureValue(ps[i], f) == FeatureValue(qs[i], f)
    ensures ContextOf(ps).Bounds(f) == ContextOf(qs).Bounds(f)
  {
    CollectedDependsOnFeatureOnly(ps, qs, f);
  }

  /** `norm`: absent when the value or a bound is, 0.5 for equal bounds, otherwise a linear rescaling. */
  function Norm(val: Option<real>, mm: MinMax): (r: Option<real>)
    ensures r.None? <==> val.None? || mm.min.None? || mm.max.None?
    ensures r.Some? && mm.min.value == mm.max.value ==> r.value == 0.5
    ensures r.Some? && mm.min.value <= val.value <= mm.max.value ==> 0.0 <= r.value <= 1.0
    ensures r.Some? && mm.min.value < mm.max.value && val.value == mm.min.value ==> r.value == 0.0
    ensures r.Some? && mm.min.value < mm.max.value && val.value == mm.max.value ==> r.value == 1.0
  {
    if val.None? || mm.min.None? || mm.max.None? then None
    else if mm.max.value == mm.min.value then Some(0.5)
    else
      var lo, hi, v := mm.min.value, mm.max.value, val.value;
      RatioFacts(v - lo, hi - lo);
      Some((v - lo) / (hi - lo))
  }

  lemma MulNonneg(x: real, y: real)
    requires x >= 0.0 && y >= 0.0
    ensures x * y >= 0.0
  {
  }

  lemma MulNegPos(x: real, y: real)
    requires x < 0.0 && y > 0.0
    ensures x * y < 0.0
  {
    MulNonneg(-x, y);
    assert (-x) * y == -(x * y);
    assert (-x) * y != 0.0;
  }

  /** Between distinct bounds, `norm` rescales linearly: (v - min) / (max - min). */
  lemma NormScaling(v: real, mm: MinMax)
    requires mm.min.Some? && mm.max.Some? && mm.min.value != mm.max.value
    ensures Norm(Some(v), mm).value * (mm.max.value - mm.min.value) == v - mm.min.value
  {
  }

  lemma ScaledOrder(x: real, y: real, d: real, a: real, b: real)
    requires d > 0.0 && x * d == a && y * d == b && a <= b
    ensures x <= y
  {
    assert (y - x) * d == b - a;
    if y < x {
      MulNegPos(y - x, d);
    }
  }

  lemma RatioFacts(a: real, b: real)
    requires b != 0.0
    ensures a == 0.0 ==> a / b == 0.0
    ensures a == b ==> a / b == 1.0
    ensures 0.0 <= a <= b ==> 0.0 <= a / b <= 1.0
  {
    if 0.0 <= a <= b {
      assert a / b * b == a;
    }
  }

  /** With fixed, ordered bounds a larger raw value never normalizes to a smaller one. */
  lemma NormMonotone(v1: real, v2: real, mm: MinMax)
    requires mm.min.Some? && mm.max.Some? && mm.min.value <= mm.max.value
    requires v1 <= v2
    ensures Norm(Some(v1), mm).value <= Norm(Some(v2), mm).value
  {
    var lo, hi := mm.min.value, mm.max.value;
    if lo < hi {
      var n1, n2 := Norm(Some(v1), mm).value, Norm(Some(v2), mm).value;
      NormScaling(v1, mm);
      NormScaling(v2, mm);
      ScaledOrder(n1, n2, hi - lo, v1 - lo, v2 - lo);
    }
  }

  /** The four feature weights. */
  datatype Weights = Weights(age: real, experience: real, uniformSize: real, evaluation: real) {
    function Of(f: Feature): real {
      match f
      case Age => age
      case Experience => experience
      case UniformSize => uniformSize
      case Evaluation => evaluation
    }

    predicate Positive() {
      age > 0.0 && experience > 0.0 && uniformSize > 0.0 && evaluation > 0.0
    }
  }

  /** The weights of the single-file program. */
  const SingleFileWeights: Weights := Weights(0.2, 0.2, 0.10, 0.5)

  /** The weights of the package's scoring module. */
  const PackageWeights: Weights := Weights(0.25, 0.35, 0.15, 0.25)

  /** The normalized value of one feature of a player. */
  function Normalized(p: Player, ctx: NormalizationContext, f: Feature): Option<real> {
    Norm(FeatureValue(p, f), ctx.Bounds(f))
  }

  /** The (value, weight) pairs of the features that are present, in feature order. */
  function PresentTerms(p: Player, ctx: NormalizationContext, w: Weights, fs: seq<Feature>): (ts: seq<(real, real)>)
    ensures ts == [] <==> forall f :: f in fs ==> Normalized(p, ctx, f).None?
    ensures forall t :: t in ts ==>
      exists f :: f in fs && Normalized(p, ctx, f) == Some(t.0) && t.1 == w.Of(f)
  {
    if fs == [] then []
    else
      var rest := PresentTerms(p, ctx, w, fs[1..]);
      assert forall f :: f in fs ==> f == fs[0] || f in fs[1..];
      match Normalized(p, ctx, fs[0])
      case Some(v) => [(v, w.Of(fs[0]))] + rest
      case None => rest
  }

  function WeightTotal(ts: seq<(real, real)>): real {
    if ts == [] then 0.0 else ts[0].1 + WeightTotal(ts[1..])
  }

  function WeightedSum(ts: seq<(real, real)>): real {
    if ts == [] then 0.0 else ts[0].0 * ts[0].1 + WeightedSum(ts[1..])
  }

  /** For values in [0, 1] and positive weights, 0 <= sum of v*w <= sum of w, and sum of w > 0. */
  lemma {:induction false} WeightedSumBounds(ts: seq<(real, real)>)
    requires forall t :: t in ts ==> 0.0 <= t.0 <= 1.0 && t.1 > 0.0
    ensures 0.0 <= WeightedSum(ts) <= WeightTotal(ts)
    ensures ts != [] ==> WeightTotal(ts) > 0.0
  {
    if ts != [] {
      assert ts[0] in ts;
      assert forall t :: t in ts[1..] ==> t in ts;
      WeightedSumBounds(ts[1..]);
      var v, w := ts[0].0, ts[0].1;
      MulNonneg(v, w);
      MulNonneg(1.0 - v, w);
      assert v * w + (1.0 - v) * w == w;
    }
  }

  /** A weighted mean of values that all equal c is c. */
  lemma {:induction false} WeightedSumOfConstant(ts: seq<(real, real)>, c: real)
    requires forall t :: t in ts ==> t.0 == c
    ensures WeightedSum(ts) == c * WeightTotal(ts)
  {
    if ts != [] {
      assert ts[0] in ts;
      assert forall t :: t in ts[1..] ==> t in ts;
      WeightedSumOfConstant(ts[1..], c);
    }
  }

  /** Python's `round(x, 4)` on the exact value: nearest multiple of 1/10000, ties to even. */
  function Round4(x: real): (r: real)
    ensures x - 0.00005 <= r <= x + 0.00005
    ensures HasFourDecimals(r)
    ensures 0.0 <= x <= 1.0 ==> 0.0 <= r <= 1.0
  {
    var k := RoundedTicks(x * 10000.0);
    assert (k as real / 10000.0) * 10000.0 == k as real;
    k as real / 10000.0
  }

  /** Round half to even, to a whole number. */
  function RoundedTicks(y: real): (k: int)
    ensures y - 0.5 <= k as real <= y + 0.5
    ensures 0.0 <= y <= 10000.0 ==> 0 <= k <= 10000
  {
    var n := y.Floor;
    var frac := y - n as real;
    if frac > 0.5 || (frac == 0.5 && n % 2 != 0) then n + 1 else n
  }

  /** At most four decimal digits: a whole number of ten-thousandths. */
  predicate HasFourDecimals(r: real) {
    (r * 10000.0).Floor as real == r * 10000.0
  }

  /** True when no feature of the player normalizes to a value. */
  predicate NoFeaturePresent(p: Player, ctx: NormalizationContext) {
    forall f :: Normalized(p, ctx, f).None?
  }

  /** True when every present normalized feature lies in [0, 1]. */
  predicate NormalizedInUnit(p: Player, ctx: NormalizationContext) {
    forall f :: Normalized(p, ctx, f).Some? ==> 0.0 <= Normalized(p, ctx, f).value <= 1.0
  }

  /**
   * `calculate_player_skill_score`: 0.0 when no feature is present, otherwise the
   * weighted mean of the present normalized features (weights renormalized by
   * their sum), rounded to four decimals.
   */
  function SkillScore(p: Player, ctx: NormalizationContext, w: Weights): (r: real)
    requires w.Positive()
    ensures NoFeaturePresent(p, ctx) ==> r == 0.0
    ensures NormalizedInUnit(p, ctx) ==> 0.0 <= r <= 1.0
    ensures HasFourDecimals(r)
  {
    var ts := PresentTerms(p, ctx, w, AllFeatures);
    TermsBounded(p, ctx, w, AllFeatures);
    if ts == [] then 0.0 else Round4(WeightedMean(ts))
  }

  /** The sum of value times weight over the sum of the weights. */
  function WeightedMean(ts: seq<(real, real)>): (m: real)
    requires ts != [] && forall t :: t in ts ==> t.1 > 0.0
    ensures (forall t :: t in ts ==> 0.0 <= t.0 <= 1.0) ==> 0.0 <= m <= 1.0
  {
    PositiveWeightTotal(ts);
    assert (forall t :: t in ts ==> 0.0 <= t.0 <= 1.0) ==> 0.0 <= WeightedSum(ts) <= WeightTotal(ts) by {
      if forall t :: t in ts ==> 0.0 <= t.0 <= 1.0 {
        WeightedSumBounds(ts);
      }
    }
    RatioFacts(WeightedSum(ts), WeightTotal(ts));
    WeightedSum(ts) / WeightTotal(ts)
  }

  /** Every term carries a positive weight, and a value in [0, 1] when the features normalize into it. */
  lemma {:induction false} TermsBounded(p: Player, ctx: NormalizationContext, w: Weights, fs: seq<Feature>)
    requires w.Positive()
    ensures forall t :: t in PresentTerms(p, ctx, w, fs) ==> t.1 > 0.0
    ensures NormalizedInUnit(p, ctx) ==> forall t :: t in PresentTerms(p, ctx, w, fs) ==> 0.0 <= t.0 <= 1.0
  {
    if fs != [] {
      TermsBounded(p, ctx, w, fs[1..]);
    }
  }

  lemma {:induction false} PositiveWeightTotal(ts: seq<(real, real)>)
    requires ts != [] && forall t :: t in ts ==> t.1 > 0.0
    ensures WeightTotal(ts) > 0.0
  {
    if |ts| > 1 {
      assert forall t :: t in ts[1..] ==> t in ts;
      PositiveWeightTotal(ts[1..]);
    }
  }

  /** Every player of the population that built the context scores within [0, 1]. */
  lemma ScoreInUnitInterval(ps: seq<Player>, p: Player, w: Weights)
    requires p in ps && w.Positive()
    ensures 0.0 <= SkillScore(p, ContextOf(ps), w) <= 1.0
  {
    var ctx := ContextOf(ps);
    forall f | Normalized(p, ctx, f).Some?
      ensures 0.0 <= Normalized(p, ctx, f).value <= 1.0
    {
      MemberWithinBounds(ps, p, f);
    }
  }

  /**
   * Weights are renormalized over the present features: when every present
   * feature normalizes to the same value c, the score is c rounded, whatever the weights.
   */
  lemma ScoreOfAgreeingFeatures(p: Player, ctx: NormalizationContext, w: Weights, c: real)
    requires w.Positive()
    requires !NoFeaturePresent(p, ctx)
    requires forall f :: Normalized(p, ctx, f).Some? ==> Normalized(p, ctx, f).value == c
    ensures SkillScore(p, ctx, w) == Round4(c)
  {
    var f :| Normalized(p, ctx, f).Some?;
    assert f in AllFeatures;
    var ts := PresentTerms(p, ctx, w, AllFeatures);
    AgreeingTerms(p, ctx, w, AllFeatures, c);
    MeanOfConstant(ts, c);
  }

  /** When the present features agree on c, every term holds c and a positive weight. */
  lemma {:induction false} AgreeingTerms(p: Player, ctx: NormalizationContext, w: Weights, fs: seq<Feature>, c: real)
    requires w.Positive()
    requires forall f :: Normalized(p, ctx, f).Some? ==> Normalized(p, ctx, f).value == c
    ensures forall t :: t in PresentTerms(p, ctx, w, fs) ==> t.0 == c && t.1 > 0.0
  {
    if fs != [] {
      AgreeingTerms(p, ctx, w, fs[1..], c);
    }
  }

  lemma MeanOfConstant(ts: seq<(real, real)>, c: real)
    requires ts != [] && forall t :: t in ts ==> t.0 == c && t.1 > 0.0
    ensures WeightTotal(ts) > 0.0 && WeightedSum(ts) / WeightTotal(ts) == c
  {
    WeightedSumOfConstant(ts, c);
    PositiveWeightTotal(ts);
  }

  /** The score depends on the player only through its four feature values. */
  lemma ScoreDependsOnFeaturesOnly(p: Player, q: Player, ctx: NormalizationContext, w: Weights)
    requires w.Positive()
    requires forall f :: FeatureValue(p, f) == FeatureValue(q, f)
    ensures SkillScore(p, ctx, w) == SkillScore(q, ctx, w)
  {
    assert forall f :: Normalized(p, ctx, f) == Normalized(q, ctx, f);
    PresentTermsAgree(p, q, ctx, w, AllFeatures);
  }

  lemma {:induction false} PresentTermsAgree(p: Player, q: Player, ctx: NormalizationContext, w: Weights, fs: seq<Feature>)
    requires forall f :: Normalized(p, ctx, f) == Normalized(q, ctx, f)
    ensures PresentTerms(p, ctx, w, fs) == PresentTerms(q, ctx, w, fs)
  {
    if fs != [] {
      PresentTermsAgree(p, q, ctx, w, fs[1..]);
    }
  }

  /** Scoring against the context of a reordered population gives the same score. */
  lemma ScoreIgnoresPopulationOrder(ps: seq<Player>, qs: seq<Player>, p: Player, w: Weights)
    requires multiset(ps) == multiset(qs) && w.Positive()
    ensures SkillScore(p, ContextOf(ps), w) == SkillScore(p, ContextOf(qs), w)
  {
    ContextIgnoresOrder(ps, qs);
  }
}
