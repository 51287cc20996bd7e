/** `computeRatings`: each z-score is weighted (the deaths-per-round weight
    with a negative sign), the eight contributions are summed to a raw score,
    and the raw scores are rescaled over all players so that their mean is 1
    and their spread is the target standard deviation. */
module Ratings {
  import Stats
  import Tables
  import Players
  import Derive
  import Standardize

  /** The name of the weight of a metric; the weight of `acs_per_round` is
      called `acs`. */
  function WeightKey(m: Derive.Metric): (key: string)
    ensures key in Tables.WeightNames
  {
    match m
    case Kpr => "kpr"
    case Dpr => "dpr"
    case Adr => "adr"
    case Kast => "kast"
    case Entry => "entry"
    case AcsPerRound => "acs"
    case Headshot => "headshot"
    case Consistency => "consistency"
  }

  /** `weights[key] || 0`: a missing weight counts as 0. */
  function WeightOf(w: map<string, real>, key: string): (v: real)
    ensures v == 0.0 <==> key !in w || w[key] == 0.0
    ensures v != 0.0 ==> v == w[key]
  {
    if key in w then Stats.Or(w[key], 0.0) else 0.0
  }

  /** `z[m] ?? 0`: a missing z-score counts as 0. */
  function ZOf(z: Standardize.ZRow, m: Derive.Metric): (v: real)
    ensures m !in z ==> v == 0.0
    ensures m in z ==> v == z[m]
  {
    if m in z then z[m] else 0.0
  }

  /** The contribution of one metric: weight times z-score, negated for the
      deaths per round. */
  function Contribution(w: map<string, real>, z: Standardize.ZRow, m: Derive.Metric): real
  {
    if m == Derive.Dpr then -WeightOf(w, WeightKey(m)) * ZOf(z, m)
    else WeightOf(w, WeightKey(m)) * ZOf(z, m)
  }

  /** The eight contributions, in the order of the metrics. */
  function Contributions(w: map<string, real>, z: Standardize.ZRow): (cs: seq<real>)
    ensures |cs| == |Derive.Metrics|
  {
    seq(|Derive.Metrics|, i requires 0 <= i < |Derive.Metrics| => Contribution(w, z, Derive.Metrics[i]))
  }

  /** `rawSum`: the sum of the contributions. */
  function RawSum(w: map<string, real>, z: Standardize.ZRow): real
  {
    Stats.Sum(Contributions(w, z))
  }

  /** `opts.targetStd || 0.15`. */
  function EffectiveTarget(targetStd: real): (t: real)
    ensures t != 0.0
    ensures targetStd != 0.0 ==> t == targetStd
    ensures targetStd == 0.0 ==> t == 0.15
  {
    Stats.Or(targetStd, 0.15)
  }

  /** `1 + (rawSum - mu) * scale` for every raw score. */
  function Rescaled(raws: seq<real>, mu: real, scale: real): (ratings: seq<real>)
    ensures |ratings| == |raws|
  {
    seq(|raws|, i requires 0 <= i < |raws| => 1.0 + (raws[i] - mu) * scale)
  }

  /** The ratings of `computeRatings`: `mu` is the mean of the raw scores and
      `scale` the target over their spread. */
  function Rescale(sqrt: real -> real, raws: seq<real>, targetStd: real): (ratings: seq<real>)
    ensures |ratings| == |raws|
  {
    Rescaled(raws, Stats.Mean(raws), EffectiveTarget(targetStd) / Stats.Spread(sqrt, raws))
  }

  /** One rated player. */
  datatype Rated = Rated(
    name: string, role: string, contrib: seq<real>, raw: Derive.Derived,
    z: Standardize.ZRow, rawSum: real, rating: real)

  /** `computeRatings(rows, weights, { byRole, targetStd })`, keeping `rated`. */
  function ComputeRatings(sqrt: real -> real, rows: seq<Players.Player>, w: map<string, real>,
                          byRole: bool, targetStd: real): (rated: seq<Rated>)
    ensures |rated| == |rows|
    ensures forall i :: 0 <= i < |rows| ==>
      rated[i].name == rows[i].name && rated[i].role == rows[i].role &&
      rated[i].raw == Derive.ComputeDerived(rows[i]) &&
      rated[i].rawSum == RawSum(w, rated[i].z)
    ensures forall i :: 0 <= i < |rows| ==>
      rated[i].z == Standardize.StandardizedRows(sqrt, rows, byRole)[i].z &&
      rated[i].contrib == Contributions(w, rated[i].z)
    ensures Ratings(rated) == Rescale(sqrt, RawSums(rated), targetStd)
  {
    var std := Standardize.StandardizedRows(sqrt, rows, byRole);
    var sums := seq(|std|, i requires 0 <= i < |std| => RawSum(w, std[i].z));
    var rated := RateAll(std, w, Rescale(sqrt, sums, targetStd));
    RawSumsAre(rated, sums);
    RatingsAre(rated, Rescale(sqrt, sums, targetStd));
    rated
  }

  /** The rated entries of standardized rows, given their ratings. */
  function RateAll(std: seq<Standardize.StdRow>, w: map<string, real>, ratings: seq<real>): (rated: seq<Rated>)
    requires |ratings| == |std|
    ensures |rated| == |std|
    ensures forall i :: 0 <= i < |std| ==>
      rated[i] == Rated(std[i].raw.row.name, std[i].raw.row.role, Contributions(w, std[i].z),
                        std[i].raw, std[i].z, RawSum(w, std[i].z), ratings[i])
  {
    seq(|std|, i requires 0 <= i < |std| =>
      Rated(std[i].raw.row.name, std[i].raw.row.role, Contributions(w, std[i].z),
            std[i].raw, std[i].z, RawSum(w, std[i].z), ratings[i]))
  }

  function RawSums(rated: seq<Rated>): (sums: seq<real>)
    ensures |sums| == |rated|
  {
    seq(|rated|, i requires 0 <= i < |rated| => rated[i].rawSum)
  }

  lemma RawSumsAre(rated: seq<Rated>, sums: seq<real>)
    requires |rated| == |sums| && forall i :: 0 <= i < |rated| ==> rated[i].rawSum == sums[i]
    ensures RawSums(rated) == sums
  {
  }

  lemma RatingsAre(rated: seq<Rated>, ratings: seq<real>)
    requires |rated| == |ratings| && forall i :: 0 <= i < |rated| ==> rated[i].rating == ratings[i]
    ensures Ratings(rated) == ratings
  {
  }

  function Ratings(rated: seq<Rated>): (ratings: seq<real>)
    ensures |ratings| == |rated|
  {
    seq(|rated|, i requires 0 <= i < |rated| => rated[i].rating)
  }

  // ---------------------------------------------------------------------------
  // Contributions

  /** The weight names and the metrics correspond one to one, in order. */
  lemma WeightKeysInOrder()
    ensures forall i :: 0 <= i < |Derive.Metrics| ==> WeightKey(Derive.Metrics[i]) == Tables.WeightNames[i]
  {
  }

  /** The `k`-th contribution is the weight named `k`-th in the weight table,
      negated for deaths per round, times the `k`-th metric's z-score (0 when
      missing). */
  lemma ContributionAt(w: map<string, real>, z: Standardize.ZRow, k: nat)
    requires k < |Derive.Metrics|
    ensures Contributions(w, z)[k] ==
      (if Derive.Metrics[k] == Derive.Dpr then -WeightOf(w, Tables.WeightNames[k])
       else WeightOf(w, Tables.WeightNames[k])) * ZOf(z, Derive.Metrics[k])
  {
    WeightKeysInOrder();
  }

  /** A metric without a weight or without a z-score contributes nothing. */
  lemma MissingContributesZero(w: map<string, real>, z: Standardize.ZRow, m: Derive.Metric)
    requires WeightKey(m) !in w || m !in z
    ensures Contribution(w, z, m) == 0.0
  {
  }

  /** A player without z-scores has a raw score of 0. */
  lemma NoScoresRawSumZero(w: map<string, real>)
    ensures RawSum(w, map[]) == 0.0
  {
    var cs := Contributions(w, map[]);
    forall i | 0 <= i < |cs|
      ensures cs[i] == 0.0
    {
      MissingContributesZero(w, map[], Derive.Metrics[i]);
    }
    Stats.SumConstant(cs, 0.0);
  }

  /** With a non-negative `dpr` weight, a higher deaths-per-round z-score
      never raises the raw score; with a positive weight it lowers it. */
  lemma DeathsLowerRawSum(w: map<string, real>, z: Standardize.ZRow, a: real, b: real)
    requires WeightOf(w, "dpr") >= 0.0 && a <= b
    ensures RawSum(w, z[Derive.Dpr := b]) <= RawSum(w, z[Derive.Dpr := a])
    ensures WeightOf(w, "dpr") > 0.0 && a < b ==> RawSum(w, z[Derive.Dpr := b]) < RawSum(w, z[Derive.Dpr := a])
  {
    var xs := Contributions(w, z[Derive.Dpr := a]);
    var ys := Contributions(w, z[Derive.Dpr := b]);
    var wd := WeightOf(w, "dpr");
    var d := wd * (b - a);
    OnlyDprDiffers(w, z, a, b);
    assert xs[1] == -wd * a && ys[1] == -wd * b;
    NegatedShift(wd, a, b, d);
    SumDiffersAt(xs, ys, 1, d);
    if wd > 0.0 && a < b {
      Stats.PositiveProduct(wd, b - a);
    } else {
      Stats.NonNegativeProduct(wd, b - a);
    }
  }

  /** More deaths per round, with the rest of the peer group unchanged, never
      raise a player's raw score: the player's deaths-per-round z-score does
      not fall (see `Stats.ZScoreRises`) and its contribution is negated. The
      raw score falls strictly when the `dpr` weight is positive, the deaths
      per round rise and two of the other players' values differ. */
  lemma MoreDeathsLowerRawSum(sqrt: real -> real, w: map<string, real>, z: Standardize.ZRow,
                              dprs: seq<real>, k: nat, y: real)
    requires WeightOf(w, "dpr") >= 0.0 && k < |dprs| && dprs[k] <= y
    requires |dprs| >= 2 ==>
      Stats.IsRootOf(sqrt, Stats.Variance(dprs)) && Stats.IsRootOf(sqrt, Stats.Variance(dprs[k := y]))
    ensures RawSum(w, z[Derive.Dpr := Stats.RobustZ(sqrt, dprs[k := y])[k]])
      <= RawSum(w, z[Derive.Dpr := Stats.RobustZ(sqrt, dprs)[k]])
    ensures WeightOf(w, "dpr") > 0.0 && dprs[k] < y && Stats.OthersDiffer(dprs, k) ==>
      RawSum(w, z[Derive.Dpr := Stats.RobustZ(sqrt, dprs[k := y])[k]])
        < RawSum(w, z[Derive.Dpr := Stats.RobustZ(sqrt, dprs)[k]])
  {
    Stats.ZScoreRises(sqrt, dprs, k, y);
    DeathsLowerRawSum(w, z, Stats.RobustZ(sqrt, dprs)[k], Stats.RobustZ(sqrt, dprs[k := y])[k]);
  }

  /** In a group of two, the player with more deaths per round keeps the
      z-score 1 however many more deaths they have, so the raw score does not
      change when their deaths per round rise from 1 to 2 against a peer at 0. */
  lemma PairDeathsKeepRawSum(sqrt: real -> real, w: map<string, real>, z: Standardize.ZRow)
    requires Stats.IsRootOf(sqrt, Stats.Variance([0.0, 1.0]))
    requires Stats.IsRootOf(sqrt, Stats.Variance([0.0, 2.0]))
    ensures Stats.RobustZ(sqrt, [0.0, 1.0])[1] == Stats.RobustZ(sqrt, [0.0, 2.0])[1] == 1.0
    ensures RawSum(w, z[Derive.Dpr := Stats.RobustZ(sqrt, [0.0, 2.0])[1]])
      == RawSum(w, z[Derive.Dpr := Stats.RobustZ(sqrt, [0.0, 1.0])[1]])
  {
    Stats.PairZScores(sqrt, 0.0, 1.0);
    Stats.PairZScores(sqrt, 0.0, 2.0);
  }

  /** Changing the deaths-per-round z-score changes only the second
      contribution. */
  lemma OnlyDprDiffers(w: map<string, real>, z: Standardize.ZRow, a: real, b: real)
    ensures var xs := Contributions(w, z[Derive.Dpr := a]);
      var ys := Contributions(w, z[Derive.Dpr := b]);
      (forall i :: 0 <= i < |xs| && i != 1 ==> xs[i] == ys[i]) &&
      xs[1] == -WeightOf(w, "dpr") * a && ys[1] == -WeightOf(w, "dpr") * b
  {
    assert Derive.Metrics[1] == Derive.Dpr;
  }

  lemma NegatedShift(wd: real, a: real, b: real, d: real)
    requires d == wd * (b - a)
    ensures -wd * a == -wd * b + d
  {
  }

  /** Two sequences that differ only at position `k`, by `d`, have sums that
      differ by `d`. */
  lemma {:induction false} SumDiffersAt(xs: seq<real>, ys: seq<real>, k: nat, d: real)
    requires |xs| == |ys| && k < |xs|
    requires forall i :: 0 <= i < |xs| && i != k ==> xs[i] == ys[i]
    requires xs[k] == ys[k] + d
    ensures Stats.Sum(xs) == Stats.Sum(ys) + d
  {
    if k == 0 {
      assert xs[1..] == ys[1..];
    } else {
      SumDiffersAt(xs[1..], ys[1..], k - 1, d);
    }
  }

  // ---------------------------------------------------------------------------
  // Rescaling

  lemma RescaledAffine(raws: seq<real>, mu: real, scale: real)
    ensures forall i :: 0 <= i < |raws| ==>
      Rescaled(raws, mu, scale)[i] == (1.0 - mu * scale) + scale * raws[i]
  {
  }

  lemma AffineAtMean(mu: real, scale: real)
    ensures (1.0 - mu * scale) + scale * mu == 1.0
  {
  }

  /** Centred at their own mean, rescaled scores average exactly 1. */
  lemma RescaledMean(raws: seq<real>, mu: real, scale: real)
    requires |raws| > 0 && mu == Stats.Mean(raws)
    ensures Stats.Mean(Rescaled(raws, mu, scale)) == 1.0
  {
    RescaledAffine(raws, mu, scale);
    Stats.MeanAffine(raws, Rescaled(raws, mu, scale), 1.0 - mu * scale, scale);
    AffineAtMean(mu, scale);
  }

  lemma ScaleSquare(t: real, s: real, v: real)
    requires s != 0.0 && s * s == v
    ensures (t / s) * (t / s) * v == t * t
  {
    assert (t / s) * s == t;
  }

  /** Rescaling by `t / s`, where `s` squares to the variance, gives
      variance `t * t`. */
  lemma RescaledVariance(raws: seq<real>, mu: real, t: real, s: real)
    requires s != 0.0 && s * s == Stats.Variance(raws)
    ensures Stats.Variance(Rescaled(raws, mu, t / s)) == t * t
  {
    var k := t / s;
    assert k * s == t;
    RescaledVarianceScaled(raws, mu, k);
    TargetSquare(Stats.Variance(Rescaled(raws, mu, k)), k, t, s, Stats.Variance(raws));
  }

  lemma TargetSquare(w: real, k: real, t: real, s: real, v: real)
    requires k * s == t && s * s == v && w == Stats.SquareScaled(k, v)
    ensures w == t * t
  {
    assert k * k * (s * s) == (k * s) * (k * s);
  }

  lemma RescaledVarianceScaled(raws: seq<real>, mu: real, k: real)
    ensures Stats.Variance(Rescaled(raws, mu, k)) == Stats.SquareScaled(k, Stats.Variance(raws))
  {
    RescaledAffine(raws, mu, k);
    Stats.VarianceAffine(raws, Rescaled(raws, mu, k), 1.0 - mu * k, k);
  }

  lemma ZeroFactor(x: real, y: real)
    requires x * y == 0.0 && y != 0.0
    ensures x == 0.0
  {
    assert x == (x * y) / y;
  }

  lemma RootOfSquare(r: real, t: real)
    requires r >= 0.0 && r * r == t * t
    ensures r == Stats.Abs(t)
  {
    var a := Stats.Abs(t);
    assert a * a == t * t;
    assert (r - a) * (r + a) == r * r - a * a;
    if r + a != 0.0 {
      ZeroFactor(r - a, r + a);
    }
  }

  lemma RescaledStd(sqrt: real -> real, raws: seq<real>, mu: real, t: real, s: real, v: real)
    requires |raws| >= 2 && s != 0.0 && s * s == Stats.Variance(raws)
    requires v == t * t && Stats.IsRootOf(sqrt, v)
    ensures Stats.Std(sqrt, Rescaled(raws, mu, t / s)) == Stats.Abs(t)
  {
    RescaledVariance(raws, mu, t, s);
    StdOfVariance(sqrt, Rescaled(raws, mu, t / s), t, v);
  }

  lemma StdOfVariance(sqrt: real -> real, ys: seq<real>, t: real, v: real)
    requires |ys| >= 2 && Stats.Variance(ys) == v
    requires v == t * t && Stats.IsRootOf(sqrt, v)
    ensures Stats.Std(sqrt, ys) == Stats.Abs(t)
  {
    RootOfSquare(sqrt(v), t);
  }

  lemma ScaledOrder(x: real, y: real, mu: real, k: real)
    requires k != 0.0
    ensures k > 0.0 ==> (1.0 + (x - mu) * k <= 1.0 + (y - mu) * k <==> x <= y)
    ensures k < 0.0 ==> (1.0 + (x - mu) * k <= 1.0 + (y - mu) * k <==> y <= x)
  {
    assert (y - mu) * k - (x - mu) * k == (y - x) * k;
  }

  lemma QuotientSign(t: real, s: real)
    requires t != 0.0 && s > 0.0
    ensures t > 0.0 ==> t / s > 0.0
    ensures t < 0.0 ==> t / s < 0.0
  {
  }

  /** A positive scale keeps the order of the scores, a negative one
      reverses it. */
  lemma RescaledOrder(raws: seq<real>, mu: real, t: real, s: real)
    requires t != 0.0 && s > 0.0
    ensures forall i, j :: 0 <= i < |raws| && 0 <= j < |raws| ==>
      (t > 0.0 ==> (Rescaled(raws, mu, t / s)[i] <= Rescaled(raws, mu, t / s)[j] <==> raws[i] <= raws[j])) &&
      (t < 0.0 ==> (Rescaled(raws, mu, t / s)[i] <= Rescaled(raws, mu, t / s)[j] <==> raws[j] <= raws[i]))
  {
    QuotientSign(t, s);
    forall i, j | 0 <= i < |raws| && 0 <= j < |raws|
      ensures t > 0.0 ==> (Rescaled(raws, mu, t / s)[i] <= Rescaled(raws, mu, t / s)[j] <==> raws[i] <= raws[j])
      ensures t < 0.0 ==> (Rescaled(raws, mu, t / s)[i] <= Rescaled(raws, mu, t / s)[j] <==> raws[j] <= raws[i])
    {
      ScaledOrder(raws[i], raws[j], mu, t / s);
    }
  }

  /** The ratings average exactly 1 for any non-empty input. */
  lemma RescaleMean(sqrt: real -> real, raws: seq<real>, targetStd: real)
    requires |raws| > 0
    ensures Stats.Mean(Rescale(sqrt, raws, targetStd)) == 1.0
  {
    RescaledMean(raws, Stats.Mean(raws), EffectiveTarget(targetStd) / Stats.Spread(sqrt, raws));
  }

  /** With at least two raw scores that are not all equal and a true square
      root, the ratings have the target variance. */
  lemma RescaleVariance(sqrt: real -> real, raws: seq<real>, targetStd: real)
    requires |raws| >= 2 && !Stats.AllEqual(raws)
    requires Stats.IsRootOf(sqrt, Stats.Variance(raws))
    ensures Stats.Variance(Rescale(sqrt, raws, targetStd)) ==
      EffectiveTarget(targetStd) * EffectiveTarget(targetStd)
  {
    Stats.SpreadIsRoot(sqrt, raws);
    RescaledVariance(raws, Stats.Mean(raws), EffectiveTarget(targetStd), Stats.Spread(sqrt, raws));
  }

  /** Under the same conditions, and with `sqrt` a true square root at the
      target variance too, the standard deviation of the ratings is the
      magnitude of the target. */
  lemma RescaleStd(sqrt: real -> real, raws: seq<real>, targetStd: real)
    requires |raws| >= 2 && !Stats.AllEqual(raws)
    requires Stats.IsRootOf(sqrt, Stats.Variance(raws))
    requires Stats.IsRootOf(sqrt, EffectiveTarget(targetStd) * EffectiveTarget(targetStd))
    ensures Stats.Std(sqrt, Rescale(sqrt, raws, targetStd)) == Stats.Abs(EffectiveTarget(targetStd))
  {
    Stats.SpreadIsRoot(sqrt, raws);
    RescaledStd(sqrt, raws, Stats.Mean(raws), EffectiveTarget(targetStd), Stats.Spread(sqrt, raws),
      EffectiveTarget(targetStd) * EffectiveTarget(targetStd));
  }

  /** When the spread is positive (always so with a true square root), a
      positive target keeps the order of the raw scores, and a negative one
      reverses it. */
  lemma RescaleOrder(sqrt: real -> real, raws: seq<real>, targetStd: real)
    requires |raws| >= 2 ==> sqrt(Stats.Variance(raws)) >= 0.0
    ensures var ratings, t := Rescale(sqrt, raws, targetStd), EffectiveTarget(targetStd);
      forall i, j :: 0 <= i < |raws| && 0 <= j < |raws| ==>
        (t > 0.0 ==> (ratings[i] <= ratings[j] <==> raws[i] <= raws[j])) &&
        (t < 0.0 ==> (ratings[i] <= ratings[j] <==> raws[j] <= raws[i]))
  {
    RescaledOrder(raws, Stats.Mean(raws), EffectiveTarget(targetStd), Stats.Spread(sqrt, raws));
  }

  /** When every raw score is the same, every rating is 1. */
  lemma RescaleAllEqual(sqrt: real -> real, raws: seq<real>, targetStd: real)
    requires Stats.AllEqual(raws)
    ensures forall i :: 0 <= i < |raws| ==> Rescale(sqrt, raws, targetStd)[i] == 1.0
  {
    if |raws| > 0 {
      Stats.MeanOfConstant(raws, raws[0]);
    }
  }

  // ---------------------------------------------------------------------------
  // The ratings of `computeRatings`

  /** With distinct player names, a rated player's z-scores are its scores
      against its peers (the whole table, or the players of the same role
      when rating by role), and its contributions and raw score are computed
      from them. */
  lemma RatedAgainstPeers(sqrt: real -> real, rows: seq<Players.Player>, w: map<string, real>,
                          byRole: bool, targetStd: real, i: nat)
    requires Standardize.DistinctNames(rows) && i < |rows|
    ensures var rated := ComputeRatings(sqrt, rows, w, byRole, targetStd);
      var ds := Standardize.DerivedRows(rows);
      var pz := Standardize.PeerRow(sqrt, Standardize.Peers(ds, i, byRole), ds[i]);
      rated[i].z == pz && rated[i].contrib == Contributions(w, pz) && rated[i].rawSum == RawSum(w, pz)
  {
    Standardize.StandardizedRowAgainstPeers(sqrt, rows, byRole, i);
  }

  /** The average rating is exactly 1 for any non-empty input. */
  lemma RatingsAverageOne(sqrt: real -> real, rows: seq<Players.Player>, w: map<string, real>,
                          byRole: bool, targetStd: real)
    requires |rows| > 0
    ensures Stats.Mean(Ratings(ComputeRatings(sqrt, rows, w, byRole, targetStd))) == 1.0
  {
    var rated := ComputeRatings(sqrt, rows, w, byRole, targetStd);
    RescaleMean(sqrt, RawSums(rated), targetStd);
  }

  /** With at least two players whose raw scores differ and a true square
      root, the ratings' standard deviation is the target's magnitude (and
      the target itself, which is 0.15 by default, when it is positive). */
  lemma RatingsSpreadIsTarget(sqrt: real -> real, rows: seq<Players.Player>, w: map<string, real>,
                              byRole: bool, targetStd: real)
    requires |rows| >= 2
    requires var sums := RawSums(ComputeRatings(sqrt, rows, w, byRole, targetStd));
      !Stats.AllEqual(sums) && Stats.IsRootOf(sqrt, Stats.Variance(sums))
    requires Stats.IsRootOf(sqrt, EffectiveTarget(targetStd) * EffectiveTarget(targetStd))
    ensures Stats.Std(sqrt, Ratings(ComputeRatings(sqrt, rows, w, byRole, targetStd))) ==
      Stats.Abs(EffectiveTarget(targetStd))
  {
    var rated := ComputeRatings(sqrt, rows, w, byRole, targetStd);
    RescaleStd(sqrt, RawSums(rated), targetStd);
  }

  /** With a positive target and a true square root, one player rates at
      most another exactly when their raw score is at most the other's. */
  lemma RatingsFollowRawSums(sqrt: real -> real, rows: seq<Players.Player>, w: map<string, real>,
                             byRole: bool, targetStd: real, i: nat, j: nat)
    requires targetStd >= 0.0 && i < |rows| && j < |rows|
    requires var sums := RawSums(ComputeRatings(sqrt, rows, w, byRole, targetStd));
      |rows| >= 2 ==> sqrt(Stats.Variance(sums)) >= 0.0
    ensures var rated := ComputeRatings(sqrt, rows, w, byRole, targetStd);
      rated[i].rating <= rated[j].rating <==> rated[i].rawSum <= rated[j].rawSum
  {
    var rated := ComputeRatings(sqrt, rows, w, byRole, targetStd);
    RescaleOrder(sqrt, RawSums(rated), targetStd);
    assert Ratings(rated)[i] == rated[i].rating && Ratings(rated)[j] == rated[j].rating;
    assert RawSums(rated)[i] == rated[i].rawSum && RawSums(rated)[j] == rated[j].rawSum;
  }
}
