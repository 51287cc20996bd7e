/** Descriptive statistics used by the rating pipeline: the population mean and
    standard deviation, the "robust" z-score (which is a plain mean/std z-score)
    and rounding to two decimals, with the small numeric idioms the application
    uses everywhere (`||` as a default, `Math.max`, `Math.abs`). Numbers are reals; `Math.sqrt` is code the
    model cannot see, so it is passed in as the parameter `sqrt`. */
module Stats {

  /** `x || d` on numbers: `d` when `x` is 0. */
  function Or(x: real, d: real): real
  {
    if x == 0.0 then d else x
  }

  /** `Math.max` of two numbers. */
  function Max(a: real, b: real): real
  {
    if a >= b then a else b
  }

  /** `Math.abs`. */
  function Abs(x: real): real
  {
    if x >= 0.0 then x else -x
  }

  /** Sum of a sequence, left to right. */
  function Sum(xs: seq<real>): real
    decreases |xs|
  {
    if xs == [] then 0.0 else xs[0] + Sum(xs[1..])
  }

  /** `mean`: the arithmetic mean, or 0 for an empty array. */
  function Mean(xs: seq<real>): real
  {
    if |xs| == 0 then 0.0 else Sum(xs) / (|xs| as real)
  }

  function Square(u: real): real
  {
    u * u
  }

  function SquaredDeviations(xs: seq<real>, m: real): (d: seq<real>)
    ensures |d| == |xs|
  {
    seq(|xs|, i requires 0 <= i < |xs| => Square(xs[i] - m))
  }

  /** Population variance: the mean of the squared deviations from the mean. */
  function Variance(xs: seq<real>): real
  {
    Mean(SquaredDeviations(xs, Mean(xs)))
  }

  /** `std`: 0 for fewer than two values, otherwise the square root of the
      population variance. */
  function Std(sqrt: real -> real, xs: seq<real>): real
  {
    if |xs| <= 1 then 0.0 else sqrt(Variance(xs))
  }

  /** The fallback spread used when a standard deviation is zero. */
  const Epsilon: real := 0.000001

  /** `std(values) || 1e-6`: the divisor of a z-score, never zero. */
  function Spread(sqrt: real -> real, xs: seq<real>): (s: real)
    ensures s != 0.0
    ensures s == Std(sqrt, xs) || (s == Epsilon && Std(sqrt, xs) == 0.0)
  {
    var sd := Std(sqrt, xs);
    if sd == 0.0 then Epsilon else sd
  }

  /** `(v - m) / s` for each value `v` of `xs`. */
  function Standardized(xs: seq<real>, m: real, s: real): (z: seq<real>)
    requires s != 0.0
    ensures |z| == |xs|
  {
    seq(|xs|, i requires 0 <= i < |xs| => (xs[i] - m) / s)
  }

  /** `robustZ`: each value's z-score against the mean and spread of the whole
      sequence. */
  function RobustZ(sqrt: real -> real, xs: seq<real>): (z: seq<real>)
    ensures |z| == |xs|
  {
    Standardized(xs, Mean(xs), Spread(sqrt, xs))
  }

  /** `sqrt` behaves as the square root at `v`. */
  predicate IsRootOf(sqrt: real -> real, v: real)
  {
    sqrt(v) >= 0.0 && sqrt(v) * sqrt(v) == v
  }

  predicate AllEqual(xs: seq<real>)
  {
    forall i, j :: 0 <= i < |xs| && 0 <= j < |xs| ==> xs[i] == xs[j]
  }

  /** `round2`: `Math.round(x * 100) / 100`, where `Math.round` rounds halves
      towards positive infinity. */
  function Round2(x: real): (r: real)
    ensures x - 0.005 < r <= x + 0.005
    ensures (r * 100.0).Floor as real == r * 100.0
  {
    ((x * 100.0 + 0.5).Floor as real) / 100.0
  }

  // ---------------------------------------------------------------------------
  // Small facts of real arithmetic, kept apart so that each proof sees one

  lemma CancelFactor(a: real, b: real)
    requires a != 0.0
    ensures (a * b) / a == b
  {
  }

  /** Only zero squares to zero. */
  lemma ZeroSquare(u: real)
    requires u * u == 0.0
    ensures u == 0.0
  {
    if u != 0.0 {
      CancelFactor(u, u);
    }
  }

  lemma DeviationPositive(xs: seq<real>, m: real, k: nat)
    requires k < |xs| && xs[k] != m
    ensures SquaredDeviations(xs, m)[k] > 0.0
  {
    SquareNonNegative(xs[k] - m);
    if SquaredDeviations(xs, m)[k] == 0.0 {
      ZeroSquare(xs[k] - m);
    }
  }

  lemma SquareOfProduct(b: real, u: real)
    ensures (b * u) * (b * u) == (b * b) * (u * u)
  {
  }

  lemma ScaledDifference(a: real, b: real, x: real, y: real)
    ensures (a + b * x) - (a + b * y) == b * (x - y)
  {
  }

  /** Shifting by `a` and scaling by `b` scales a squared deviation by `b * b`. */
  lemma ScaledSquaredDeviation(x: real, y: real, mx: real, my: real, a: real, b: real)
    requires y == a + b * x && my == a + b * mx
    ensures (y - my) * (y - my) == 0.0 + (b * b) * ((x - mx) * (x - mx))
  {
    ScaledDifference(a, b, x, mx);
    SquareOfProduct(b, x - mx);
  }

  lemma NonZeroRoot(r: real, v: real)
    requires r * r == v && v > 0.0
    ensures r != 0.0
  {
  }

  lemma InverseSquare(s: real, v: real)
    requires s != 0.0 && s * s == v
    ensures (1.0 / s) * (1.0 / s) * v == 1.0
  {
  }

  /** `v` times the square of `k`; a function of its own so that the
      product is matched as a whole. */
  function SquareScaled(k: real, v: real): real
  {
    k * k * v
  }

  lemma ScaledToOne(w: real, s: real, v: real)
    requires s != 0.0 && s * s == v && w == SquareScaled(1.0 / s, v)
    ensures w == 1.0
  {
    InverseSquare(s, v);
  }

  lemma DivideSum(n: real, a: real, b: real, t: real)
    requires n != 0.0
    ensures (n * a + b * t) / n == a + b * (t / n)
  {
  }

  lemma CountTimesMean(xs: seq<real>, n: real)
    requires |xs| > 0 && n == |xs| as real
    ensures n * Mean(xs) == Sum(xs)
  {
  }

  lemma CenteredSumZero(n: real, m: real, s: real, total: real)
    requires n != 0.0 && s != 0.0 && total == n * m
    ensures n * (0.0 - m / s) + (1.0 / s) * total == 0.0
  {
    assert n * (0.0 - m / s) == 0.0 - (n * m) / s;
    assert (1.0 / s) * total == (n * m) / s;
  }

  lemma DivideAffine(x: real, m: real, s: real)
    requires s != 0.0
    ensures (x - m) / s == (0.0 - m / s) + (1.0 / s) * x
  {
  }

  // ---------------------------------------------------------------------------
  // Sums of affinely related sequences

  lemma {:induction false} SumAffine(xs: seq<real>, ys: seq<real>, a: real, b: real)
    requires |ys| == |xs|
    requires forall i :: 0 <= i < |xs| ==> ys[i] == a + b * xs[i]
    ensures Sum(ys) == (|xs| as real) * a + b * Sum(xs)
  {
    if xs != [] {
      SumAffine(xs[1..], ys[1..], a, b);
      assert b * Sum(xs) == b * xs[0] + b * Sum(xs[1..]);
    }
  }

  lemma {:induction false} SumNonNegative(xs: seq<real>)
    requires forall i :: 0 <= i < |xs| ==> xs[i] >= 0.0
    ensures Sum(xs) >= 0.0
  {
    if xs != [] {
      SumNonNegative(xs[1..]);
    }
  }

  lemma {:induction false} SumPositive(xs: seq<real>, k: nat)
    requires forall i :: 0 <= i < |xs| ==> xs[i] >= 0.0
    requires k < |xs| && xs[k] > 0.0
    ensures Sum(xs) > 0.0
  {
    if k == 0 {
      SumNonNegative(xs[1..]);
    } else {
      SumPositive(xs[1..], k - 1);
    }
  }

  lemma {:induction false} SumConstant(xs: seq<real>, c: real)
    requires forall i :: 0 <= i < |xs| ==> xs[i] == c
    ensures Sum(xs) == (|xs| as real) * c
  {
    if xs != [] {
      SumConstant(xs[1..], c);
    }
  }

  /** The mean of an affine image is the affine image of the mean. */
  lemma MeanAffine(xs: seq<real>, ys: seq<real>, a: real, b: real)
    requires |ys| == |xs| > 0
    requires forall i :: 0 <= i < |xs| ==> ys[i] == a + b * xs[i]
    ensures Mean(ys) == a + b * Mean(xs)
  {
    SumAffine(xs, ys, a, b);
    DivideSum(|xs| as real, a, b, Sum(xs));
  }

  /** Scaling a sequence by `b` and shifting it scales its variance by `b * b`. */
  lemma VarianceAffine(xs: seq<real>, ys: seq<real>, a: real, b: real)
    requires |ys| == |xs|
    requires forall i :: 0 <= i < |xs| ==> ys[i] == a + b * xs[i]
    ensures Variance(ys) == SquareScaled(b, Variance(xs))
  {
    if |xs| > 0 {
      MeanAffine(xs, ys, a, b);
      DeviationsAffine(xs, ys, a, b, Mean(xs), Mean(ys));
    }
  }

  /** The mean squared deviation from `my` is `b * b` times the one from `mx`. */
  lemma DeviationsAffine(xs: seq<real>, ys: seq<real>, a: real, b: real, mx: real, my: real)
    requires |ys| == |xs| > 0
    requires forall i :: 0 <= i < |xs| ==> ys[i] == a + b * xs[i]
    requires my == a + b * mx
    ensures Mean(SquaredDeviations(ys, my)) == SquareScaled(b, Mean(SquaredDeviations(xs, mx)))
  {
    var c := b * b;
    SquaredDeviationsAffine(xs, ys, a, b, c, mx, my);
    MeanAffine(SquaredDeviations(xs, mx), SquaredDeviations(ys, my), 0.0, c);
    ScaledBySquare(Mean(SquaredDeviations(ys, my)), Mean(SquaredDeviations(xs, mx)), b, c);
  }

  lemma ScaledBySquare(vy: real, vx: real, b: real, c: real)
    requires c == b * b && vy == 0.0 + c * vx
    ensures vy == SquareScaled(b, vx)
  {
  }

  lemma SquaredDeviationsAffine(xs: seq<real>, ys: seq<real>, a: real, b: real, c: real, mx: real, my: real)
    requires |ys| == |xs|
    requires forall i :: 0 <= i < |xs| ==> ys[i] == a + b * xs[i]
    requires my == a + b * mx && c == b * b
    ensures forall i :: 0 <= i < |xs| ==>
      SquaredDeviations(ys, my)[i] == 0.0 + c * SquaredDeviations(xs, mx)[i]
  {
    forall i | 0 <= i < |xs|
      ensures SquaredDeviations(ys, my)[i] == 0.0 + c * SquaredDeviations(xs, mx)[i]
    {
      ScaledSquaredDeviation(xs[i], ys[i], mx, my, a, b);
    }
  }

  /** The mean of a non-empty sequence lies between its extremes; in particular
      a sequence whose values all equal `c` has mean `c`. */
  lemma MeanOfConstant(xs: seq<real>, c: real)
    requires |xs| > 0
    requires forall i :: 0 <= i < |xs| ==> xs[i] == c
    ensures Mean(xs) == c
  {
    SumConstant(xs, c);
  }

  lemma SquareNonNegative(u: real)
    ensures u * u >= 0.0
  {
  }

  lemma SquaredDeviationsNonNegative(xs: seq<real>, m: real)
    ensures forall i :: 0 <= i < |xs| ==> SquaredDeviations(xs, m)[i] >= 0.0
  {
    forall i | 0 <= i < |xs|
      ensures SquaredDeviations(xs, m)[i] >= 0.0
    {
      SquareNonNegative(xs[i] - m);
    }
  }

  lemma VarianceNonNegative(xs: seq<real>)
    ensures Variance(xs) >= 0.0
  {
    SquaredDeviationsNonNegative(xs, Mean(xs));
    SumNonNegative(SquaredDeviations(xs, Mean(xs)));
  }

  lemma ConstantVarianceZero(xs: seq<real>)
    requires AllEqual(xs)
    ensures Variance(xs) == 0.0
  {
    if |xs| > 0 {
      MeanOfConstant(xs, xs[0]);
      var d := SquaredDeviations(xs, xs[0]);
      forall i | 0 <= i < |d|
        ensures d[i] == 0.0
      {
        assert xs[i] - xs[0] == 0.0;
      }
      SumConstant(d, 0.0);
    }
  }

  lemma VariancePositive(xs: seq<real>)
    requires !AllEqual(xs)
    ensures Variance(xs) > 0.0
  {
    var m := Mean(xs);
    var d := SquaredDeviations(xs, m);
    SquaredDeviationsNonNegative(xs, m);
    var i, j :| 0 <= i < |xs| && 0 <= j < |xs| && xs[i] != xs[j];
    var k := if xs[i] != m then i else j;
    DeviationPositive(xs, m, k);
    SumPositive(d, k);
    assert Variance(xs) == Sum(d) / (|xs| as real);
  }

  /** The population variance is zero exactly when all values are equal. */
  lemma VarianceZeroIff(xs: seq<real>)
    ensures Variance(xs) >= 0.0
    ensures Variance(xs) == 0.0 <==> AllEqual(xs)
  {
    VarianceNonNegative(xs);
    if AllEqual(xs) {
      ConstantVarianceZero(xs);
    } else {
      VariancePositive(xs);
    }
  }

  // ---------------------------------------------------------------------------
  // Properties of the z-scores

  lemma StandardizedAffine(xs: seq<real>, m: real, s: real)
    requires s != 0.0
    ensures forall i :: 0 <= i < |xs| ==>
      Standardized(xs, m, s)[i] == (0.0 - m / s) + (1.0 / s) * xs[i]
  {
    forall i | 0 <= i < |xs|
      ensures Standardized(xs, m, s)[i] == (0.0 - m / s) + (1.0 / s) * xs[i]
    {
      DivideAffine(xs[i], m, s);
    }
  }

  /** Values standardized against their own mean sum to zero. */
  lemma StandardizedSum(xs: seq<real>, m: real, s: real)
    requires s != 0.0 && m == Mean(xs)
    ensures Sum(Standardized(xs, m, s)) == 0.0
  {
    StandardizedAffine(xs, m, s);
    SumAffine(xs, Standardized(xs, m, s), 0.0 - m / s, 1.0 / s);
    if |xs| > 0 {
      CountTimesMean(xs, |xs| as real);
      CenteredSumZero(|xs| as real, m, s, Sum(xs));
    }
  }

  /** Dividing by `s` scales the variance by `1 / s` squared. */
  lemma StandardizedVariance(xs: seq<real>, m: real, s: real)
    requires s != 0.0
    ensures Variance(Standardized(xs, m, s)) == SquareScaled(1.0 / s, Variance(xs))
  {
    StandardizedAffine(xs, m, s);
    VarianceAffine(xs, Standardized(xs, m, s), 0.0 - m / s, 1.0 / s);
  }

  /** Dividing by a square root of the variance gives unit variance. */
  lemma StandardizedUnitVariance(xs: seq<real>, m: real, s: real)
    requires s != 0.0 && s * s == Variance(xs)
    ensures Variance(Standardized(xs, m, s)) == 1.0
  {
    StandardizedVariance(xs, m, s);
    ScaledToOne(Variance(Standardized(xs, m, s)), s, Variance(xs));
  }

  /** The z-scores of a group sum to zero. */
  lemma ZScoresSumToZero(sqrt: real -> real, xs: seq<real>)
    ensures Sum(RobustZ(sqrt, xs)) == 0.0
  {
    StandardizedSum(xs, Mean(xs), Spread(sqrt, xs));
  }

  /** When the spread is the true standard deviation of a group that is not
      constant, its z-scores have unit variance. */
  lemma ZScoresUnitVariance(sqrt: real -> real, xs: seq<real>)
    requires |xs| >= 2 && !AllEqual(xs)
    requires IsRootOf(sqrt, Variance(xs))
    ensures Variance(RobustZ(sqrt, xs)) == 1.0
  {
    SpreadIsRoot(sqrt, xs);
    StandardizedUnitVariance(xs, Mean(xs), Spread(sqrt, xs));
  }

  /** With at least two values that are not all equal and a true square root,
      the spread squares to the variance. */
  lemma SpreadIsRoot(sqrt: real -> real, xs: seq<real>)
    requires |xs| >= 2 && !AllEqual(xs)
    requires IsRootOf(sqrt, Variance(xs))
    ensures Spread(sqrt, xs) * Spread(sqrt, xs) == Variance(xs)
  {
    var v := Variance(xs);
    VariancePositive(xs);
    NonZeroRoot(sqrt(v), v);
  }

  /** A constant group has standard deviation zero, falls back to the epsilon
      spread, and every z-score is zero. */
  lemma ConstantGroupZScores(sqrt: real -> real, xs: seq<real>)
    requires AllEqual(xs)
    requires |xs| >= 2 ==> IsRootOf(sqrt, 0.0)
    ensures Spread(sqrt, xs) == Epsilon
    ensures forall i :: 0 <= i < |xs| ==> RobustZ(sqrt, xs)[i] == 0.0
  {
    ConstantVarianceZero(xs);
    if |xs| >= 2 {
      ZeroSquare(sqrt(0.0));
    }
    if |xs| > 0 {
      MeanOfConstant(xs, xs[0]);
      forall i | 0 <= i < |xs|
        ensures RobustZ(sqrt, xs)[i] == 0.0
      {
        assert xs[i] - Mean(xs) == 0.0;
      }
    }
  }

  // ---------------------------------------------------------------------------
  // A z-score against the value it scores

  function Squares(xs: seq<real>): (q: seq<real>)
    ensures |q| == |xs|
  {
    seq(|xs|, i requires 0 <= i < |xs| => Square(xs[i]))
  }

  /** The sum of the values other than the one at `k`. */
  function OthersSum(xs: seq<real>, k: nat): real
    requires k < |xs|
  {
    Sum(xs) - xs[k]
  }

  /** The sum of the squares of the values other than the one at `k`. */
  function OthersSquares(xs: seq<real>, k: nat): real
    requires k < |xs|
  {
    Sum(Squares(xs)) - xs[k] * xs[k]
  }

  /** (n - 1) times the sum of the squared deviations of the other values from
      their own mean: the part of the variance the value at `k` cannot move. */
  function Residual(xs: seq<real>, k: nat): real
    requires k < |xs|
  {
    OthersSquares(xs, k) * ((|xs| as real) - 1.0) - OthersSum(xs, k) * OthersSum(xs, k)
  }

  lemma {:induction false} SumLinear(xs: seq<real>, ys: seq<real>, zs: seq<real>, a: real, b: real, n: real)
    requires |ys| == |xs| && |zs| == |xs| && n == |xs| as real
    requires forall i {:trigger zs[i]} :: 0 <= i < |xs| ==> zs[i] == xs[i] + a * ys[i] + b
    ensures Sum(zs) == Sum(xs) + a * Sum(ys) + n * b
  {
    if xs != [] {
      SumLinear(xs[1..], ys[1..], zs[1..], a, b, n - 1.0);
      assert a * Sum(ys) == a * ys[0] + a * Sum(ys[1..]);
    }
  }

  lemma ExpandSquare(d: real, q: real, x: real, m: real, a: real, b: real)
    requires d == (x - m) * (x - m) && q == x * x && a == -2.0 * m && b == m * m
    ensures d == q + a * x + b
  {
  }

  /** The squared deviations sum to the sum of the squares, plus `a` times
      the sum, plus `n` times `b`, where `a` is -2m and `b` is m squared. */
  lemma SquaredDeviationsSum(xs: seq<real>, m: real, n: real, a: real, b: real)
    requires n == |xs| as real && a == -2.0 * m && b == m * m
    ensures Sum(SquaredDeviations(xs, m)) == Sum(Squares(xs)) + a * Sum(xs) + n * b
  {
    DeviationTerms(xs, m, a, b);
    SumLinear(Squares(xs), xs, SquaredDeviations(xs, m), a, b, n);
  }

  lemma DeviationTerms(xs: seq<real>, m: real, a: real, b: real)
    requires a == -2.0 * m && b == m * m
    ensures forall i {:trigger SquaredDeviations(xs, m)[i]} :: 0 <= i < |xs| ==>
      SquaredDeviations(xs, m)[i] == Squares(xs)[i] + a * xs[i] + b
  {
    forall i | 0 <= i < |xs|
      ensures SquaredDeviations(xs, m)[i] == Squares(xs)[i] + a * xs[i] + b
    {
      ExpandSquare(SquaredDeviations(xs, m)[i], Squares(xs)[i], xs[i], m, a, b);
    }
  }

  lemma QuotientTimes(v: real, q: real, n: real)
    requires n != 0.0 && v == q / n
    ensures v * n == q
  {
  }

  lemma SquaresByMean(n: real, m: real, a: real, b: real, total: real, squares: real, q: real)
    requires a == -2.0 * m && b == m * m && total == n * m && q == squares + a * total + n * b
    ensures q == squares - n * b
  {
  }

  /** The squared deviations from the mean sum to the sum of the squares less
      n times the squared mean. */
  lemma SquaredDeviationsFromMean(xs: seq<real>, n: real)
    requires |xs| > 0 && n == |xs| as real
    ensures Sum(SquaredDeviations(xs, Mean(xs))) == Sum(Squares(xs)) - n * (Mean(xs) * Mean(xs))
  {
    SquaredDeviationsSum(xs, Mean(xs), n, -2.0 * Mean(xs), Mean(xs) * Mean(xs));
    CountTimesMean(xs, n);
    SquaresByMean(n, Mean(xs), -2.0 * Mean(xs), Mean(xs) * Mean(xs), Sum(xs), Sum(Squares(xs)),
                  Sum(SquaredDeviations(xs, Mean(xs))));
  }

  /** n times the variance is the sum of the squared deviations. */
  lemma VarianceTimesCount(xs: seq<real>, n: real)
    requires |xs| > 0 && n == |xs| as real
    ensures Variance(xs) * n == Sum(SquaredDeviations(xs, Mean(xs)))
  {
    var d := SquaredDeviations(xs, Mean(xs));
    assert Variance(xs) == Sum(d) / n by {
      assert |d| as real == n;
    }
    QuotientTimes(Variance(xs), Sum(d), n);
  }

  /** n times the variance is the sum of the squares less n times the squared
      mean. */
  lemma VarianceBySquares(xs: seq<real>, n: real)
    requires |xs| > 0 && n == |xs| as real
    ensures Variance(xs) * n == Sum(Squares(xs)) - n * (Mean(xs) * Mean(xs))
  {
    SquaredDeviationsFromMean(xs, n);
    VarianceTimesCount(xs, n);
  }

  /** Replacing one value changes the sum by that value alone. */
  lemma {:induction false} SumReplace(xs: seq<real>, k: nat, y: real)
    requires k < |xs|
    ensures Sum(xs[k := y]) == Sum(xs) - xs[k] + y
  {
    if k == 0 {
      assert xs[k := y][1..] == xs[1..];
    } else {
      SumReplace(xs[1..], k - 1, y);
      assert xs[k := y][1..] == xs[1..][k - 1 := y];
    }
  }

  lemma SquaresReplace(xs: seq<real>, k: nat, y: real)
    requires k < |xs|
    ensures Sum(Squares(xs[k := y])) == Sum(Squares(xs)) - xs[k] * xs[k] + y * y
  {
    var after, replaced := Squares(xs[k := y]), Squares(xs)[k := y * y];
    assert forall i :: 0 <= i < |after| ==> after[i] == replaced[i];
    assert after == replaced;
    SumReplace(Squares(xs), k, y * y);
  }

  lemma ResidualReplace(xs: seq<real>, k: nat, y: real)
    requires k < |xs|
    ensures OthersSum(xs[k := y], k) == OthersSum(xs, k)
    ensures Residual(xs[k := y], k) == Residual(xs, k)
  {
    SumReplace(xs, k, y);
    SquaresReplace(xs, k, y);
  }

  /** `v` scaled by `kk` is the residual `r` plus `n` times the square of `d`. */
  predicate SplitsAs(v: real, kk: real, r: real, n: real, d: real)
  {
    v * kk == r + n * (d * d)
  }

  lemma VarianceSplitCore(n: real, x: real, m: real, q: real, t: real, v: real, d: real)
    requires n >= 2.0 && t == n * m - x && d == x - m
    requires v * n == q - n * (m * m)
    ensures SplitsAs(v, n * (n - 1.0), (q - x * x) * (n - 1.0) - t * t, n, d)
  {
    var p := q - x * x;
    assert v * (n * (n - 1.0)) == (v * n) * (n - 1.0);
    assert v * n * (n - 1.0) == (p + x * x - n * (m * m)) * (n - 1.0);
    assert t * t == n * n * (m * m) - 2.0 * n * m * x + x * x;
    assert n * (d * d) == n * (x * x) - 2.0 * n * m * x + n * (m * m);
  }

  /** The variance splits into the residual of the other values and the
      squared deviation of the value at `k`. */
  lemma VarianceSplit(xs: seq<real>, k: nat, n: real)
    requires |xs| >= 2 && k < |xs| && n == |xs| as real
    ensures SplitsAs(Variance(xs), n * (n - 1.0), Residual(xs, k), n, xs[k] - Mean(xs))
  {
    VarianceBySquares(xs, n);
    MomentsSplit(xs, k, n, Variance(xs));
  }

  /** The split, for any `v` that is the variance by the sum of squares. */
  lemma MomentsSplit(xs: seq<real>, k: nat, n: real, v: real)
    requires |xs| >= 2 && k < |xs| && n == |xs| as real
    requires v * n == Sum(Squares(xs)) - n * (Mean(xs) * Mean(xs))
    ensures SplitsAs(v, n * (n - 1.0), Residual(xs, k), n, xs[k] - Mean(xs))
  {
    CountTimesMean(xs, n);
    ResidualAt(xs, k, n);
    VarianceSplitCore(n, xs[k], Mean(xs), Sum(Squares(xs)), OthersSum(xs, k), v, xs[k] - Mean(xs));
  }

  lemma ResidualAt(xs: seq<real>, k: nat, n: real)
    requires k < |xs| && n == |xs| as real
    ensures Residual(xs, k) == (Sum(Squares(xs)) - xs[k] * xs[k]) * (n - 1.0) - OthersSum(xs, k) * OthersSum(xs, k)
  {
  }

  /** n times the deviation of the value at `k` is (n - 1) times that value
      less the sum of the others. */
  lemma DeviationByOthers(xs: seq<real>, k: nat, n: real)
    requires k < |xs| && n == |xs| as real
    ensures n * (xs[k] - Mean(xs)) == (n - 1.0) * xs[k] - OthersSum(xs, k)
  {
    CountTimesMean(xs, n);
  }

  lemma ZeroDeviation(n: real, d: real, c: real, t: real)
    requires n >= 2.0 && c == t / (n - 1.0) && n * d == (n - 1.0) * c - t
    ensures d == 0.0
  {
    assert (n - 1.0) * c == t;
  }

  lemma ZeroScaledSquare(n: real, d: real)
    requires d == 0.0
    ensures n * (d * d) == 0.0
  {
  }

  lemma ResidualOfVariance(v: real, n: real, r: real, d: real)
    requires n >= 2.0 && v >= 0.0 && d == 0.0 && SplitsAs(v, n * (n - 1.0), r, n, d)
    ensures r >= 0.0
    ensures v > 0.0 ==> r > 0.0
  {
    ZeroScaledSquare(n, d);
    PositiveProduct(n, n - 1.0);
    if v > 0.0 {
      PositiveProduct(v, n * (n - 1.0));
    } else {
      assert v == 0.0;
    }
  }

  /** When the value at `k` is the mean of the others, it is the mean of all. */
  lemma OthersMeanDeviation(zs: seq<real>, k: nat, n: real, t: real, c: real)
    requires |zs| >= 2 && k < |zs| && n == |zs| as real
    requires zs[k] == c && OthersSum(zs, k) == t && c == t / (n - 1.0)
    ensures zs[k] - Mean(zs) == 0.0
  {
    DeviationByOthers(zs, k, n);
    ZeroDeviation(n, zs[k] - Mean(zs), c, t);
  }

  lemma DeviationOrder(n: real, x: real, y: real, t: real, d1: real, d2: real)
    requires n >= 2.0 && x <= y
    requires n * d1 == (n - 1.0) * x - t && n * d2 == (n - 1.0) * y - t
    ensures d1 <= d2
    ensures x < y ==> d1 < d2
  {
    assert n * (d2 - d1) == (n - 1.0) * (y - x);
  }

  /** Two of the values other than the one at `k` differ. */
  predicate OthersDiffer(xs: seq<real>, k: nat)
  {
    exists i, j :: 0 <= i < |xs| && 0 <= j < |xs| && i != k && j != k && xs[i] != xs[j]
  }

  /** The residual is never negative, and it is positive when two of the
      other values differ. */
  lemma ResidualSign(xs: seq<real>, k: nat)
    requires |xs| >= 2 && k < |xs|
    ensures Residual(xs, k) >= 0.0
    ensures OthersDiffer(xs, k) ==> Residual(xs, k) > 0.0
  {
    var n, t := |xs| as real, OthersSum(xs, k);
    var c := t / (n - 1.0);
    var zs := xs[k := c];
    ResidualReplace(xs, k, c);
    OthersMeanDeviation(zs, k, n, t, c);
    VarianceSplit(zs, k, n);
    VarianceNonNegative(zs);
    ResidualOfVariance(Variance(zs), n, Residual(zs, k), zs[k] - Mean(zs));
    if OthersDiffer(xs, k) {
      var i, j :| 0 <= i < |xs| && 0 <= j < |xs| && i != k && j != k && xs[i] != xs[j];
      assert zs[i] != zs[j];
      assert !AllEqual(zs);
      VariancePositive(zs);
    }
  }

  /** The spread is always positive when `sqrt` is a root of the variance. */
  lemma SpreadPositive(sqrt: real -> real, xs: seq<real>)
    requires |xs| >= 2 ==> IsRootOf(sqrt, Variance(xs))
    ensures Spread(sqrt, xs) > 0.0
  {
  }

  /** The spread is positive, and when the value at `k` is off the mean the
      variance is positive and the spread is its square root. */
  lemma SpreadOfGroup(sqrt: real -> real, xs: seq<real>, k: nat)
    requires |xs| >= 2 && k < |xs|
    requires IsRootOf(sqrt, Variance(xs))
    ensures Spread(sqrt, xs) > 0.0
    ensures xs[k] != Mean(xs) ==> Spread(sqrt, xs) * Spread(sqrt, xs) == Variance(xs)
  {
    SpreadPositive(sqrt, xs);
    if xs[k] != Mean(xs) {
      assert !AllEqual(xs) by {
        if AllEqual(xs) {
          MeanOfConstant(xs, xs[k]);
        }
      }
      SpreadIsRoot(sqrt, xs);
    }
  }

  lemma PositiveProduct(x: real, y: real)
    requires x > 0.0 && y > 0.0
    ensures x * y > 0.0
  {
  }

  lemma NonNegativeProduct(x: real, y: real)
    requires x >= 0.0 && y >= 0.0
    ensures x * y >= 0.0
  {
  }

  lemma ScaleMonotone(a: real, b: real, c: real)
    requires a <= b && c >= 0.0
    ensures a * c <= b * c
  {
    NonNegativeProduct(b - a, c);
    assert b * c - a * c == (b - a) * c;
  }

  lemma ScaleStrict(a: real, b: real, c: real)
    requires a < b && c > 0.0
    ensures a * c < b * c
  {
    PositiveProduct(b - a, c);
    assert b * c - a * c == (b - a) * c;
  }

  lemma SquareMonotone(a: real, b: real)
    requires 0.0 <= a <= b
    ensures a * a <= b * b
    ensures a < b ==> a * a < b * b
  {
    assert b * b - a * a == (b - a) * (b + a);
    NonNegativeProduct(b - a, b + a);
    if a < b {
      PositiveProduct(b - a, b + a);
    }
  }

  lemma RootMonotone(a: real, b: real)
    requires a > 0.0 && b > 0.0 && a * a <= b * b
    ensures a <= b
    ensures a * a < b * b ==> a < b
  {
    if a >= b {
      SquareMonotone(b, a);
    }
  }

  lemma ScaleOrder(r: real, q1: real, q2: real, e: real, f1: real, f2: real)
    requires r >= 0.0 && q1 <= q2 && f1 == q1 * r + e && f2 == q2 * r + e
    ensures f1 <= f2
    ensures r > 0.0 && q1 < q2 ==> f1 < f2
  {
    ScaleMonotone(q1, q2, r);
    if r > 0.0 && q1 < q2 {
      ShiftStrict(r, q1, q2, e, f1, f2);
    }
  }

  lemma ShiftStrict(r: real, q1: real, q2: real, e: real, f1: real, f2: real)
    requires r > 0.0 && q1 < q2 && f1 == q1 * r + e && f2 == q2 * r + e
    ensures f1 < f2
  {
    ScaleStrict(q1, q2, r);
  }

  lemma CrossSquares(d: real, s: real, v: real, a: real)
    requires s * s == v && a == d * s
    ensures a * a == (d * d) * v
  {
  }

  /** `kk` times a squared cross product, where `v * kk` is the residual plus
      `n` times a square. */
  lemma CrossStep(kk: real, q: real, v: real, aa: real, r: real, n: real, q2: real, e: real)
    requires aa == q * v && v * kk == r + n * q2 && e == n * (q * q2)
    ensures kk * aa == q * r + e
  {
    assert kk * aa == q * (v * kk);
  }

  lemma DivideOrder(a: real, b: real, p: real)
    requires p > 0.0 && a <= b
    ensures a / p <= b / p
    ensures a < b ==> a / p < b / p
  {
  }

  lemma QuotientsAsProducts(d1: real, s1: real, d2: real, s2: real)
    requires s1 > 0.0 && s2 > 0.0
    ensures d1 / s1 == (d1 * s2) / (s1 * s2) && d2 / s2 == (d2 * s1) / (s1 * s2)
  {
  }

  lemma ScaledSquaresOrder(kk: real, a2: real, b2: real)
    requires kk > 0.0 && kk * a2 <= kk * b2
    ensures a2 <= b2
    ensures kk * a2 < kk * b2 ==> a2 < b2
  {
    if a2 >= b2 {
      ScaleMonotone(b2, a2, kk);
    }
  }

  /** Two positive deviations over their spreads, where each squared spread is
      the common residual plus the deviation's own square: the larger
      deviation has the larger quotient. */
  lemma PositiveQuotients(r: real, n: real, kk: real, d1: real, v1: real, s1: real, d2: real, v2: real, s2: real)
    requires n > 0.0 && kk > 0.0 && r >= 0.0
    requires 0.0 < d1 <= d2 && s1 > 0.0 && s2 > 0.0
    requires s1 * s1 == v1 && s2 * s2 == v2
    requires v1 * kk == r + n * (d1 * d1) && v2 * kk == r + n * (d2 * d2)
    ensures d1 / s1 <= d2 / s2
    ensures d1 < d2 && r > 0.0 ==> d1 / s1 < d2 / s2
  {
    var q1, q2 := d1 * d1, d2 * d2;
    SquareMonotone(d1, d2);
    var a, b := d1 * s2, d2 * s1;
    CrossSquares(d1, s2, v2, a);
    CrossSquares(d2, s1, v1, b);
    var e := n * (q1 * q2);
    CrossStep(kk, q1, v2, a * a, r, n, q2, e);
    CrossStep(kk, q2, v1, b * b, r, n, q1, e);
    ScaleOrder(r, q1, q2, e, kk * (a * a), kk * (b * b));
    ScaledSquaresOrder(kk, a * a, b * b);
    PositiveProduct(d1, s2);
    PositiveProduct(d2, s1);
    PositiveProduct(s1, s2);
    RootMonotone(a, b);
    QuotientsAsProducts(d1, s1, d2, s2);
    DivideOrder(a, b, s1 * s2);
  }

  lemma QuotientSigns(d: real, s: real)
    requires s > 0.0
    ensures d <= 0.0 ==> d / s <= 0.0
    ensures d < 0.0 ==> d / s < 0.0
    ensures d >= 0.0 ==> d / s >= 0.0
    ensures d > 0.0 ==> d / s > 0.0
  {
  }

  lemma NegatedQuotient(d: real, s: real)
    requires s > 0.0
    ensures (-d) / s == -(d / s) && (-d) * (-d) == d * d
  {
  }

  /** The order of deviations carries over to the quotients by their spreads. */
  lemma QuotientOrder(r: real, n: real, kk: real, d1: real, v1: real, s1: real, d2: real, v2: real, s2: real)
    requires QuotientSetting(r, n, kk, d1, v1, s1, d2, v2, s2)
    ensures d1 / s1 <= d2 / s2
    ensures d1 < d2 && r > 0.0 ==> d1 / s1 < d2 / s2
  {
    if d1 > 0.0 {
      PositiveQuotients(r, n, kk, d1, v1, s1, d2, v2, s2);
    } else if d2 < 0.0 {
      NegatedQuotient(d1, s1);
      NegatedQuotient(d2, s2);
      PositiveQuotients(r, n, kk, -d2, v2, s2, -d1, v1, s1);
    } else {
      QuotientSigns(d1, s1);
      QuotientSigns(d2, s2);
    }
  }

  /** Raising one value, with the others fixed, raises its deviation from the
      mean, by (n - 1) / n of the rise. */
  lemma DeviationRises(xs: seq<real>, k: nat, y: real, n: real)
    requires |xs| >= 2 && k < |xs| && xs[k] <= y && n == |xs| as real
    ensures xs[k] - Mean(xs) <= xs[k := y][k] - Mean(xs[k := y])
    ensures xs[k] < y ==> xs[k] - Mean(xs) < xs[k := y][k] - Mean(xs[k := y])
  {
    var ys := xs[k := y];
    ResidualReplace(xs, k, y);
    DeviationByOthers(xs, k, n);
    DeviationByOthers(ys, k, n);
    DeviationOrder(n, xs[k], y, OthersSum(xs, k), xs[k] - Mean(xs), ys[k] - Mean(ys));
  }

  /** Before and after the value at `k` changes, the variance splits over the
      same residual. */
  lemma VariancesSplit(xs: seq<real>, k: nat, y: real, n: real)
    requires |xs| >= 2 && k < |xs| && n == |xs| as real
    ensures SplitsAs(Variance(xs), n * (n - 1.0), Residual(xs, k), n, xs[k] - Mean(xs))
    ensures SplitsAs(Variance(xs[k := y]), n * (n - 1.0), Residual(xs, k), n, xs[k := y][k] - Mean(xs[k := y]))
  {
    ResidualReplace(xs, k, y);
    VarianceSplit(xs, k, n);
    VarianceSplit(xs[k := y], k, n);
  }

  /** The z-score at `k` is the deviation at `k` over the spread. */
  lemma ZScoreAt(sqrt: real -> real, xs: seq<real>, k: nat)
    requires k < |xs|
    ensures RobustZ(sqrt, xs)[k] == (xs[k] - Mean(xs)) / Spread(sqrt, xs)
  {
  }

  /** What `QuotientOrder` needs: deviations `d1 <= d2` whose variances split
      over the same residual `r`, with positive spreads that are the roots of
      the variances wherever the deviation is not zero. */
  predicate QuotientSetting(r: real, n: real, kk: real, d1: real, v1: real, s1: real, d2: real, v2: real, s2: real)
  {
    DeviationSetting(r, n, kk, d1, v1, d2, v2) && SpreadSetting(d1, v1, s1) && SpreadSetting(d2, v2, s2)
  }

  predicate DeviationSetting(r: real, n: real, kk: real, d1: real, v1: real, d2: real, v2: real)
  {
    n > 0.0 && kk > 0.0 && r >= 0.0 && SplitsAs(v1, kk, r, n, d1) && SplitsAs(v2, kk, r, n, d2) && d1 <= d2
  }

  predicate SpreadSetting(d: real, v: real, s: real)
  {
    s > 0.0 && (d != 0.0 ==> s * s == v)
  }

  /** Raising the value at `k` of a group of two or more raises its deviation
      over a common residual. */
  lemma GroupDeviations(xs: seq<real>, k: nat, y: real, n: real)
    requires |xs| >= 2 && k < |xs| && xs[k] <= y && n == |xs| as real
    ensures DeviationSetting(Residual(xs, k), n, n * (n - 1.0),
                             xs[k] - Mean(xs), Variance(xs),
                             xs[k := y][k] - Mean(xs[k := y]), Variance(xs[k := y]))
    ensures xs[k] < y ==> xs[k] - Mean(xs) < xs[k := y][k] - Mean(xs[k := y])
  {
    DeviationRises(xs, k, y, n);
    VariancesSplit(xs, k, y, n);
    ResidualSign(xs, k);
  }

  /** The spread of a group of two or more is positive, and the root of the
      variance unless the value at `k` is the mean. */
  lemma GroupSpread(sqrt: real -> real, xs: seq<real>, k: nat)
    requires |xs| >= 2 && k < |xs|
    requires IsRootOf(sqrt, Variance(xs))
    ensures SpreadSetting(xs[k] - Mean(xs), Variance(xs), Spread(sqrt, xs))
  {
    SpreadOfGroup(sqrt, xs, k);
  }

  /** In a group of two or more, raising the value at `k` raises its deviation
      over the spread, strictly when the other values leave a positive
      residual. */
  lemma GroupQuotientRises(sqrt: real -> real, xs: seq<real>, k: nat, y: real)
    requires |xs| >= 2 && k < |xs| && xs[k] <= y
    requires IsRootOf(sqrt, Variance(xs)) && IsRootOf(sqrt, Variance(xs[k := y]))
    ensures (xs[k] - Mean(xs)) / Spread(sqrt, xs)
      <= (xs[k := y][k] - Mean(xs[k := y])) / Spread(sqrt, xs[k := y])
    ensures xs[k] < y && Residual(xs, k) > 0.0 ==>
      (xs[k] - Mean(xs)) / Spread(sqrt, xs) < (xs[k := y][k] - Mean(xs[k := y])) / Spread(sqrt, xs[k := y])
  {
    var n := |xs| as real;
    GroupDeviations(xs, k, y, n);
    GroupSpread(sqrt, xs, k);
    GroupSpread(sqrt, xs[k := y], k);
    QuotientOrder(Residual(xs, k), n, n * (n - 1.0),
                  xs[k] - Mean(xs), Variance(xs), Spread(sqrt, xs),
                  xs[k := y][k] - Mean(xs[k := y]), Variance(xs[k := y]), Spread(sqrt, xs[k := y]));
  }

  /** Raising one value, with the others fixed, never lowers its z-score; it
      raises it strictly when two of the other values differ. */
  lemma ZScoreRises(sqrt: real -> real, xs: seq<real>, k: nat, y: real)
    requires k < |xs| && xs[k] <= y
    requires |xs| >= 2 ==> IsRootOf(sqrt, Variance(xs)) && IsRootOf(sqrt, Variance(xs[k := y]))
    ensures RobustZ(sqrt, xs)[k] <= RobustZ(sqrt, xs[k := y])[k]
    ensures xs[k] < y && OthersDiffer(xs, k) ==> RobustZ(sqrt, xs)[k] < RobustZ(sqrt, xs[k := y])[k]
  {
    var ys := xs[k := y];
    ZScoreAt(sqrt, xs, k);
    ZScoreAt(sqrt, ys, k);
    if |xs| == 1 {
      MeanOfOne(xs);
      MeanOfOne(ys);
    } else {
      ResidualSign(xs, k);
      GroupQuotientRises(sqrt, xs, k, y);
    }
  }

  /** In a group of two different values the z-scores are -1 and 1, however
      far apart the values are. */
  lemma PairZScores(sqrt: real -> real, a: real, b: real)
    requires a < b && IsRootOf(sqrt, Variance([a, b]))
    ensures RobustZ(sqrt, [a, b]) == [-1.0, 1.0]
  {
    var xs, h := [a, b], (b - a) / 2.0;
    PairMoments(a, b);
    var v := Variance(xs);
    assert v == h * h;
    assert sqrt(v) >= 0.0 && sqrt(v) * sqrt(v) == v;
    RootOfPositiveSquare(sqrt(v), h);
    assert Spread(sqrt, xs) == h;
    var z := RobustZ(sqrt, xs);
    HalfGap(a, b, h);
    assert z[0] == (a - Mean(xs)) / h && z[1] == (b - Mean(xs)) / h;
  }

  lemma MeanOfOne(xs: seq<real>)
    requires |xs| == 1
    ensures Mean(xs) == xs[0]
  {
    assert xs[1..] == [];
    assert Sum(xs) == xs[0] + Sum(xs[1..]);
  }

  lemma SumOfPair(a: real, b: real)
    ensures Sum([a, b]) == a + b
  {
    assert [a, b][1..] == [b] && [b][1..] == [];
    assert Sum([b]) == b + Sum([b][1..]);
    assert Sum([a, b]) == a + Sum([a, b][1..]);
  }

  /** Two values lie half their gap either side of their mean, so their
      variance is the square of that half gap. */
  lemma PairMoments(a: real, b: real)
    ensures Mean([a, b]) == (a + b) / 2.0
    ensures Variance([a, b]) == ((b - a) / 2.0) * ((b - a) / 2.0)
  {
    var h := (b - a) / 2.0;
    SumOfPair(a, b);
    var m := Mean([a, b]);
    var d := SquaredDeviations([a, b], m);
    assert a - m == -h && b - m == h;
    assert d == [Square(-h), Square(h)];
    SumOfPair(Square(-h), Square(h));
  }

  lemma HalfGap(a: real, b: real, h: real)
    requires a < b && h == (b - a) / 2.0
    ensures (a - (a + b) / 2.0) / h == -1.0 && (b - (a + b) / 2.0) / h == 1.0
  {
  }

  lemma RootOfPositiveSquare(r: real, h: real)
    requires r >= 0.0 && h > 0.0 && r * r == h * h
    ensures r == h
  {
    if r < h {
      SquareMonotone(r, h);
    } else if r > h {
      SquareMonotone(h, r);
    }
  }
}
