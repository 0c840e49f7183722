/**
 * The radius-of-gyration analysis of one LAMMPS gyration series
 * (`get_avg_rg_from_file`) and the alpha-to-tree ratio of mean-square radii
 * computed by `main`. The input is the already parsed series of
 * (timestep, Rg) rows.
 */
module Gyration {
  import opened Wrappers
  import opened Moments
  import opened Equilibration

  /** One parsed row of a gyration file: the timestep and the Rg sample. */
  type Row = (int, real)

  /**
   * The tuple the analysis returns: `<Rg^2>` and `<Rg>` over the window,
   * the two full columns, the window start and the window itself.
   */
  datatype RgAnalysis = RgAnalysis(
    avgRgSquared: real,
    avgRg: real,
    timesteps: seq<int>,
    rgValues: seq<real>,
    equilibratedStart: nat,
    equilibratedRg: seq<real>)

  /** The first column of the parsed rows. */
  function Timesteps(data: seq<Row>): (r: seq<int>)
    ensures |r| == |data| && forall i :: 0 <= i < |data| ==> r[i] == data[i].0
  {
    seq(|data|, i requires 0 <= i < |data| => data[i].0)
  }

  /** The second column of the parsed rows. */
  function RgValues(data: seq<Row>): (r: seq<real>)
    ensures |r| == |data| && forall i :: 0 <= i < |data| ==> r[i] == data[i].1
  {
    seq(|data|, i requires 0 <= i < |data| => data[i].1)
  }

  /**
   * `get_avg_rg_from_file` on an already parsed series. A series of at
   * most one row is rejected. Otherwise the window is the non-empty tail of
   * the Rg column from the equilibrated start, which skips sample 0 and
   * keeps the last quarter (rounded up) of the samples; `avgRg` is the mean
   * of the window and `avgRgSquared` the mean of its squares.
   */
  function AnalyzeRgSeries(data: seq<Row>): (r: Option<RgAnalysis>)
    ensures r.None? <==> |data| <= 1
    ensures r.Some? ==>
      var a := r.value;
      && a.timesteps == Timesteps(data)
      && a.rgValues == RgValues(data)
      && 1 <= a.equilibratedStart < |data|
      && 4 * a.equilibratedStart <= 3 * |data| < 4 * a.equilibratedStart + 4
      && a.equilibratedRg == a.rgValues[a.equilibratedStart..]
      && 4 * |a.equilibratedRg| >= |data|
      && a.avgRg == Mean(a.equilibratedRg)
      && a.avgRgSquared == MeanSquare(a.equilibratedRg)
  {
    match EquilibratedStart(|data|)
    case None => None
    case Some(start) =>
      var rg := RgValues(data);
      var window := rg[start..];
      Some(RgAnalysis(MeanSquare(window), Mean(window), Timesteps(data), rg, start, window))
  }

  /**
   * The statistics of a successful analysis: `avgRg` times the window
   * length is the window's sum and `avgRgSquared` times it the sum of
   * squares; `avgRgSquared` is never negative, never below `avgRg^2`, and
   * equal to it exactly when the window is constant; the variance whose
   * square root the analysis prints as `std_rg` is `avgRgSquared - avgRg^2`.
   */
  lemma AnalysisStatistics(data: seq<Row>, a: RgAnalysis)
    requires AnalyzeRgSeries(data) == Some(a)
    ensures a.avgRg * (|a.equilibratedRg| as real) == Sum(a.equilibratedRg)
    ensures a.avgRgSquared * (|a.equilibratedRg| as real) == SumSquares(a.equilibratedRg)
    ensures a.avgRgSquared >= 0.0
    ensures a.avgRgSquared >= a.avgRg * a.avgRg
    ensures a.avgRgSquared == a.avgRg * a.avgRg <==> AllEqual(a.equilibratedRg)
    ensures PopulationVariance(a.equilibratedRg) == a.avgRgSquared - a.avgRg * a.avgRg
  {
    WindowSums(a);
    WindowBounds(a);
    WindowVariance(a);
  }

  /** A record whose two means are those of its window: both times the window length are its sums. */
  lemma WindowSums(a: RgAnalysis)
    requires |a.equilibratedRg| > 0
    requires a.avgRg == Mean(a.equilibratedRg) && a.avgRgSquared == MeanSquare(a.equilibratedRg)
    ensures a.avgRg * (|a.equilibratedRg| as real) == Sum(a.equilibratedRg)
    ensures a.avgRgSquared * (|a.equilibratedRg| as real) == SumSquares(a.equilibratedRg)
  {
    var n, sum, m := MeanTimesCount(a.equilibratedRg);
    var sq, ms := MeanSquareTimesCount(a.equilibratedRg, n);
  }

  /** A record whose two means are those of its window: the bounds on its mean square. */
  lemma WindowBounds(a: RgAnalysis)
    requires |a.equilibratedRg| > 0
    requires a.avgRg == Mean(a.equilibratedRg) && a.avgRgSquared == MeanSquare(a.equilibratedRg)
    ensures a.avgRgSquared >= 0.0
    ensures a.avgRgSquared >= a.avgRg * a.avgRg
    ensures a.avgRgSquared == a.avgRg * a.avgRg <==> AllEqual(a.equilibratedRg)
  {
    MeanSquareBounds(a.equilibratedRg);
  }

  /** A record whose two means are those of its window: its variance from the two means. */
  lemma WindowVariance(a: RgAnalysis)
    requires |a.equilibratedRg| > 0
    requires a.avgRg == Mean(a.equilibratedRg) && a.avgRgSquared == MeanSquare(a.equilibratedRg)
    ensures PopulationVariance(a.equilibratedRg) == a.avgRgSquared - a.avgRg * a.avgRg
  {
    VarianceIsMeanSquareMinusSquaredMean(a.equilibratedRg);
  }

  /** A record whose mean square is that of its window: it is zero exactly when every sample is. */
  lemma WindowMeanSquareZero(a: RgAnalysis)
    requires |a.equilibratedRg| > 0
    requires a.avgRgSquared == MeanSquare(a.equilibratedRg)
    ensures a.avgRgSquared == 0.0 <==> AllZero(a.equilibratedRg)
  {
    MeanSquareZeroIff(a.equilibratedRg);
  }

  /** The ratio of two mean-square radii, `rg2_alpha / rg2_tree`. */
  function Ratio(rg2Alpha: real, rg2Tree: real): (r: real)
    requires rg2Tree != 0.0
    ensures r * rg2Tree == rg2Alpha
  {
    rg2Alpha / rg2Tree
  }

  /** A product with a non-zero factor vanishes only if the other factor does. */
  lemma CancelNonzero(x: real, n: real)
    requires n != 0.0 && x * n == 0.0
    ensures x == 0.0
  {
    if n > 0.0 {
      QuotientZero(x, n, 0.0);
    } else {
      QuotientZero(x, -n, 0.0);
    }
  }

  /** Swapping the two radii inverts the ratio. */
  lemma RatioInverse(a: real, b: real)
    requires a != 0.0 && b != 0.0
    ensures Ratio(a, b) * Ratio(b, a) == 1.0
  {
    var p, q := Ratio(a, b), Ratio(b, a);
    assert p * b == a;
    assert q * a == b;
    InverseAlgebra(p, q, a, b);
  }

  /** The arithmetic of RatioInverse, without division. */
  lemma InverseAlgebra(p: real, q: real, a: real, b: real)
    requires a != 0.0 && b != 0.0 && p * b == a && q * a == b
    ensures p * q == 1.0
  {
    assert (p * q - 1.0) * b == 0.0;
    CancelNonzero(p * q - 1.0, b);
  }

  /**
   * What `main` does with the two analyses: it exits when either failed;
   * otherwise it divides the alpha `<Rg^2>` by the tree `<Rg^2>`. In float64
   * a zero divisor yields an infinite or undefined value rather than an error.
   */
  datatype RatioOutcome = Exit | NonFinite | Finite(value: real)

  /** The custom ratio of `main` on two analysis results. */
  function CustomRatio(alpha: Option<RgAnalysis>, tree: Option<RgAnalysis>): (r: RatioOutcome)
    ensures r.Exit? <==> alpha.None? || tree.None?
    ensures r.NonFinite? <==> alpha.Some? && tree.Some? && tree.value.avgRgSquared == 0.0
    ensures r.Finite? ==> r.value * tree.value.avgRgSquared == alpha.value.avgRgSquared
  {
    if alpha.None? || tree.None? then Exit
    else if tree.value.avgRgSquared == 0.0 then NonFinite
    else Finite(Ratio(alpha.value.avgRgSquared, tree.value.avgRgSquared))
  }

  /** The analysis of two parsed series followed by the custom ratio. */
  function CompareSeries(alphaData: seq<Row>, treeData: seq<Row>): (r: RatioOutcome)
    ensures r.Exit? <==> |alphaData| <= 1 || |treeData| <= 1
  {
    CustomRatio(AnalyzeRgSeries(alphaData), AnalyzeRgSeries(treeData))
  }

  /**
   * The ratio of two analysed series is undefined exactly when every sample
   * of the tree window is zero; otherwise it is never negative.
   */
  lemma CompareSeriesOutcome(alphaData: seq<Row>, treeData: seq<Row>)
    requires |alphaData| >= 2 && |treeData| >= 2
    ensures var tree := AnalyzeRgSeries(treeData).value;
      CompareSeries(alphaData, treeData).NonFinite? <==> AllZero(tree.equilibratedRg)
    ensures CompareSeries(alphaData, treeData).Finite? ==> CompareSeries(alphaData, treeData).value >= 0.0
  {
    var alpha, tree := AnalyzeRgSeries(alphaData).value, AnalyzeRgSeries(treeData).value;
    WindowMeanSquareZero(tree);
    WindowBounds(alpha);
    WindowBounds(tree);
    var r := CompareSeries(alphaData, treeData);
    if r.Finite? {
      QuotientNonnegative(r.value, tree.avgRgSquared, alpha.avgRgSquared);
    }
  }

  /** An alpha series whose Rg doubles half-way, sampled every 100 timesteps. */
  const AlphaExample: seq<Row> :=
    [(0, 10.0), (100, 10.0), (200, 10.0), (300, 10.0),
     (400, 20.0), (500, 20.0), (600, 20.0), (700, 20.0)]

  /** A tree series with half the radius of AlphaExample at every timestep. */
  const TreeExample: seq<Row> :=
    [(0, 5.0), (100, 5.0), (200, 5.0), (300, 5.0),
     (400, 10.0), (500, 10.0), (600, 10.0), (700, 10.0)]

  /**
   * Eight samples each: both windows start at sample 6, the mean-square
   * radii are 400 and 100, and the custom ratio is exactly 4.
   */
  lemma WorkedExample()
    ensures AnalyzeRgSeries(AlphaExample).Some? && AnalyzeRgSeries(TreeExample).Some?
    ensures AnalyzeRgSeries(AlphaExample).value.equilibratedStart == 6
    ensures AnalyzeRgSeries(TreeExample).value.equilibratedStart == 6
    ensures AnalyzeRgSeries(AlphaExample).value.avgRgSquared == 400.0
    ensures AnalyzeRgSeries(TreeExample).value.avgRgSquared == 100.0
    ensures CompareSeries(AlphaExample, TreeExample) == Finite(4.0)
  {
    var alpha, tree := AnalyzeRgSeries(AlphaExample).value, AnalyzeRgSeries(TreeExample).value;
    assert EquilibratedStart(8) == Some(6);
    assert alpha.equilibratedRg == [20.0, 20.0];
    assert tree.equilibratedRg == [10.0, 10.0];
    assert SumSquares([20.0, 20.0]) == 800.0;
    assert SumSquares([10.0, 10.0]) == 200.0;
    var r := CompareSeries(AlphaExample, TreeExample);
    assert r.value * 100.0 == 400.0;
  }
}
