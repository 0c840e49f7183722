/**
 * Moment statistics over the equilibrated window of a radius-of-gyration
 * series: the arithmetic mean (`np.mean`), the population variance (the
 * square of `np.std` with its default ddof = 0, divisor = window length) and
 * the mean of squares `<Rg^2>` (`np.mean(x ** 2)`), all over exact reals.
 *
 * The three statistics are quotients by the window length. Their meaning
 * is stated by the `...TimesCount` lemmas (statistic times length = the
 * corresponding sum), and everything else is proved from those lemmas and
 * from the sums, whose facts are proved by induction.
 */
module Moments {

  /** Sum of the samples. */
  function Sum(s: seq<real>): real
  {
    if s == [] then 0.0 else s[0] + Sum(s[1..])
  }

  /** The number of samples, counted as a real: the divisor of every statistic. */
  function Count(s: seq<real>): real
  {
    if s == [] then 0.0 else 1.0 + Count(s[1..])
  }

  /** Sum of the squared samples. */
  function SumSquares(s: seq<real>): real
  {
    if s == [] then 0.0 else s[0] * s[0] + SumSquares(s[1..])
  }

  /** Sum of the squared deviations of the samples from a centre `m`. */
  function SquaredDeviations(s: seq<real>, m: real): real
  {
    if s == [] then 0.0 else (s[0] - m) * (s[0] - m) + SquaredDeviations(s[1..], m)
  }

  /** Arithmetic mean, `np.mean(s)`. */
  function Mean(s: seq<real>): real
    requires |s| > 0
  {
    CountIsLength(s);
    Sum(s) / Count(s)
  }

  /** Mean of the squares, `np.mean(s ** 2)`: the `<Rg^2>` of the analysis, not `<Rg>^2`. */
  function MeanSquare(s: seq<real>): real
    requires |s| > 0
  {
    CountIsLength(s);
    SumSquares(s) / Count(s)
  }

  /**
   * Population variance, the square of `np.std(s)`: the mean squared
   * deviation from the mean, with the window length as divisor.
   */
  function PopulationVariance(s: seq<real>): real
    requires |s| > 0
  {
    CountIsLength(s);
    SquaredDeviations(s, Mean(s)) / Count(s)
  }

  /** Every sample of `s` has the same value. */
  predicate AllEqual(s: seq<real>)
  {
    forall i, j :: 0 <= i < |s| && 0 <= j < |s| ==> s[i] == s[j]
  }

  /** Every sample of `s` is zero. */
  predicate AllZero(s: seq<real>)
  {
    forall i :: 0 <= i < |s| ==> s[i] == 0.0
  }

  // ---------------------------------------------------------------------
  // Real arithmetic used below
  // ---------------------------------------------------------------------

  /** Dividing by a positive count and multiplying back gives the total. */
  lemma DivideThenMultiply(a: real, n: real)
    requires n > 0.0
    ensures (a / n) * n == a
  {
  }

  /** A value that times a positive count gives `t` is zero exactly when `t` is. */
  lemma QuotientZero(v: real, n: real, t: real)
    requires n > 0.0 && v * n == t
    ensures v == 0.0 <==> t == 0.0
  {
  }

  /** A value that times a positive count gives a non-negative `t` is non-negative. */
  lemma QuotientNonnegative(v: real, n: real, t: real)
    requires n > 0.0 && v * n == t && t >= 0.0
    ensures v >= 0.0
  {
  }

  /** A square is never negative. */
  lemma SquareNonnegative(x: real)
    ensures x * x >= 0.0
  {
  }

  /** A square that is not positive belongs to zero. */
  lemma SquareZero(x: real)
    ensures x * x <= 0.0 ==> x == 0.0
  {
    if x * x <= 0.0 {
      if x > 0.0 {
        QuotientZero(x, x, x * x);
      } else if x < 0.0 {
        QuotientZero(x, -x, -(x * x));
      }
    }
  }

  // ---------------------------------------------------------------------
  // Sums
  // ---------------------------------------------------------------------

  /** The count is the length of the sequence. */
  lemma {:induction false} CountIsLength(s: seq<real>)
    ensures Count(s) == |s| as real
  {
    if s != [] {
      CountIsLength(s[1..]);
    }
  }

  /** A sum of squared deviations is never negative. */
  lemma {:induction false} SquaredDeviationsNonnegative(s: seq<real>, m: real)
    ensures SquaredDeviations(s, m) >= 0.0
  {
    if s != [] {
      SquaredDeviationsNonnegative(s[1..], m);
      SquareNonnegative(s[0] - m);
    }
  }

  /** Squared deviations that sum to zero put every sample at the centre. */
  lemma {:induction false} SquaredDeviationsZero(s: seq<real>, m: real)
    requires SquaredDeviations(s, m) == 0.0
    ensures forall i :: 0 <= i < |s| ==> s[i] == m
  {
    if s != [] {
      SquareNonnegative(s[0] - m);
      SquaredDeviationsNonnegative(s[1..], m);
      SquareZero(s[0] - m);
      SquaredDeviationsZero(s[1..], m);
      assert forall i :: 1 <= i < |s| ==> s[i] == s[1..][i - 1];
    }
  }

  /** Samples all at the centre have no squared deviation. */
  lemma {:induction false} SquaredDeviationsOfCentre(s: seq<real>, m: real)
    requires forall i :: 0 <= i < |s| ==> s[i] == m
    ensures SquaredDeviations(s, m) == 0.0
  {
    if s != [] {
      assert forall i :: 0 <= i < |s[1..]| ==> s[1..][i] == s[i + 1];
      SquaredDeviationsOfCentre(s[1..], m);
    }
  }

  /** A sum of squares is never negative. */
  lemma {:induction false} SumSquaresNonnegative(s: seq<real>)
    ensures SumSquares(s) >= 0.0
  {
    if s != [] {
      SumSquaresNonnegative(s[1..]);
      SquareNonnegative(s[0]);
    }
  }

  /** The squares sum to zero exactly when every sample is zero. */
  lemma {:induction false} SumSquaresZeroIff(s: seq<real>)
    ensures SumSquares(s) == 0.0 <==> AllZero(s)
  {
    if s != [] {
      SquareNonnegative(s[0]);
      SumSquaresNonnegative(s[1..]);
      SquareZero(s[0]);
      SumSquaresZeroIff(s[1..]);
      assert forall i :: 1 <= i < |s| ==> s[i] == s[1..][i - 1];
    }
  }

  /** The sum of a constant sequence is its count times the constant. */
  lemma {:induction false} SumOfConstant(s: seq<real>, c: real)
    requires forall i :: 0 <= i < |s| ==> s[i] == c
    ensures Sum(s) == Count(s) * c
  {
    if s != [] {
      assert forall i :: 0 <= i < |s[1..]| ==> s[1..][i] == s[i + 1];
      SumOfConstant(s[1..], c);
    }
  }

  /**
   * Expanding the square: the four sums of `s` about a centre `m`, with
   * sum (x - m)^2 = sum x^2 - 2 m sum x + n m^2.
   */
  lemma {:induction false} SquaredDeviationsExpand(s: seq<real>, m: real)
    returns (sd: real, sq: real, sum: real, n: real)
    ensures sd == SquaredDeviations(s, m) && sq == SumSquares(s) && sum == Sum(s) && n == Count(s)
    ensures sd == sq - 2.0 * m * sum + n * m * m
  {
    sd, sq, sum, n := SquaredDeviations(s, m), SumSquares(s), Sum(s), Count(s);
    if s == [] {
      ExpandEmpty(m, sd, sq, sum, n);
    } else {
      var sd1, sq1, sum1, n1 := SquaredDeviationsExpand(s[1..], m);
      ExpandStep(s[0], m, sd1, sq1, sum1, n1, sd, sq, sum, n);
    }
  }

  /** The arithmetic of the empty case of SquaredDeviationsExpand. */
  lemma ExpandEmpty(m: real, sd: real, sq: real, sum: real, k: real)
    requires sd == 0.0 && sq == 0.0 && sum == 0.0 && k == 0.0
    ensures sd == sq - 2.0 * m * sum + k * m * m
  {
  }

  /** The arithmetic of one step of SquaredDeviationsExpand. */
  lemma ExpandStep(x: real, m: real, sd: real, sq: real, sum: real, k: real,
                   sd': real, sq': real, sum': real, k': real)
    requires sd == sq - 2.0 * m * sum + k * m * m
    requires sd' == (x - m) * (x - m) + sd && sq' == x * x + sq && sum' == x + sum && k' == k + 1.0
    ensures sd' == sq' - 2.0 * m * sum' + k' * m * m
  {
  }

  /** SquaredDeviationsExpand, stated on given values of the four sums. */
  lemma ExpandAt(s: seq<real>, m: real, sd: real, sq: real, sum: real, n: real)
    requires sd == SquaredDeviations(s, m) && sq == SumSquares(s) && sum == Sum(s) && n == Count(s)
    ensures sd == sq - 2.0 * m * sum + n * m * m
  {
    var sd', sq', sum', n' := SquaredDeviationsExpand(s, m);
    ExpandSame(m, sd', sq', sum', n', sd, sq, sum, n);
  }

  /** The expansion carries over to equal values of the four sums. */
  lemma ExpandSame(m: real, sd: real, sq: real, sum: real, n: real,
                   sd': real, sq': real, sum': real, n': real)
    requires sd == sq - 2.0 * m * sum + n * m * m
    requires sd' == sd && sq' == sq && sum' == sum && n' == n
    ensures sd' == sq' - 2.0 * m * sum' + n' * m * m
  {
  }

  // ---------------------------------------------------------------------
  // The moments
  // ---------------------------------------------------------------------

  /** The mean times the window length is the sum of the window. */
  lemma MeanTimesCount(s: seq<real>) returns (n: real, sum: real, m: real)
    requires |s| > 0
    ensures n == Count(s) && sum == Sum(s) && m == Mean(s)
    ensures n == |s| as real && n > 0.0 && m * n == sum
  {
    n, sum, m := Count(s), Sum(s), Mean(s);
    CountIsLength(s);
    DivideThenMultiply(sum, n);
  }

  /** The mean square times the window length is the sum of squares. */
  lemma MeanSquareTimesCount(s: seq<real>, n: real) returns (sq: real, ms: real)
    requires |s| > 0 && n == Count(s)
    ensures sq == SumSquares(s) && ms == MeanSquare(s) && ms * n == sq
  {
    sq, ms := SumSquares(s), MeanSquare(s);
    CountIsLength(s);
    DivideThenMultiply(sq, n);
  }

  /** The population variance times the window length is the sum of squared deviations from the mean. */
  lemma VarianceTimesCount(s: seq<real>, n: real, m: real) returns (sd: real, v: real)
    requires |s| > 0 && n == Count(s) && m == Mean(s)
    ensures sd == SquaredDeviations(s, m) && v == PopulationVariance(s) && v * n == sd
  {
    sd, v := SquaredDeviations(s, m), PopulationVariance(s);
    CountIsLength(s);
    DivideThenMultiply(sd, n);
  }

  /** The population variance is the mean square minus the squared mean. */
  lemma VarianceIsMeanSquareMinusSquaredMean(s: seq<real>)
    requires |s| > 0
    ensures PopulationVariance(s) == MeanSquare(s) - Mean(s) * Mean(s)
  {
    var n, sum, m := MeanTimesCount(s);
    var sq, ms := MeanSquareTimesCount(s, n);
    var sd, v := VarianceTimesCount(s, n, m);
    ExpandAt(s, m, sd, sq, sum, n);
    VarianceAlgebra(sd, sq, sum, n, m, v, ms);
    VarianceIdentityAt(s, m, v, ms);
  }

  /** The identity of VarianceIsMeanSquareMinusSquaredMean, carried from values to the statistics. */
  lemma VarianceIdentityAt(s: seq<real>, m: real, v: real, ms: real)
    requires |s| > 0 && m == Mean(s) && v == PopulationVariance(s) && ms == MeanSquare(s)
    requires v == ms - m * m
    ensures PopulationVariance(s) == MeanSquare(s) - Mean(s) * Mean(s)
  {
  }

  /** The arithmetic of VarianceIsMeanSquareMinusSquaredMean, without division. */
  lemma VarianceAlgebra(sd: real, sq: real, sum: real, n: real, m: real, v: real, ms: real)
    requires n > 0.0 && m * n == sum && v * n == sd && ms * n == sq
    requires sd == sq - 2.0 * m * sum + n * m * m
    ensures v == ms - m * m
  {
    assert (v - (ms - m * m)) * n == 0.0;
    QuotientZero(v - (ms - m * m), n, 0.0);
  }

  /** The population variance is never negative. */
  lemma VarianceNonnegative(s: seq<real>)
    requires |s| > 0
    ensures PopulationVariance(s) >= 0.0
  {
    var n, sum, m := MeanTimesCount(s);
    var sd, v := VarianceTimesCount(s, n, m);
    SquaredDeviationsNonnegative(s, m);
    QuotientNonnegative(v, n, sd);
  }

  /** The population variance is zero exactly when all samples are equal. */
  lemma VarianceZeroIff(s: seq<real>)
    requires |s| > 0
    ensures PopulationVariance(s) == 0.0 <==> AllEqual(s)
  {
    var n, sum, m := MeanTimesCount(s);
    var sd, v := VarianceTimesCount(s, n, m);
    QuotientZero(v, n, sd);
    if v == 0.0 {
      SquaredDeviationsZero(s, m);
    }
    if AllEqual(s) {
      SumOfConstant(s, s[0]);
      ConstantMean(m, n, s[0]);
      SquaredDeviationsOfCentre(s, m);
    }
  }

  /** A value whose product with a positive count equals `n * c` is `c`. */
  lemma ConstantMean(m: real, n: real, c: real)
    requires n > 0.0 && m * n == n * c
    ensures m == c
  {
    QuotientZero(m - c, n, 0.0);
  }

  /**
   * `<Rg^2>` is never negative and never below `<Rg>^2`; the two agree
   * exactly when every sample of the window is the same.
   */
  lemma MeanSquareBounds(s: seq<real>)
    requires |s| > 0
    ensures MeanSquare(s) >= 0.0
    ensures MeanSquare(s) >= Mean(s) * Mean(s)
    ensures MeanSquare(s) == Mean(s) * Mean(s) <==> AllEqual(s)
  {
    var n, sum, m := MeanTimesCount(s);
    var sq, ms := MeanSquareTimesCount(s, n);
    SumSquaresNonnegative(s);
    QuotientNonnegative(ms, n, sq);
    VarianceIsMeanSquareMinusSquaredMean(s);
    VarianceNonnegative(s);
    VarianceZeroIff(s);
  }

  /** `<Rg^2>` is zero exactly when every sample of the window is zero. */
  lemma MeanSquareZeroIff(s: seq<real>)
    requires |s| > 0
    ensures MeanSquare(s) == 0.0 <==> AllZero(s)
  {
    var n, sum, m := MeanTimesCount(s);
    var sq, ms := MeanSquareTimesCount(s, n);
    SumSquaresZeroIff(s);
    QuotientZero(ms, n, sq);
  }
}
