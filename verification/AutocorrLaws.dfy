/** What the autocorrelation measures: how far the samples move over a lag, against their spread. */
module AutocorrLaws {
  import opened Arith
  import opened LoadPredictor

  /** The squared moves over the lag: the sum of (h[i + lag] - h[i])^2 for i below n. */
  function Moves(h: seq<real>, lag: nat, n: nat): real
    requires n + lag <= |h|
  {
    if n == 0 then 0.0 else Moves(h, lag, n - 1) + Square(h[n - 1 + lag] - h[n - 1])
  }

  /** The squared deviations from m of the n samples at `from`. */
  function Spread(h: seq<real>, m: real, from: nat, n: nat): real
    requires from + n <= |h|
  {
    if n == 0 then 0.0 else Spread(h, m, from, n - 1) + Square(h[from + n - 1] - m)
  }

  lemma {:induction false} SpreadIsSquares(h: seq<real>, m: real, from: nat, n: nat)
    requires from + n <= |h|
    ensures Squares(Deviations(h, m), from, n) == Spread(h, m, from, n)
  {
    if n > 0 { SpreadIsSquares(h, m, from, n - 1); }
  }

  lemma {:induction false} MovesAreGaps(h: seq<real>, m: real, lag: nat, n: nat)
    requires n + lag <= |h|
    ensures Gaps(Deviations(h, m), lag, -1.0, n) == Moves(h, lag, n)
  {
    if n > 0 {
      MovesAreGaps(h, m, lag, n - 1);
      var y := Deviations(h, m);
      OneMove(y[n - 1], y[n - 1 + lag], h[n - 1], h[n - 1 + lag], m);
    }
  }

  lemma OneMove(y: real, z: real, a: real, b: real, m: real)
    requires y == a - m && z == b - m
    ensures (y + -1.0 * z) * (y + -1.0 * z) == Square(b - a)
  {}

  predicate Varies(h: seq<real>) {
    exists i, j :: 0 <= i < j < |h| && h[i] != h[j]
  }

  lemma VariesSpreads(h: seq<real>)
    requires Varies(h)
    ensures h != [] && Spread(h, Mean(h), 0, |h|) != 0.0
  {
    var i, j :| 0 <= i < j < |h| && h[i] != h[j];
    var m := Mean(h);
    SpreadIsSquares(h, m, 0, |h|);
    assert Deviations(h, m)[i] == h[i] - m && Deviations(h, m)[j] == h[j] - m;
    hide Mean, Spread, Squares, Deviations;
    if Spread(h, m, 0, |h|) == 0.0 {
      NoSquares(Deviations(h, m), 0, |h|, i);
      NoSquares(Deviations(h, m), 0, |h|, j);
    }
  }

  /** The autocorrelation times the spread is the lagged sum. */
  lemma TimesSpread(h: seq<real>, lag: nat)
    requires lag < |h| && Spread(h, Mean(h), 0, |h|) != 0.0
    ensures Autocorr(h, lag) * Spread(h, Mean(h), 0, |h|) == Lagged(Deviations(h, Mean(h)), lag, |h| - lag)
  {
    var y := Deviations(h, Mean(h));
    EnergyIsSquares(y, |h|);
    SpreadIsSquares(h, Mean(h), 0, |h|);
    hide Lagged, Squares, Spread, Mean, Deviations;
    DivideBack(Lagged(y, lag, |h| - lag), Lagged(y, 0, |h|));
  }

  lemma DivideBack(l: real, e: real)
    requires e != 0.0
    ensures l / e * e == l
  {}

  /**
   For samples that are not all the same, twice the spread times what the autocorrelation falls short
   of 1 is the squared moves over the lag plus the squared deviations of the first and the last `lag`
   samples, which have no partner.
   */
  lemma AutocorrFromMoves(h: seq<real>, lag: nat)
    requires Varies(h) && lag < |h|
    ensures var m := Mean(h);
            2.0 * Spread(h, m, 0, |h|) * (1.0 - Autocorr(h, lag))
            == Moves(h, lag, |h| - lag) + Spread(h, m, 0, lag) + Spread(h, m, |h| - lag, lag)
  {
    hide *;
    VariesSpreads(h);
    var m, n := Mean(h), |h| - lag;
    LaggedFromMoves(h, m, lag);
    TimesSpread(h, lag);
    Shortfall(Spread(h, m, 0, |h|), Autocorr(h, lag), Lagged(Deviations(h, m), lag, n),
              Moves(h, lag, n) + Spread(h, m, 0, lag) + Spread(h, m, n, lag));
  }

  lemma LaggedFromMoves(h: seq<real>, m: real, lag: nat)
    requires lag < |h|
    ensures 2.0 * Spread(h, m, 0, |h|) - 2.0 * Lagged(Deviations(h, m), lag, |h| - lag)
         == Moves(h, lag, |h| - lag) + Spread(h, m, 0, lag) + Spread(h, m, |h| - lag, lag)
  {
    hide *;
    var y, n := Deviations(h, m), |h| - lag;
    SumOfSquares(y, lag, -1.0);
    EnergyIsSquares(y, |h|);
    SpreadIsSquares(h, m, 0, |h|);
    SpreadIsSquares(h, m, 0, lag);
    SpreadIsSquares(h, m, n, lag);
    MovesAreGaps(h, m, lag, n);
    var e, l := Lagged(y, 0, |h|), Lagged(y, lag, n);
    assert 2.0 * e + 2.0 * -1.0 * l == 2.0 * e - 2.0 * l;
    assert e == Spread(h, m, 0, |h|);
    var g := Gaps(y, lag, -1.0, n) + Squares(y, 0, lag) + Squares(y, n, lag);
    assert 2.0 * e + 2.0 * -1.0 * l == g;
    assert g == Moves(h, lag, n) + Spread(h, m, 0, lag) + Spread(h, m, n, lag);
  }

  lemma Shortfall(e: real, a: real, l: real, g: real)
    requires a * e == l && 2.0 * e - 2.0 * l == g
    ensures 2.0 * e * (1.0 - a) == g
  {}

  /** A lag not below the history size gives 0, and so does any lag over samples that are all the same. */
  lemma AutocorrZero(h: seq<real>, lag: nat)
    requires lag >= |h| || !Varies(h)
    ensures Autocorr(h, lag) == 0.0
  {
    if lag < |h| {
      AllSame(h);
      var y := Deviations(h, Mean(h));
      assert forall i :: 0 <= i < |h| ==> y[i] == 0.0;
      ZeroEnergy(y, |h|);
    }
  }

  /** Samples that are all the same are their mean. */
  lemma AllSame(h: seq<real>)
    requires h != [] && !Varies(h)
    ensures forall i :: 0 <= i < |h| ==> h[i] == Mean(h)
  {
    SumOfSame(h, |h|);
    assert h[..|h|] == h;
    MeanTimes(h);
    hide Mean, Sum;
    SameFactor(|h| as real, Mean(h), h[0]);
    forall i | 0 <= i < |h|
      ensures h[i] == h[0]
    {
      assert i > 0 ==> !(h[0] != h[i]);
    }
  }

  lemma SameFactor(n: real, a: real, b: real)
    requires n > 0.0 && n * a == n * b
    ensures a == b
  {
    assert n * (a - b) == 0.0;
  }

  lemma {:induction false} SumOfSame(h: seq<real>, n: nat)
    requires h != [] && !Varies(h) && n <= |h|
    ensures Sum(h[..n]) == n as real * h[0]
  {
    if n > 0 {
      SumOfSame(h, n - 1);
      assert h[..n][..n - 1] == h[..n - 1];
      assert n - 1 > 0 ==> !(h[0] != h[n - 1]);
      OneFewer(n as real, h[0]);
    }
  }

  // ---- All lags together ------------------------------------------------------------------------

  /** The autocorrelations at lags 1 to k. */
  function AutocorrSum(h: seq<real>, k: nat): real {
    if k == 0 then 0.0 else AutocorrSum(h, k - 1) + Autocorr(h, k)
  }

  /** The lagged sums of the first n elements at lags 1 to k. */
  function LaggedSum(y: seq<real>, n: nat, k: nat): real
    requires k <= n <= |y|
  {
    if k == 0 then 0.0 else LaggedSum(y, n, k - 1) + Lagged(y, k, n - k)
  }

  /** The last k of the first n elements. */
  function BackSum(y: seq<real>, n: nat, k: nat): real
    requires k <= n <= |y|
  {
    if k == 0 then 0.0 else BackSum(y, n, k - 1) + y[n - k]
  }

  /** Each element times all before it. */
  function Cross(y: seq<real>, n: nat): real
    requires n <= |y|
  {
    if n == 0 then 0.0 else Cross(y, n - 1) + y[n - 1] * BackSum(y, n - 1, n - 1)
  }

  /** One element more meets the k before it. */
  lemma {:induction false} OneMore(y: seq<real>, n: nat, k: nat, v: real)
    requires k <= n < |y| && v == y[n]
    ensures LaggedSum(y, n + 1, k) == LaggedSum(y, n, k) + v * BackSum(y, n, k)
  {
    hide BackSum, Lagged;
    if k == 0 {
      NoLags(y, n);
    } else {
      OneMore(y, n, k - 1, v);
      OneMoreLag(y, n, k);
      OneMoreMet(LaggedSum(y, n, k - 1), LaggedSum(y, n + 1, k - 1), Lagged(y, k, n - k), v, BackSum(y, n, k - 1),
                 y[n - k], LaggedSum(y, n, k), LaggedSum(y, n + 1, k), BackSum(y, n, k));
    }
  }

  lemma OneMoreMet(a: real, b: real, l: real, v: real, s: real, x: real, a': real, b': real, s': real)
    requires b == a + v * s && a' == a + l && b' == b + l + x * v && s' == s + x
    ensures b' == a' + v * s'
  {
    Distribute(v, s, x, s');
  }

  lemma NoLags(y: seq<real>, n: nat)
    requires n < |y|
    ensures LaggedSum(y, n + 1, 0) == LaggedSum(y, n, 0) == BackSum(y, n, 0) == 0.0
  {}

  lemma OneMoreLag(y: seq<real>, n: nat, k: nat)
    requires 0 < k <= n < |y|
    ensures LaggedSum(y, n + 1, k) == LaggedSum(y, n + 1, k - 1) + Lagged(y, k, n - k) + y[n - k] * y[n]
    ensures LaggedSum(y, n, k) == LaggedSum(y, n, k - 1) + Lagged(y, k, n - k)
    ensures BackSum(y, n, k) == BackSum(y, n, k - 1) + y[n - k]
  {
    assert Lagged(y, k, n + 1 - k) == Lagged(y, k, n - k) + y[n - k] * y[n];
    hide Lagged;
  }

  lemma Distribute(v: real, a: real, b: real, c: real)
    requires c == a + b
    ensures v * c == v * a + b * v && c * v == a * v + b * v
  {}

  lemma {:induction false} AllLagsAreCross(y: seq<real>, n: nat)
    requires 0 < n <= |y|
    ensures LaggedSum(y, n, n - 1) == Cross(y, n)
  {
    if n > 1 {
      AllLagsAreCross(y, n - 1);
      OneMore(y, n - 1, n - 1, y[n - 1]);
      assert LaggedSum(y, n - 1, n - 1) == LaggedSum(y, n - 1, n - 2) + Lagged(y, n - 1, 0);
    }
  }

  /** The square of the sum: every square once, every product of two twice. */
  lemma {:induction false} SquareOfSum(y: seq<real>, n: nat)
    requires n <= |y|
    ensures Square(BackSum(y, n, n)) == Squares(y, 0, n) + 2.0 * Cross(y, n)
  {
    hide *;
    if n == 0 {
      NoSquares0(y);
    } else {
      SquareOfSum(y, n - 1);
      BackSumMore(y, n - 1, n - 1);
      Binomial(BackSum(y, n - 1, n - 1), y[n - 1]);
      SquaresNext(y, n);
    }
  }

  lemma NoSquares0(y: seq<real>)
    ensures Square(BackSum(y, 0, 0)) == Squares(y, 0, 0) == Cross(y, 0) == 0.0
  {}

  lemma SquaresNext(y: seq<real>, n: nat)
    requires 0 < n <= |y|
    ensures Squares(y, 0, n) == Squares(y, 0, n - 1) + y[n - 1] * y[n - 1]
    ensures Cross(y, n) == Cross(y, n - 1) + y[n - 1] * BackSum(y, n - 1, n - 1)
  {}

  lemma Binomial(a: real, b: real)
    ensures Square(a + b) == Square(a) + b * b + 2.0 * (b * a)
  {}

  lemma {:induction false} BackSumMore(y: seq<real>, n: nat, k: nat)
    requires k <= n < |y|
    ensures BackSum(y, n + 1, k + 1) == BackSum(y, n, k) + y[n]
  {
    if k > 0 { BackSumMore(y, n, k - 1); }
  }

  /** The deviations from the mean cancel. */
  lemma DeviationsCancel(h: seq<real>)
    requires h != []
    ensures BackSum(Deviations(h, Mean(h)), |h|, |h|) == 0.0
  {
    hide *;
    DeviationsSum(h, Mean(h), |h|);
    assert h[..|h|] == h;
    MeanTimes(h);
  }

  lemma MeanTimes(h: seq<real>)
    requires h != []
    ensures |h| as real * Mean(h) == Sum(h)
  {
    DivideBack(Sum(h), |h| as real);
  }

  lemma {:induction false} DeviationsSum(h: seq<real>, m: real, n: nat)
    requires n <= |h|
    ensures BackSum(Deviations(h, m), n, n) == Sum(h[..n]) - n as real * m
  {
    if n > 0 {
      DeviationsSum(h, m, n - 1);
      BackSumMore(Deviations(h, m), n - 1, n - 1);
      assert h[..n][..n - 1] == h[..n - 1];
      OneFewer(n as real, m);
    }
  }

  lemma OneFewer(n: real, m: real)
    ensures (n - 1.0) * m + m == n * m
  {}

  lemma {:induction false} SumTimesSpread(h: seq<real>, k: nat)
    requires k < |h| && Spread(h, Mean(h), 0, |h|) != 0.0
    ensures AutocorrSum(h, k) * Spread(h, Mean(h), 0, |h|) == LaggedSum(Deviations(h, Mean(h)), |h|, k)
  {
    hide *;
    var y, e := Deviations(h, Mean(h)), Spread(h, Mean(h), 0, |h|);
    SumsNext(h, y, k);
    if k > 0 {
      SumTimesSpread(h, k - 1);
      TimesSpread(h, k);
      Distribute(e, AutocorrSum(h, k - 1), Autocorr(h, k), AutocorrSum(h, k));
    }
  }

  lemma SumsNext(h: seq<real>, y: seq<real>, k: nat)
    requires k < |h| == |y|
    ensures k == 0 ==> AutocorrSum(h, k) == LaggedSum(y, |h|, k) == 0.0
    ensures k > 0 ==> AutocorrSum(h, k) == AutocorrSum(h, k - 1) + Autocorr(h, k)
    ensures k > 0 ==> LaggedSum(y, |h|, k) == LaggedSum(y, |h|, k - 1) + Lagged(y, k, |h| - k)
  {}

  /** For samples that are not all the same, the values at all positive lags add up to -1/2. */
  lemma LagsSumToMinusHalf(h: seq<real>)
    requires Varies(h)
    ensures AutocorrSum(h, |h| - 1) == -0.5
  {
    VariesSpreads(h);
    hide *;
    var n := |h|;
    var y, e := Deviations(h, Mean(h)), Spread(h, Mean(h), 0, n);
    SumTimesSpread(h, n - 1);
    AllLagsAreCross(y, n);
    SquareOfSum(y, n);
    DeviationsCancel(h);
    SpreadIsSquares(h, Mean(h), 0, n);
    HalfOf(AutocorrSum(h, n - 1), e, Cross(y, n));
  }

  lemma HalfOf(a: real, e: real, c: real)
    requires e != 0.0 && a * e == c && Square(0.0) == e + 2.0 * c
    ensures a == -0.5
  {
    assert (a + 0.5) * e == 0.0;
  }
}
