/** The autocorrelation load predictor, over reals. */
module LoadPredictor {
  import opened Arith
  import opened Config

  /** The samples less their mean. */
  function Deviations(h: seq<real>, mean: real): (d: seq<real>)
    ensures |d| == |h|
  {
    seq(|h|, i requires 0 <= i < |h| => h[i] - mean)
  }

  function Mean(h: seq<real>): real
    requires h != []
  {
    Sum(h) / |h| as real
  }

  /** Sum of y[i] * y[i + lag] for i below n. */
  function Lagged(y: seq<real>, lag: nat, n: nat): real
    requires n + lag <= |y|
  {
    if n == 0 then 0.0 else Lagged(y, lag, n - 1) + y[n - 1] * y[n - 1 + lag]
  }

  function Autocorr(h: seq<real>, lag: nat): real {
    if lag >= |h| then 0.0
    else
      var y := Deviations(h, Mean(h));
      var denom := Lagged(y, 0, |h|);
      if denom != 0.0 then Lagged(y, lag, |h| - lag) / denom else 0.0
  }

  class Predictor {
    const history: array<real>
    var pos: uint64
    var lastPrediction: real

    ghost predicate Valid()
      reads this
    {
      history.Length > 0
    }

    constructor (size: nat)
      requires size > 0
      ensures Valid() && fresh(history) && history.Length == size && pos == 0
    {
      history := new real[size];
      pos := 0;
      lastPrediction := 0.0;
    }

    method AddSample(value: real)
      requires Valid()
      modifies this`pos, history
      ensures Valid() && history[old(pos) % history.Length] == value
      ensures history[..] == old(history[..])[old(pos) % history.Length := value]
      ensures pos == (old(pos) + 1) % 0x1_0000_0000_0000_0000
    {
      history[pos % history.Length] := value;
      pos := (pos + 1) % 0x1_0000_0000_0000_0000;
    }

    method Autocorrelation(lag: nat) returns (r: real)
      requires Valid()
      ensures r == Autocorr(history[..], lag)
    {
      var n := history.Length;
      if lag >= n { return 0.0; }
      var mean := MeanOf();
      var num := LaggedSum(mean, lag, n - lag);
      var denom := LaggedSum(mean, 0, n);
      r := if denom != 0.0 then num / denom else 0.0;
    }

    method MeanOf() returns (mean: real)
      requires Valid()
      ensures mean == Mean(history[..])
    {
      ghost var h := history[..];
      mean := 0.0;
      for i := 0 to history.Length
        invariant mean == Sum(h[..i])
      {
        assert h[..i + 1][..i] == h[..i];
        mean := mean + history[i];
      }
      assert h[..history.Length] == h;
      mean := mean / history.Length as real;
    }

    method LaggedSum(mean: real, lag: nat, n: nat) returns (sum: real)
      requires n + lag <= history.Length
      ensures sum == Lagged(Deviations(history[..], mean), lag, n)
    {
      sum := 0.0;
      for i := 0 to n
        invariant sum == Lagged(Deviations(history[..], mean), lag, i)
      {
        sum := sum + (history[i] - mean) * (history[i + lag] - mean);
      }
    }

    lemma HistoryExists()
      requires Valid()
      ensures history.Length > 0
    {}

    /** The newest sample times the correlation at lag one; before any sample `pos - 1` wraps around. */
    method Predict() returns (r: real)
      requires Valid()
      modifies this`lastPrediction
      ensures r == history[LastIndex(pos, history.Length)] * Autocorr(history[..], 1)
      ensures lastPrediction == r
      ensures Abs(r) <= Abs(history[LastIndex(pos, history.Length)])
    {
      hide *;
      assert history.Length > 0 by { HistoryExists(); }
      var corr := Autocorrelation(1);
      var last := history[LastIndex(pos, history.Length)];
      PredictionBounded(history[..], last, corr);
      lastPrediction := last * corr;
      r := lastPrediction;
    }
  }

  /** (pos - 1) % size with the unsigned wraparound of pos - 1. */
  function LastIndex(pos: uint64, size: nat): (i: nat)
    requires size > 0
    ensures i < size
  {
    Mod((pos - 1) % 0x1_0000_0000_0000_0000, size)
  }

  // ---- The bound ----------------------------------------------------------------------------

  /** Sum of squares of y[from..from + n]. */
  function Squares(y: seq<real>, from: nat, n: nat): (r: real)
    requires from + n <= |y|
    ensures r >= 0.0
  {
    if n == 0 then 0.0 else Squares(y, from, n - 1) + y[from + n - 1] * y[from + n - 1]
  }

  /** Sum of (y[i] + sign * y[i + lag])^2 for i below n. */
  function Gaps(y: seq<real>, lag: nat, sign: real, n: nat): (r: real)
    requires n + lag <= |y|
    ensures r >= 0.0
  {
    if n == 0 then 0.0
    else
      var g := y[n - 1] + sign * y[n - 1 + lag];
      assert g * g >= 0.0;
      Gaps(y, lag, sign, n - 1) + g * g
  }

  lemma {:induction false} GapsExpand(y: seq<real>, lag: nat, sign: real, n: nat)
    requires n + lag <= |y| && (sign == 1.0 || sign == -1.0)
    ensures Gaps(y, lag, sign, n) == Squares(y, 0, n) + Squares(y, lag, n) + 2.0 * sign * Lagged(y, lag, n)
  {
    if n > 0 {
      GapsExpand(y, lag, sign, n - 1);
    }
  }

  lemma {:induction false} SquaresSplit(y: seq<real>, from: nat, a: nat, b: nat)
    requires from + a + b <= |y|
    ensures Squares(y, from, a + b) == Squares(y, from, a) + Squares(y, from + a, b)
  {
    if b > 0 {
      SquaresSplit(y, from, a, b - 1);
    }
  }

  lemma {:induction false} EnergyIsSquares(y: seq<real>, n: nat)
    requires n <= |y|
    ensures Lagged(y, 0, n) == Squares(y, 0, n)
  {
    if n > 0 { EnergyIsSquares(y, n - 1); }
  }

  /** Twice the energy plus or minus twice the lagged sum is a sum of squares. */
  lemma SumOfSquares(y: seq<real>, lag: nat, sign: real)
    requires lag <= |y| && (sign == 1.0 || sign == -1.0)
    ensures var m := |y| - lag;
            2.0 * Lagged(y, 0, |y|) + 2.0 * sign * Lagged(y, lag, m)
            == Gaps(y, lag, sign, m) + Squares(y, 0, lag) + Squares(y, m, lag)
  {
    var m := |y| - lag;
    EnergyIsSquares(y, |y|);
    SquaresSplit(y, 0, m, lag);
    SquaresSplit(y, 0, lag, m);
    GapsExpand(y, lag, sign, m);
  }

  lemma {:induction false} NoSquares(y: seq<real>, from: nat, n: nat, i: nat)
    requires from + n <= |y| && Squares(y, from, n) == 0.0 && from <= i < from + n
    ensures y[i] == 0.0
  {
    var x := y[from + n - 1];
    assert x * x >= 0.0 && Squares(y, from, n - 1) >= 0.0;
    if i < from + n - 1 { NoSquares(y, from, n - 1, i); } else { NoSquare(x); }
  }

  lemma ProductPositive(a: real, b: real, p: real)
    requires a > 0.0 && b > 0.0 && p == a * b
    ensures p > 0.0
  {}

  lemma NoSquare(x: real)
    requires x * x == 0.0
    ensures x == 0.0
  {
    if x > 0.0 { ProductPositive(x, x, x * x); }
    if x < 0.0 { ProductPositive(-x, -x, x * x); }
  }

  lemma NonNegativeSum(r: real, g: real)
    requires r >= 0.0 && r + g * g == 0.0
    ensures r == 0.0 && g * g == 0.0
  {}

  lemma {:induction false} NoGaps(y: seq<real>, lag: nat, sign: real, n: nat, i: nat)
    requires n + lag <= |y| && Gaps(y, lag, sign, n) == 0.0 && i < n
    ensures y[i] + sign * y[i + lag] == 0.0
  {
    var g := y[n - 1] + sign * y[n - 1 + lag];
    NonNegativeSum(Gaps(y, lag, sign, n - 1), g);
    if i < n - 1 { NoGaps(y, lag, sign, n - 1, i); } else { NoSquare(g); }
  }

  /** If the sum of squares vanishes then so does every deviation. */
  lemma {:induction false} AllZero(y: seq<real>, lag: nat, sign: real, i: nat)
    requires 0 < lag <= |y| && (sign == 1.0 || sign == -1.0) && i < |y|
    requires Gaps(y, lag, sign, |y| - lag) == 0.0 && Squares(y, 0, lag) == 0.0
    ensures y[i] == 0.0
  {
    if i < lag {
      NoSquares(y, 0, lag, i);
    } else {
      AllZero(y, lag, sign, i - lag);
      NoGaps(y, lag, sign, |y| - lag, i - lag);
    }
  }

  lemma {:induction false} ZeroEnergy(y: seq<real>, n: nat)
    requires n <= |y| && forall i :: 0 <= i < |y| ==> y[i] == 0.0
    ensures Lagged(y, 0, n) == 0.0
  {
    if n > 0 { ZeroEnergy(y, n - 1); }
  }

  /** The lagged sum never exceeds the energy, and for a positive lag it stays strictly below it. */
  lemma LaggedBelowEnergy(y: seq<real>, lag: nat, sign: real)
    requires lag < |y| && (sign == 1.0 || sign == -1.0)
    ensures var e, l := Lagged(y, 0, |y|), Lagged(y, lag, |y| - lag);
            e + sign * l >= 0.0 && (lag > 0 && e != 0.0 ==> e + sign * l > 0.0)
  {
    SumOfSquares(y, lag, sign);
    if lag > 0 && Lagged(y, 0, |y|) + sign * Lagged(y, lag, |y| - lag) == 0.0 {
      forall i | 0 <= i < |y| ensures y[i] == 0.0 { AllZero(y, lag, sign, i); }
      ZeroEnergy(y, |y|);
    }
  }

  /**
   For every history the value lies in [-1, 1]; at lag 0 it is 1 unless the history is constant, and
   at every positive lag it is strictly inside.
   */
  lemma AutocorrBounded(h: seq<real>, lag: nat)
    requires h != []
    ensures -1.0 <= Autocorr(h, lag) <= 1.0
    ensures lag > 0 ==> -1.0 < Autocorr(h, lag) < 1.0
    ensures lag == 0 ==> Autocorr(h, 0) == if forall i :: 0 <= i < |h| ==> h[i] == Mean(h) then 0.0 else 1.0
  {
    if lag < |h| {
      var y := Deviations(h, Mean(h));
      LaggedBelowEnergy(y, lag, 1.0);
      LaggedBelowEnergy(y, lag, -1.0);
      EnergyIsSquares(y, |h|);
      var e, l := Lagged(y, 0, |h|), Lagged(y, lag, |h| - lag);
      if e != 0.0 {
        Quotient(l, e);
        if forall i :: 0 <= i < |h| ==> h[i] == Mean(h) { ZeroEnergy(y, |h|); }
      } else {
        forall i | 0 <= i < |h| ensures h[i] == Mean(h) { NoSquares(y, 0, |h|, i); assert y[i] == h[i] - Mean(h); }
      }
    }
  }

  lemma Quotient(l: real, e: real)
    requires e > 0.0 && -e <= l <= e
    ensures -1.0 <= l / e <= 1.0 && (l < e ==> l / e < 1.0) && (l > -e ==> l / e > -1.0) && (l == e ==> l / e == 1.0)
  {}

  function Abs(x: real): real { if x < 0.0 then -x else x }

  /** The prediction is smaller in absolute value than the last sample, unless both are 0. */
  lemma PredictionBounded(h: seq<real>, last: real, corr: real)
    requires h != [] && corr == Autocorr(h, 1)
    ensures Abs(last * corr) <= Abs(last)
    ensures last != 0.0 ==> Abs(last * corr) < Abs(last)
  {
    AutocorrBounded(h, 1);
    Shrinks(last, corr);
  }

  lemma Shrinks(x: real, c: real)
    requires -1.0 < c < 1.0
    ensures Abs(x * c) <= Abs(x) && (x != 0.0 ==> Abs(x * c) < Abs(x))
  {}

  /** The slot read as the last sample is the one written last, also when the counter has just wrapped. */
  lemma LastIsNewest(pos: uint64, size: nat)
    requires size > 0
    ensures LastIndex((pos + 1) % 0x1_0000_0000_0000_0000, size) == pos % size
  {}
}
