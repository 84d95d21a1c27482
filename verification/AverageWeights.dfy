/** The weights that Wilder's ATR and the EMA give to each value they have seen. */
module AverageWeights {
  import opened RealArithmetic
  import opened Sorting
  import opened CausalBars
  import opened CausalFeatures

  function Power(x: real, k: nat): real {
    if k == 0 then 1.0 else x * Power(x, k - 1)
  }

  /** Of the first n values, the one with j of the k values after it weighs keep^j * unit^(k - 1 - j). */
  function Weighted(v: seq<real>, keep: real, unit: real, k: nat, n: nat): real
    requires n <= k && n <= |v|
  {
    if n == 0 then 0.0
    else Weighted(v, keep, unit, k, n - 1) + Power(keep, k - n) * Power(unit, n - 1) * v[n - 1]
  }

  lemma {:induction false} OneStepLater(v: seq<real>, keep: real, unit: real, k: nat, n: nat)
    requires n <= k && n <= |v|
    ensures Weighted(v, keep, unit, k + 1, n) == keep * Weighted(v, keep, unit, k, n)
  {
    if n > 0 {
      OneStepLater(v, keep, unit, k, n - 1);
      var w, u, x := Power(keep, k - n), Power(unit, n - 1), v[n - 1];
      assert Power(keep, k + 1 - n) == keep * w;
      Associate(keep, w, u);
      Associate(keep, w * u, x);
      Distribute(w * u * x, Weighted(v, keep, unit, k, n - 1), keep);
    }
  }

  /** After k steps that keep `keep` parts of `unit` each, the average is the seed and the values since, so weighted. */
  ghost predicate IsWeighted(average: real, seed: real, v: seq<real>, keep: real, unit: real, k: nat)
    requires k <= |v|
  {
    average * Power(unit, k) == seed * Power(keep, k) + Weighted(v, keep, unit, k, k)
  }

  /** One step of an average that keeps `keep` parts of `unit` of its last value. */
  lemma StepOfWeights(before: real, after: real, seed: real, v: seq<real>, keep: real, unit: real, k: nat)
    requires 1 <= k <= |v|
    requires after * unit == before * keep + v[k - 1]
    requires IsWeighted(before, seed, v, keep, unit, k - 1)
    ensures IsWeighted(after, seed, v, keep, unit, k)
  {
    var u, x, w := Power(unit, k - 1), v[k - 1], Weighted(v, keep, unit, k - 1, k - 1);
    Associate(after, unit, u);
    Distribute(x, before * keep, u);
    assert before * keep * u == keep * (before * u);
    Distribute(seed * Power(keep, k - 1), w, keep);
    OneStepLater(v, keep, unit, k - 1, k - 1);
    assert Power(keep, 0) == 1.0;
  }

  // ---------- Wilder's ATR ----------

  /** The true ranges from bar `first` on. */
  function RangesFrom(rows: seq<Bar>, first: nat): (v: seq<real>)
    requires first <= |rows|
    ensures |v| == |rows| - first && forall t :: 0 <= t < |v| ==> v[t] == TrueRange(rows, first + t)
  {
    seq(|rows| - first, t requires 0 <= t < |rows| - first => TrueRange(rows, first + t))
  }

  /** With a low not above the high, the true range spans the bar and the close before it. */
  lemma TrueRangeSpans(rows: seq<Bar>, i: nat)
    requires i < |rows| && rows[i].low <= rows[i].high
    ensures i == 0 ==> TrueRange(rows, i) == rows[i].high - rows[i].low
    ensures i > 0 ==>
              TrueRange(rows, i) == Larger(rows[i].high, rows[i - 1].close) - Smaller(rows[i].low, rows[i - 1].close)
  {
  }

  lemma WilderTimes(previous: real, range: real, period: nat)
    requires period >= 1
    ensures WilderStep(previous, range, period) * period as real == previous * (period - 1) as real + range
  {
    QuotientTimes(previous * (period - 1) as real + range, period as real);
  }

  /** The k-th ATR after the seed: the seed, the mean of the first true ranges, has kept (period - 1)^k parts of
      period^k, and each true range since has lost one part in `period` at every step after it. */
  lemma {:induction false} AtrIsWeighted(rows: seq<Bar>, period: nat, i: nat)
    requires 1 <= period <= i + 1 && i < |rows|
    ensures IsWeighted(Atr(rows, period, i), TrueRangeSum(rows, period) / period as real, RangesFrom(rows, period),
                       (period - 1) as real, period as real, i + 1 - period)
  {
    hide *;
    var k, unit, keep := i + 1 - period, period as real, (period - 1) as real;
    var v, seed := RangesFrom(rows, period), TrueRangeSum(rows, period) / period as real;
    AtrCases(rows, period, i);
    if k == 0 {
      NothingWeighted(seed, v, keep, unit);
    } else {
      AtrIsWeighted(rows, period, i - 1);
      StepOfWeights(Atr(rows, period, i - 1), Atr(rows, period, i), seed, v, keep, unit, k);
    }
  }

  lemma AtrCases(rows: seq<Bar>, period: nat, i: nat)
    requires 1 <= period <= i + 1 && i < |rows|
    ensures i + 1 == period ==> Atr(rows, period, i) == TrueRangeSum(rows, period) / period as real
    ensures i + 1 > period ==>
              Atr(rows, period, i) * period as real
              == Atr(rows, period, i - 1) * (period - 1) as real + RangesFrom(rows, period)[i - period]
  {
    hide WilderStep, TrueRange, TrueRangeSum;
    if i + 1 > period {
      WilderTimes(Atr(rows, period, i - 1), TrueRange(rows, i), period);
    }
  }

  lemma NothingWeighted(seed: real, v: seq<real>, keep: real, unit: real)
    ensures IsWeighted(seed, seed, v, keep, unit, 0)
  {
  }

  lemma {:induction false} SeriesEntries(rows: seq<Bar>, period: nat, n: nat, k: nat)
    requires period >= 1 && n <= |rows| && k < |AtrUpTo(rows, period, n)|
    ensures AtrUpTo(rows, period, n)[k] == (rows[period - 1 + k].closeTime, Atr(rows, period, period - 1 + k))
  {
    hide Atr;
    if k < n - period {
      SeriesEntries(rows, period, n - 1, k);
    }
  }

  /** The whole series: one entry for each bar from the period-th on, at its close, with these weights. */
  lemma SeriesIsWeighted(bars: seq<Bar>, period: nat, k: nat)
    requires period >= 1 && k < |AtrSeries(bars, period)|
    ensures |AtrSeries(bars, period)| == |bars| + 1 - period
    ensures var rows, (time, atr) := Sort(BY_CLOSE, bars), AtrSeries(bars, period)[k];
            && |rows| == |bars| && time == rows[period - 1 + k].closeTime
            && IsWeighted(atr, TrueRangeSum(rows, period) / period as real, RangesFrom(rows, period),
                          (period - 1) as real, period as real, k)
  {
    hide Sort, Atr, IsWeighted, RangesFrom, TrueRangeSum;
    var rows := Sort(BY_CLOSE, bars);
    SortIsPermutation(BY_CLOSE, bars);
    MembersOfPermutation(rows, bars);
    SeriesEntries(rows, period, |rows|, k);
    AtrIsWeighted(rows, period, period - 1 + k);
  }

  /** The distance to t has shrunk k times to `keep` parts of `unit`. */
  ghost predicate HasShrunk(average: real, seed: real, t: real, keep: real, unit: real, k: nat) {
    (average - t) * Power(unit, k) == (seed - t) * Power(keep, k)
  }

  /** When every true range after the seed is t, the distance to t shrinks by (period - 1) / period at every step. */
  lemma {:induction false} AtrApproaches(rows: seq<Bar>, period: nat, i: nat, t: real)
    requires 1 <= period <= i + 1 && i < |rows|
    requires forall j :: period <= j <= i ==> TrueRange(rows, j) == t
    ensures HasShrunk(Atr(rows, period, i), TrueRangeSum(rows, period) / period as real, t,
                      (period - 1) as real, period as real, i + 1 - period)
  {
    hide *;
    var k, unit, keep := i + 1 - period, period as real, (period - 1) as real;
    var seed := TrueRangeSum(rows, period) / period as real;
    AtrCases(rows, period, i);
    if k == 0 {
      NothingShrunk(seed, t, keep, unit);
    } else {
      AtrApproaches(rows, period, i - 1, t);
      ApproachStep(Atr(rows, period, i - 1), Atr(rows, period, i), seed, t, keep, unit, k);
    }
  }

  lemma NothingShrunk(seed: real, t: real, keep: real, unit: real)
    ensures HasShrunk(seed, seed, t, keep, unit, 0)
  {
  }

  lemma ApproachStep(before: real, after: real, seed: real, t: real, keep: real, unit: real, k: nat)
    requires k >= 1 && unit == keep + 1.0 && after * unit == before * keep + t
    requires HasShrunk(before, seed, t, keep, unit, k - 1)
    ensures HasShrunk(after, seed, t, keep, unit, k)
  {
    var u, w := Power(unit, k - 1), Power(keep, k - 1);
    Distribute(t, after, unit);
    Distribute(t, before, keep);
    assert t * unit == t * keep + t;
    assert (after - t) * unit == (before - t) * keep;
    Associate(after - t, unit, u);
    assert (before - t) * keep * u == keep * ((before - t) * u);
    assert keep * ((seed - t) * w) == (seed - t) * (keep * w);
  }

  // ---------- EMA ----------

  /** Twice the closes from bar `first` on. */
  function DoubledCloses(bars: seq<Bar>, first: nat): (v: seq<real>)
    requires first <= |bars|
    ensures |v| == |bars| - first && forall t :: 0 <= t < |v| ==> v[t] == 2.0 * bars[first + t].close
  {
    seq(|bars| - first, t requires 0 <= t < |bars| - first => 2.0 * bars[first + t].close)
  }

  lemma EmaTimes(bars: seq<Bar>, period: nat, n: nat)
    requires 1 <= period < n <= |bars|
    ensures Ema(bars, period, n) * (period + 1) as real
            == Ema(bars, period, n - 1) * (period - 1) as real + 2.0 * bars[n - 1].close
  {
    var p, previous, close := (period + 1) as real, Ema(bars, period, n - 1), bars[n - 1].close;
    var m := 2.0 / p;
    QuotientTimes(2.0, p);
    Distribute(previous, (close - previous) * m, p);
    Associate(close - previous, m, p);
    assert (period - 1) as real == p - 2.0;
    Distribute(2.0, p, previous);
  }

  /** The EMA over n bars: the mean of the first closes has kept (period - 1)^k parts of (period + 1)^k, and twice each
      close since has lost two parts in period + 1 at every step after it. */
  lemma {:induction false} EmaIsWeighted(bars: seq<Bar>, period: nat, n: nat)
    requires 1 <= period <= n <= |bars|
    ensures IsWeighted(Ema(bars, period, n), CloseSum(bars, period) / period as real, DoubledCloses(bars, period),
                       (period - 1) as real, (period + 1) as real, n - period)
  {
    hide *;
    var k, unit, keep := n - period, (period + 1) as real, (period - 1) as real;
    var v, seed := DoubledCloses(bars, period), CloseSum(bars, period) / period as real;
    if k == 0 {
      EmaSeed(bars, period);
      NothingWeighted(seed, v, keep, unit);
    } else {
      EmaIsWeighted(bars, period, n - 1);
      EmaTimes(bars, period, n);
      StepOfWeights(Ema(bars, period, n - 1), Ema(bars, period, n), seed, v, keep, unit, k);
    }
  }

  lemma EmaSeed(bars: seq<Bar>, period: nat)
    requires 1 <= period <= |bars|
    ensures Ema(bars, period, period) == CloseSum(bars, period) / period as real
  {
    hide CloseSum;
  }
}
