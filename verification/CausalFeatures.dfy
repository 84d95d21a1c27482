/** Wilder ATR, EMA and confirmed swings over completed bars, and why later candles never change them. */
module CausalFeatures {
  import opened Prelude
  import opened RealArithmetic
  import opened Sorting
  import opened CausalBars

  // ---------- Wilder ATR ----------

  const BY_CLOSE: (Bar, Bar) -> bool := (a: Bar, b: Bar) => a.closeTime < b.closeTime

  function Gap(a: real, b: real): real {
    if a >= b then a - b else b - a
  }

  function TrueRange(rows: seq<Bar>, i: nat): real
    requires i < |rows|
  {
    var bar := rows[i];
    if i == 0 then bar.high - bar.low
    else
      var previousClose := rows[i - 1].close;
      Larger(Larger(bar.high - bar.low, Gap(bar.high, previousClose)), Gap(bar.low, previousClose))
  }

  function TrueRangeSum(rows: seq<Bar>, n: nat): real
    requires n <= |rows|
  {
    if n == 0 then 0.0 else TrueRangeSum(rows, n - 1) + TrueRange(rows, n - 1)
  }

  function Mean(total: real, period: nat): real
    requires period >= 1
  {
    total / period as real
  }

  function WilderStep(previous: real, range: real, period: nat): real
    requires period >= 1
  {
    (previous * (period - 1) as real + range) / period as real
  }

  /** The mean of the first `period` true ranges, then Wilder's recursion. */
  function Atr(rows: seq<Bar>, period: nat, i: nat): real
    requires 1 <= period <= i + 1 && i < |rows|
  {
    if i + 1 == period then Mean(TrueRangeSum(rows, period), period)
    else WilderStep(Atr(rows, period, i - 1), TrueRange(rows, i), period)
  }

  function AtrSeries(bars: seq<Bar>, period: nat): seq<(int, real)>
    requires period >= 1
  {
    var rows := Sort(BY_CLOSE, bars);
    AtrUpTo(rows, period, |rows|)
  }

  function AtrUpTo(rows: seq<Bar>, period: nat, n: nat): (out: seq<(int, real)>)
    requires period >= 1 && n <= |rows|
    ensures |out| == if n < period then 0 else n + 1 - period
  {
    if n < period then [] else AtrUpTo(rows, period, n - 1) + [(rows[n - 1].closeTime, Atr(rows, period, n - 1))]
  }

  method WilderAtrSeries(bars: seq<Bar>, period: nat) returns (out: seq<(int, real)>)
    requires period >= 1
    ensures out == AtrSeries(bars, period)
  {
    hide Sort, TrueRange, Mean, WilderStep, Larger, Gap;
    var rows := Sort(BY_CLOSE, bars);
    if |rows| < period {
      return [];
    }
    var trueRanges: seq<real> := [];
    var previousClose: Option<real> := None;
    for i := 0 to |rows|
      invariant |trueRanges| == i && forall j :: 0 <= j < i ==> trueRanges[j] == TrueRange(rows, j)
      invariant previousClose == if i == 0 then None else Some(rows[i - 1].close)
    {
      var bar := rows[i];
      var range: real;
      if previousClose.None? {
        range := bar.high - bar.low;
      } else {
        range := Larger(Larger(bar.high - bar.low, Gap(bar.high, previousClose.value)),
                        Gap(bar.low, previousClose.value));
      }
      TrueRangeRule(rows, i);
      trueRanges := trueRanges + [range];
      previousClose := Some(bar.close);
    }
    var total := 0.0;
    for i := 0 to period
      invariant total == TrueRangeSum(rows, i)
    {
      total := total + trueRanges[i];
    }
    var atr := Mean(total, period);
    out := [(rows[period - 1].closeTime, atr)];
    assert AtrUpTo(rows, period, period - 1) == [];
    for i := period to |rows|
      invariant out == AtrUpTo(rows, period, i) && atr == Atr(rows, period, i - 1)
    {
      atr := WilderStep(atr, trueRanges[i], period);
      out := out + [(rows[i].closeTime, atr)];
    }
  }

  lemma TrueRangeRule(rows: seq<Bar>, i: nat)
    requires i < |rows|
    ensures TrueRange(rows, i)
            == if i == 0 then rows[i].high - rows[i].low
               else Larger(Larger(rows[i].high - rows[i].low, Gap(rows[i].high, rows[i - 1].close)),
                           Gap(rows[i].low, rows[i - 1].close))
  {
  }

  lemma {:induction false} TrueRangeSumOfPrefix(before: seq<Bar>, after: seq<Bar>, n: nat)
    requires n <= |before| <= |after| && before == after[..|before|]
    ensures TrueRangeSum(before, n) == TrueRangeSum(after, n)
  {
    if n > 0 {
      TrueRangeSumOfPrefix(before, after, n - 1);
    }
  }

  lemma {:induction false} AtrOfPrefix(before: seq<Bar>, after: seq<Bar>, period: nat, i: nat)
    requires |before| <= |after| && before == after[..|before|]
    requires 1 <= period <= i + 1 && i < |before|
    ensures Atr(before, period, i) == Atr(after, period, i)
  {
    hide Mean, WilderStep, Larger, Gap;
    if i + 1 == period {
      TrueRangeSumOfPrefix(before, after, period);
    } else {
      AtrOfPrefix(before, after, period, i - 1);
    }
  }

  lemma {:induction false} AtrUpToOfPrefix(before: seq<Bar>, after: seq<Bar>, period: nat, n: nat)
    requires |before| <= |after| && before == after[..|before|] && period >= 1 && n <= |before|
    ensures AtrUpTo(before, period, n) == AtrUpTo(after, period, n)
  {
    if n >= period {
      AtrUpToOfPrefix(before, after, period, n - 1);
      AtrOfPrefix(before, after, period, n - 1);
    }
  }

  lemma {:induction false} AtrUpToGrows(rows: seq<Bar>, period: nat, m: nat, n: nat)
    requires period >= 1 && m <= n <= |rows|
    ensures AtrUpTo(rows, period, m) <= AtrUpTo(rows, period, n)
  {
    if m < n {
      AtrUpToGrows(rows, period, m, n - 1);
    }
  }

  lemma BarsAreSortedByClose(candles: seq<Candle>, minutes: int, cutoff: int)
    requires minutes > 0
    ensures Sort(BY_CLOSE, Bars(candles, minutes, Some(cutoff))) == Bars(candles, minutes, Some(cutoff))
  {
    hide Bars;
    BarTimes(candles, minutes, Some(cutoff));
    SortFixesSorted(BY_CLOSE, Bars(candles, minutes, Some(cutoff)));
  }

  /** No repainting of ATR: the earlier series is a prefix of the later one. */
  lemma AtrNeverRepaints(candles: seq<Candle>, minutes: int, period: nat, early: int, late: int)
    requires minutes > 0 && period >= 1 && early <= late
    ensures AtrSeries(Bars(candles, minutes, Some(early)), period)
            <= AtrSeries(Bars(candles, minutes, Some(late)), period)
  {
    hide Bars, AtrUpTo;
    var before, after := Bars(candles, minutes, Some(early)), Bars(candles, minutes, Some(late));
    BarsNeverRepaint(candles, minutes, early, late);
    BarsAreSortedByClose(candles, minutes, early);
    BarsAreSortedByClose(candles, minutes, late);
    AtrUpToOfPrefix(before, after, period, |before|);
    AtrUpToGrows(after, period, |before|, |after|);
  }

  lemma {:induction false} TrueRangeSumInRange(rows: seq<Bar>, n: nat, low: real, high: real)
    requires n <= |rows| && forall i :: 0 <= i < n ==> low <= TrueRange(rows, i) <= high
    ensures low * n as real <= TrueRangeSum(rows, n) <= high * n as real
  {
    hide TrueRange;
    if n > 0 {
      TrueRangeSumInRange(rows, n - 1, low, high);
    }
  }

  lemma WilderStepInRange(previous: real, range: real, period: nat, low: real, high: real)
    requires period >= 1 && low <= previous <= high && low <= range <= high
    ensures low <= WilderStep(previous, range, period) <= high
  {
    var p := period as real;
    var total := previous * (p - 1.0) + range;
    assert (period - 1) as real == p - 1.0;
    NonNegativeProduct(previous - low, p - 1.0);
    NonNegativeProduct(high - previous, p - 1.0);
    Distribute(low, previous, p - 1.0);
    Distribute(previous, high, p - 1.0);
    assert low * p == low * (p - 1.0) + low && high * p == high * (p - 1.0) + high;
    DivideBounds(total, p, low, high);
  }

  /** Wilder's average never leaves the range of the true ranges it has seen. */
  lemma {:induction false} AtrStaysInRange(rows: seq<Bar>, period: nat, i: nat, low: real, high: real)
    requires 1 <= period <= i + 1 && i < |rows|
    requires forall j :: 0 <= j <= i ==> low <= TrueRange(rows, j) <= high
    ensures low <= Atr(rows, period, i) <= high
  {
    hide TrueRange, WilderStep;
    if i + 1 == period {
      TrueRangeSumInRange(rows, period, low, high);
      DivideBounds(TrueRangeSum(rows, period), period as real, low, high);
    } else {
      AtrStaysInRange(rows, period, i - 1, low, high);
      WilderStepInRange(Atr(rows, period, i - 1), TrueRange(rows, i), period, low, high);
    }
  }

  // ---------- EMA ----------

  function CloseSum(bars: seq<Bar>, n: nat): real
    requires n <= |bars|
  {
    if n == 0 then 0.0 else CloseSum(bars, n - 1) + bars[n - 1].close
  }

  function Ema(bars: seq<Bar>, period: nat, n: nat): real
    requires 1 <= period <= n <= |bars|
  {
    if n == period then Mean(CloseSum(bars, period), period)
    else
      var previous := Ema(bars, period, n - 1);
      (bars[n - 1].close - previous) * (2.0 / (period + 1) as real) + previous
  }

  /** `ema15` on the bars at its cutoff; None when there are fewer bars than the period. */
  method Ema15(candles: seq<Candle>, cutoff: int, period: nat) returns (r: Option<real>)
    requires period >= 1
    ensures var bars := Bars(candles, 15, Some(cutoff));
            r == if |bars| < period then None else Some(Ema(bars, period, |bars|))
  {
    hide Bars;
    var aggregated := AggregateCompletedBars(candles, 15, Some(cutoff));
    var bars := aggregated.value;
    if |bars| < period {
      return None;
    }
    var total := 0.0;
    for i := 0 to period
      invariant total == CloseSum(bars, i)
    {
      total := total + bars[i].close;
    }
    var multiplier := 2.0 / (period + 1) as real;
    var ema := Mean(total, period);
    for i := period to |bars|
      invariant ema == Ema(bars, period, i)
    {
      ema := (bars[i].close - ema) * multiplier + ema;
    }
    r := Some(ema);
  }

  /** The EMA never leaves the range of the closes it has seen. */
  lemma {:induction false} EmaStaysInRange(bars: seq<Bar>, period: nat, n: nat, low: real, high: real)
    requires 1 <= period <= n <= |bars|
    requires forall i :: 0 <= i < n ==> low <= bars[i].close <= high
    ensures low <= Ema(bars, period, n) <= high
  {
    if n == period {
      MeanInRange(bars, period, low, high);
    } else {
      EmaStaysInRange(bars, period, n - 1, low, high);
      Blend(Ema(bars, period, n - 1), bars[n - 1].close, (period + 1) as real, low, high);
    }
  }

  lemma {:induction false} CloseSumInRange(bars: seq<Bar>, n: nat, low: real, high: real)
    requires n <= |bars| && forall i :: 0 <= i < n ==> low <= bars[i].close <= high
    ensures low * n as real <= CloseSum(bars, n) <= high * n as real
  {
    if n > 0 {
      CloseSumInRange(bars, n - 1, low, high);
    }
  }

  lemma MeanInRange(bars: seq<Bar>, n: nat, low: real, high: real)
    requires 1 <= n <= |bars| && forall i :: 0 <= i < n ==> low <= bars[i].close <= high
    ensures low <= Mean(CloseSum(bars, n), n) <= high
  {
    CloseSumInRange(bars, n, low, high);
    DivideBounds(CloseSum(bars, n), n as real, low, high);
  }

  lemma DivideBounds(s: real, n: real, low: real, high: real)
    requires n > 0.0 && low * n <= s <= high * n
    ensures low <= s / n <= high
  {
    QuotientTimes(s, n);
    ScaleOrder(low, s / n, n);
    ScaleOrder(s / n, high, n);
  }

  lemma Blend(previous: real, close: real, k: real, low: real, high: real)
    requires k >= 2.0 && low <= previous <= high && low <= close <= high
    ensures low <= (close - previous) * (2.0 / k) + previous <= high
  {
    var m := 2.0 / k;
    QuotientTimes(2.0, k);
    ProductSign(m, k, 2.0);
    ScaleOrder(m, 1.0, k);
    Distribute(previous, close, m);
    NonNegativeProduct(close - low, m);
    NonNegativeProduct(high - close, m);
    NonNegativeProduct(previous - low, 1.0 - m);
    NonNegativeProduct(high - previous, 1.0 - m);
    assert (close - low) * m + (previous - low) * (1.0 - m) == (close - previous) * m + previous - low;
    assert (high - close) * m + (high - previous) * (1.0 - m) == high - ((close - previous) * m + previous);
  }

  // ---------- confirmed swings ----------

  datatype Direction = Long | Short

  datatype Swing = Swing(direction: Direction, price: real, pivotTime: int, availableAt: int)

  predicate LowPivot(bars: seq<Bar>, i: nat)
    requires 2 <= i && i + 2 < |bars|
  {
    bars[i].low < bars[i - 2].low && bars[i].low < bars[i - 1].low
    && bars[i].low < bars[i + 1].low && bars[i].low < bars[i + 2].low
  }

  predicate HighPivot(bars: seq<Bar>, i: nat)
    requires 2 <= i && i + 2 < |bars|
  {
    bars[i].high > bars[i - 2].high && bars[i].high > bars[i - 1].high
    && bars[i].high > bars[i + 1].high && bars[i].high > bars[i + 2].high
  }

  /** The references confirmed by the second bar to the right of bar i. */
  function SwingsAt(bars: seq<Bar>, i: nat, cutoff: int): seq<Swing>
    requires 2 <= i && i + 2 < |bars|
  {
    var available := bars[i + 2].closeTime;
    if available > cutoff then []
    else
      (if LowPivot(bars, i) then [Swing(Long, bars[i].low, bars[i].closeTime, available)] else [])
      + (if HighPivot(bars, i) then [Swing(Short, bars[i].high, bars[i].closeTime, available)] else [])
  }

  /** The references of the pivots before position n. */
  function SwingsUpTo(bars: seq<Bar>, n: nat, cutoff: int): seq<Swing>
    requires n + 2 <= |bars| || n <= 2
  {
    if n <= 2 then [] else SwingsUpTo(bars, n - 1, cutoff) + SwingsAt(bars, n - 1, cutoff)
  }

  function Swings(bars: seq<Bar>, cutoff: int): seq<Swing> {
    if |bars| < 5 then [] else SwingsUpTo(bars, |bars| - 2, cutoff)
  }

  function SwingReferences(candles: seq<Candle>, cutoff: int): seq<Swing> {
    Swings(Bars(candles, 5, Some(cutoff)), cutoff)
  }

  function Min4(a: real, b: real, c: real, d: real): real {
    -Larger(Larger(-a, -b), Larger(-c, -d))
  }

  /** One turn of the scan: the references appended for the pivot at i. */
  method ConfirmedAt(bars: seq<Bar>, i: nat, cutoff: int) returns (found: seq<Swing>)
    requires 2 <= i && i + 2 < |bars|
    ensures found == SwingsAt(bars, i, cutoff)
  {
    hide SwingsAt, Min4, Larger;
    SwingsAtRule(bars, i, cutoff);
    found := [];
    var pivot := bars[i];
    var availableAt := bars[i + 2].closeTime;
    if availableAt <= cutoff {
      if pivot.low < Min4(bars[i - 2].low, bars[i - 1].low, bars[i + 1].low, bars[i + 2].low) {
        found := found + [Swing(Long, pivot.low, pivot.closeTime, availableAt)];
      }
      if pivot.high > Larger(Larger(bars[i - 2].high, bars[i - 1].high), Larger(bars[i + 1].high, bars[i + 2].high)) {
        found := found + [Swing(Short, pivot.high, pivot.closeTime, availableAt)];
      }
    }
  }

  method ConfirmedSwingReferences(candles: seq<Candle>, cutoff: int) returns (refs: seq<Swing>)
    ensures refs == SwingReferences(candles, cutoff)
  {
    hide Bars, SwingsAt;
    var aggregated := AggregateCompletedBars(candles, 5, Some(cutoff));
    var bars := aggregated.value;
    refs := [];
    var i := 2;
    while i < |bars| - 2
      invariant 2 <= i && (i + 2 <= |bars| || i == 2)
      invariant refs == SwingsUpTo(bars, i, cutoff)
    {
      var found := ConfirmedAt(bars, i, cutoff);
      refs := refs + found;
      i := i + 1;
    }
  }

  /** The reference is the strict low (or high) of bar i among its two neighbours
      on each side, known when the second right bar closes. */
  predicate IsSwingOf(bars: seq<Bar>, i: nat, r: Swing)
    requires 2 <= i && i + 2 < |bars|
  {
    r.pivotTime == bars[i].closeTime && r.availableAt == bars[i + 2].closeTime
    && match r.direction
       case Long =>
         r.price == bars[i].low && forall k :: i - 2 <= k <= i + 2 && k != i ==> bars[i].low < bars[k].low
       case Short =>
         r.price == bars[i].high && forall k :: i - 2 <= k <= i + 2 && k != i ==> bars[i].high > bars[k].high
  }

  lemma SwingsAtMembers(bars: seq<Bar>, i: nat, cutoff: int, r: Swing)
    requires 2 <= i && i + 2 < |bars|
    ensures r in SwingsAt(bars, i, cutoff) <==> IsSwingOf(bars, i, r) && r.availableAt <= cutoff
  {
    assert r.direction == Long || r.direction == Short;
  }

  lemma {:induction false} SwingsUpToMembers(bars: seq<Bar>, n: nat, cutoff: int, r: Swing)
    requires n + 2 <= |bars| || n <= 2
    ensures r in SwingsUpTo(bars, n, cutoff)
            <==> exists i :: 2 <= i < n && i + 2 < |bars| && IsSwingOf(bars, i, r) && r.availableAt <= cutoff
  {
    hide SwingsAt, IsSwingOf;
    if n > 2 {
      SwingsUpToMembers(bars, n - 1, cutoff, r);
      SwingsAtMembers(bars, n - 1, cutoff, r);
    }
  }

  /** The references are exactly the strict five-bar pivots whose second right bar has closed by the cutoff. */
  lemma SwingsAreTheStrictPivots(bars: seq<Bar>, cutoff: int, r: Swing)
    ensures r in Swings(bars, cutoff)
            <==> exists i :: 2 <= i && i + 2 < |bars| && IsSwingOf(bars, i, r) && r.availableAt <= cutoff
  {
    hide SwingsUpTo, IsSwingOf;
    if |bars| >= 5 {
      SwingsUpToMembers(bars, |bars| - 2, cutoff, r);
    }
  }

  lemma SwingsAtRule(bars: seq<Bar>, i: nat, cutoff: int)
    requires 2 <= i && i + 2 < |bars|
    ensures var p, available := bars[i], bars[i + 2].closeTime;
            var low := Min4(bars[i - 2].low, bars[i - 1].low, bars[i + 1].low, bars[i + 2].low);
            var high := Larger(Larger(bars[i - 2].high, bars[i - 1].high), Larger(bars[i + 1].high, bars[i + 2].high));
            SwingsAt(bars, i, cutoff)
            == if available > cutoff then []
               else (if p.low < low then [Swing(Long, p.low, p.closeTime, available)] else [])
                    + (if p.high > high then [Swing(Short, p.high, p.closeTime, available)] else [])
  {
  }

  lemma {:induction false} SwingsUpToOfPrefix(before: seq<Bar>, after: seq<Bar>, n: nat, early: int, late: int)
    requires |before| <= |after| && before == after[..|before|] && (n + 2 <= |before| || n <= 2) && early <= late
    requires forall i :: 0 <= i < |before| ==> before[i].closeTime <= early
    ensures SwingsUpTo(before, n, early) == SwingsUpTo(after, n, late)
    ensures forall r :: r in SwingsUpTo(before, n, early) ==> r.availableAt <= early
  {
    if n > 2 {
      SwingsUpToOfPrefix(before, after, n - 1, early, late);
    }
  }

  /** The references already available at the cutoff. */
  function AvailableBy(refs: seq<Swing>, cutoff: int): seq<Swing> {
    Filter((r: Swing) => r.availableAt <= cutoff, refs)
  }

  lemma NewSwingsAreUnavailable(refs: seq<Swing>, bars: seq<Bar>, i: nat, early: int, late: int)
    requires 2 <= i && i + 2 < |bars| && bars[i + 2].closeTime > early
    ensures AvailableBy(refs + SwingsAt(bars, i, late), early) == AvailableBy(refs, early)
  {
    hide LowPivot, HighPivot, Filter;
    var visible := (r: Swing) => r.availableAt <= early;
    FilterConcat(visible, refs, SwingsAt(bars, i, late));
    FilterNone(visible, SwingsAt(bars, i, late));
  }

  lemma KnownSwingsAreAvailable(before: seq<Bar>, after: seq<Bar>, n: nat, early: int, late: int)
    requires |before| <= |after| && before == after[..|before|] && (n + 2 <= |before| || n <= 2) && early <= late
    requires forall i :: 0 <= i < |before| ==> before[i].closeTime <= early
    ensures AvailableBy(SwingsUpTo(after, n, late), early) == SwingsUpTo(before, n, early)
  {
    hide SwingsUpTo, Filter;
    SwingsUpToOfPrefix(before, after, n, early, late);
    FilterAll((r: Swing) => r.availableAt <= early, SwingsUpTo(after, n, late));
  }

  lemma {:induction false} LaterSwingsAreLater(before: seq<Bar>, after: seq<Bar>, n: nat, early: int, late: int)
    requires |before| <= |after| && before == after[..|before|] && early <= late
    requires n + 2 <= |after| && n >= 2 && n + 2 >= |before|
    requires forall i :: |before| <= i < |after| ==> after[i].closeTime > early
    requires forall i :: 0 <= i < |before| ==> before[i].closeTime <= early
    ensures AvailableBy(SwingsUpTo(after, n, late), early) == Swings(before, early)
  {
    hide AvailableBy, SwingsAt;
    if n == 2 || n + 2 == |before| {
      KnownSwingsAreAvailable(before, after, n, early, late);
    } else {
      LaterSwingsAreLater(before, after, n - 1, early, late);
      NewSwingsAreUnavailable(SwingsUpTo(after, n - 1, late), after, n - 1, early, late);
    }
  }

  lemma {:induction false} FilterAll<T>(keep: T -> bool, s: seq<T>)
    requires forall x :: x in s ==> keep(x)
    ensures Filter(keep, s) == s
  {
    if s != [] {
      FilterAll(keep, s[1..]);
      assert s == [s[0]] + s[1..];
    }
  }

  /** No repainting of swings: those known at the earlier cutoff are
      exactly the later ones already available by then. */
  lemma SwingsNeverRepaint(candles: seq<Candle>, early: int, late: int)
    requires early <= late
    ensures SwingReferences(candles, early)
            == AvailableBy(SwingReferences(candles, late), early)
  {
    hide Bars, SwingsUpTo, AvailableBy;
    var before, after := Bars(candles, 5, Some(early)), Bars(candles, 5, Some(late));
    BarsNeverRepaint(candles, 5, early, late);
    BarTimes(candles, 5, Some(early));
    if |after| >= 5 {
      LaterSwingsAreLater(before, after, |after| - 2, early, late);
    } else {
      NothingAvailable(early);
    }
  }

  lemma NothingAvailable(cutoff: int)
    ensures AvailableBy([], cutoff) == []
  {
  }

  // ---------- the latest protective swing ----------

  predicate Protective(r: Swing, direction: Direction, entry: real) {
    r.direction == direction && (if direction == Long then r.price < entry else r.price > entry)
  }

  /** Python's `max(..., key=available_at)`: the first of the greatest. */
  function FirstLatest(refs: seq<Swing>): Swing
    requires refs != []
  {
    if |refs| == 1 then refs[0]
    else
      var best, last := FirstLatest(refs[..|refs| - 1]), refs[|refs| - 1];
      if last.availableAt > best.availableAt then last else best
  }

  /** Of the references that are available last it is the first one given. */
  lemma {:induction false} FirstLatestIsFirst(refs: seq<Swing>) returns (i: nat)
    requires refs != []
    ensures i < |refs| && FirstLatest(refs) == refs[i]
    ensures forall j :: 0 <= j < i ==> refs[j].availableAt < refs[i].availableAt
    ensures forall j :: i <= j < |refs| ==> refs[j].availableAt <= refs[i].availableAt
  {
    i := 0;
    if |refs| > 1 {
      i := FirstLatestIsFirst(refs[..|refs| - 1]);
      if refs[|refs| - 1].availableAt > refs[i].availableAt {
        i := |refs| - 1;
      }
    }
  }

  function LatestProtective(candles: seq<Candle>, cutoff: int, direction: Direction, entry: real): Option<Swing> {
    var candidates := Filter((r: Swing) => Protective(r, direction, entry), SwingReferences(candles, cutoff));
    if candidates == [] then None else Some(FirstLatest(candidates))
  }

  lemma {:induction false} FirstLatestIsGreatest(refs: seq<Swing>)
    requires refs != []
    ensures FirstLatest(refs) in refs && forall r :: r in refs ==> r.availableAt <= FirstLatest(refs).availableAt
  {
    if |refs| > 1 {
      var rest := refs[..|refs| - 1];
      FirstLatestIsGreatest(rest);
      assert refs == rest + [refs[|refs| - 1]];
    }
  }

  /** The protective reference is missing exactly when no reference
      protects, and otherwise none that protects is later. */
  lemma LatestProtectiveIsLatest(candles: seq<Candle>, cutoff: int, direction: Direction, entry: real)
    ensures var found, refs := LatestProtective(candles, cutoff, direction, entry), SwingReferences(candles, cutoff);
            && (found.None? <==> forall r :: r in refs ==> !Protective(r, direction, entry))
            && (found.Some? ==> found.value in refs && Protective(found.value, direction, entry)
                                && forall r :: r in refs && Protective(r, direction, entry) ==>
                                   r.availableAt <= found.value.availableAt)
  {
    hide SwingReferences, FirstLatest, Protective;
    var keep := (r: Swing) => Protective(r, direction, entry);
    FilterMembers(keep, SwingReferences(candles, cutoff));
    var candidates := Filter(keep, SwingReferences(candles, cutoff));
    if candidates != [] {
      FirstLatestIsGreatest(candidates);
    } else {
      forall r | r in SwingReferences(candles, cutoff)
        ensures !Protective(r, direction, entry)
      {
        assert r in candidates <==> keep(r);
      }
    }
  }

  /** As the cutoff moves on, the protective reference is never lost and never becomes older. */
  lemma LatestProtectiveOnlyAdvances(candles: seq<Candle>, early: int, late: int, direction: Direction, entry: real)
    requires early <= late && LatestProtective(candles, early, direction, entry).Some?
    ensures LatestProtective(candles, late, direction, entry).Some?
    ensures LatestProtective(candles, early, direction, entry).value.availableAt
            <= LatestProtective(candles, late, direction, entry).value.availableAt
  {
    hide SwingReferences, FirstLatest;
    var keep := (r: Swing) => Protective(r, direction, entry);
    var before, after := SwingReferences(candles, early), SwingReferences(candles, late);
    SwingsNeverRepaint(candles, early, late);
    FilterMembers((r: Swing) => r.availableAt <= early, after);
    FilterMembers(keep, before);
    FilterMembers(keep, after);
    FirstLatestIsGreatest(Filter(keep, before));
    var found := FirstLatest(Filter(keep, before));
    assert found in Filter(keep, after);
    FirstLatestIsGreatest(Filter(keep, after));
  }
}
