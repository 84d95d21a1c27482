/** Completed candles grouped into bars, as seen at a cutoff: `aggregate_completed_bars`. */
module CausalBars {
  import opened Prelude
  import opened Sorting

  /** Times are integer seconds; a day has 86400 of them. */
  datatype Candle = Candle(
    symbol: string, openTime: int, closeTime: int,
    open: real, high: real, low: real, close: real, volume: real, turnover: real, completed: bool)

  datatype Bar = Bar(
    symbol: string, minutes: int, openTime: int, closeTime: int,
    open: real, high: real, low: real, close: real, volume: real, turnover: real)

  datatype BarError = NonPositiveTimeframe

  const DAY_SECONDS := 86400

  /** The start of the bucket inside the same UTC day. */
  function FloorTime(t: int, minutes: int): int
    requires minutes > 0
  {
    var minuteOfDay := t % DAY_SECONDS / 60;
    t - t % DAY_SECONDS + minuteOfDay / minutes * minutes * 60
  }

  predicate OpensBefore(a: Candle, b: Candle) {
    a.openTime < b.openTime
  }

  const BY_OPEN: (Candle, Candle) -> bool := OpensBefore

  lemma ByOpenIsWeakOrder()
    ensures WeakOrder(BY_OPEN)
  {
  }

  predicate ClosedBy(c: Candle, cutoff: Option<int>) {
    c.completed && (cutoff.Some? ==> c.closeTime <= cutoff.value)
  }

  function Eligible(candles: seq<Candle>, cutoff: Option<int>): seq<Candle> {
    Sort(BY_OPEN, Filter(c => ClosedBy(c, cutoff), candles))
  }

  predicate InGroup(c: Candle, minutes: int, start: int)
    requires minutes > 0
  {
    FloorTime(c.openTime, minutes) == start && c.closeTime <= start + 60 * minutes
  }

  function Group(eligible: seq<Candle>, minutes: int, start: int): seq<Candle>
    requires minutes > 0
  {
    Filter(c => InGroup(c, minutes, start), eligible)
  }

  /** The rows of one bucket, in opening order. */
  function Rows(eligible: seq<Candle>, minutes: int, start: int): seq<Candle>
    requires minutes > 0
  {
    Sort(BY_OPEN, Group(eligible, minutes, start))
  }

  function MaxHigh(rows: seq<Candle>): real
    requires rows != []
  {
    if |rows| == 1 then rows[0].high
    else var m := MaxHigh(rows[1..]); if rows[0].high >= m then rows[0].high else m
  }

  function MinLow(rows: seq<Candle>): real
    requires rows != []
  {
    if |rows| == 1 then rows[0].low
    else var m := MinLow(rows[1..]); if rows[0].low <= m then rows[0].low else m
  }

  function SumOf(rows: seq<Candle>, part: Candle -> real): real {
    if rows == [] then 0.0 else part(rows[0]) + SumOf(rows[1..], part)
  }

  const VOLUME: Candle -> real := (c: Candle) => c.volume

  const TURNOVER: Candle -> real := (c: Candle) => c.turnover

  function BarOf(rows: seq<Candle>, minutes: int, start: int): Bar
    requires rows != []
  {
    var last := rows[|rows| - 1];
    Bar(last.symbol, minutes, start, start + 60 * minutes,
        rows[0].open, MaxHigh(rows), MinLow(rows), last.close,
        SumOf(rows, VOLUME), SumOf(rows, TURNOVER))
  }

  /** The bar of one bucket, present when its last row closes exactly at the bucket's end. */
  function BarAt(eligible: seq<Candle>, minutes: int, start: int): Option<Bar>
    requires minutes > 0
  {
    var rows := Rows(eligible, minutes, start);
    if rows != [] && rows[|rows| - 1].closeTime == start + 60 * minutes then Some(BarOf(rows, minutes, start)) else None
  }

  // ---------- the bucket starts, sorted ----------

  function InsertDistinct(x: int, s: seq<int>): seq<int> {
    if s == [] || x < s[0] then [x] + s else if x == s[0] then s else [s[0]] + InsertDistinct(x, s[1..])
  }

  function Starts(eligible: seq<Candle>, minutes: int): seq<int>
    requires minutes > 0
  {
    if eligible == [] then []
    else
      var rest := Starts(eligible[1..], minutes);
      var start := FloorTime(eligible[0].openTime, minutes);
      if InGroup(eligible[0], minutes, start) then InsertDistinct(start, rest) else rest
  }

  function BarsFrom(starts: seq<int>, eligible: seq<Candle>, minutes: int): seq<Bar>
    requires minutes > 0
  {
    if starts == [] then []
    else
      var rest := BarsFrom(starts[1..], eligible, minutes);
      match BarAt(eligible, minutes, starts[0])
      case Some(bar) => [bar] + rest
      case None => rest
  }

  function Bars(candles: seq<Candle>, minutes: int, cutoff: Option<int>): seq<Bar>
    requires minutes > 0
  {
    var eligible := Eligible(candles, cutoff);
    BarsFrom(Starts(eligible, minutes), eligible, minutes)
  }

  // ---------- what the list of bars contains ----------

  ghost predicate Increasing(s: seq<int>) {
    forall i, j :: 0 <= i < j < |s| ==> s[i] < s[j]
  }

  lemma {:induction false} InsertDistinctProperties(x: int, s: seq<int>)
    requires Increasing(s)
    ensures Increasing(InsertDistinct(x, s))
    ensures forall y :: y in InsertDistinct(x, s) <==> y == x || y in s
  {
    if s != [] && x > s[0] {
      InsertDistinctProperties(x, s[1..]);
      assert s == [s[0]] + s[1..];
      var r := InsertDistinct(x, s[1..]);
      forall j | 0 <= j < |r|
        ensures s[0] < r[j]
      {
        assert r[j] in r;
      }
    }
  }

  lemma {:induction false} StartsProperties(eligible: seq<Candle>, minutes: int)
    requires minutes > 0
    ensures Increasing(Starts(eligible, minutes))
    ensures forall s :: s in Starts(eligible, minutes) <==> Group(eligible, minutes, s) != []
  {
    if eligible != [] {
      StartsProperties(eligible[1..], minutes);
      InsertDistinctProperties(FloorTime(eligible[0].openTime, minutes), Starts(eligible[1..], minutes));
    }
  }

  const BY_BAR_OPEN: (Bar, Bar) -> bool := (a: Bar, b: Bar) => a.openTime < b.openTime

  lemma ByBarOpenIsWeakOrder()
    ensures WeakOrder(BY_BAR_OPEN)
  {
  }

  lemma {:induction false} BarsFromProperties(starts: seq<int>, eligible: seq<Candle>, minutes: int)
    requires minutes > 0 && Increasing(starts)
    ensures var bars := BarsFrom(starts, eligible, minutes);
            StrictlySorted(BY_BAR_OPEN, bars)
            && forall b :: b in bars <==> b.openTime in starts && BarAt(eligible, minutes, b.openTime) == Some(b)
  {
    hide BarAt;
    if starts != [] {
      var rest := BarsFrom(starts[1..], eligible, minutes);
      BarsFromProperties(starts[1..], eligible, minutes);
      assert starts == [starts[0]] + starts[1..];
      BarStart(eligible, minutes, starts[0]);
      forall j | 0 <= j < |rest|
        ensures starts[0] < rest[j].openTime
      {
        assert rest[j] in rest;
      }
    }
  }

  lemma BarStart(eligible: seq<Candle>, minutes: int, start: int)
    requires minutes > 0
    ensures var b := BarAt(eligible, minutes, start);
            b.Some? ==> b.value.openTime == start && b.value.closeTime == start + 60 * minutes
  {
  }

  /** The bars are exactly the buckets that are complete, in time order. */
  lemma BarsAreTheCompleteBuckets(candles: seq<Candle>, minutes: int, cutoff: Option<int>)
    requires minutes > 0
    ensures var bars := Bars(candles, minutes, cutoff);
            StrictlySorted(BY_BAR_OPEN, bars)
            && forall b :: b in bars <==> BarAt(Eligible(candles, cutoff), minutes, b.openTime) == Some(b)
  {
    hide Eligible, BarAt, BarsFrom, Starts;
    var eligible := Eligible(candles, cutoff);
    StartsProperties(eligible, minutes);
    BarsFromProperties(Starts(eligible, minutes), eligible, minutes);
    forall b: Bar | BarAt(eligible, minutes, b.openTime) == Some(b)
      ensures b.openTime in Starts(eligible, minutes)
    {
      BarNeedsRows(eligible, minutes, b.openTime);
    }
  }

  lemma BarNeedsRows(eligible: seq<Candle>, minutes: int, start: int)
    requires minutes > 0 && BarAt(eligible, minutes, start).Some?
    ensures Group(eligible, minutes, start) != []
  {
  }

  lemma {:induction false} ExtremesOfRows(rows: seq<Candle>)
    requires rows != []
    ensures (exists c :: c in rows && c.high == MaxHigh(rows)) && (exists c :: c in rows && c.low == MinLow(rows))
    ensures forall c :: c in rows ==> c.low >= MinLow(rows) && c.high <= MaxHigh(rows)
  {
    assert rows[0] in rows;
    if |rows| > 1 {
      ExtremesOfRows(rows[1..]);
      assert rows == [rows[0]] + rows[1..];
      var h :| h in rows[1..] && h.high == MaxHigh(rows[1..]);
      var l :| l in rows[1..] && l.low == MinLow(rows[1..]);
      assert h in rows && l in rows;
    }
  }

  /** A bar opens with the first candle to open, closes with the last, and its
      high and low bound every candle and are reached. */
  lemma BarSummarizesItsRows(candles: seq<Candle>, minutes: int, cutoff: Option<int>, bar: Bar)
    requires minutes > 0 && bar in Bars(candles, minutes, cutoff)
    ensures var rows := Rows(Eligible(candles, cutoff), minutes, bar.openTime);
            && rows != []
            && (forall i :: 0 <= i < |rows| ==> rows[0].openTime <= rows[i].openTime <= rows[|rows| - 1].openTime)
            && bar.open == rows[0].open && bar.close == rows[|rows| - 1].close
            && rows[|rows| - 1].closeTime == bar.closeTime
            && (forall c :: c in rows ==> bar.low <= c.low && c.high <= bar.high)
            && (exists c :: c in rows && c.high == bar.high) && (exists c :: c in rows && c.low == bar.low)
  {
    hide Eligible, Bars, MaxHigh, MinLow, SumOf, Sort, Group, FloorTime;
    BarsAreTheCompleteBuckets(candles, minutes, cutoff);
    var rows := Rows(Eligible(candles, cutoff), minutes, bar.openTime);
    ExtremesOfRows(rows);
    ByOpenIsWeakOrder();
    SortIsSorted(BY_OPEN, Group(Eligible(candles, cutoff), minutes, bar.openTime));
    forall i | 0 <= i < |rows|
      ensures rows[0].openTime <= rows[i].openTime <= rows[|rows| - 1].openTime
    {
      assert i == 0 || !BY_OPEN(rows[i], rows[0]);
      assert i == |rows| - 1 || !BY_OPEN(rows[|rows| - 1], rows[i]);
    }
  }

  // ---------- causality: the cutoff only decides which bars are visible ----------

  /** A bucket that ends by the cutoff has the same rows with and without the cutoff. */
  lemma RowsBeforeCutoff(candles: seq<Candle>, minutes: int, start: int, cutoff: Option<int>)
    requires minutes > 0 && (cutoff.Some? ==> start + 60 * minutes <= cutoff.value)
    ensures Rows(Eligible(candles, cutoff), minutes, start) == Rows(Eligible(candles, None), minutes, start)
  {
    RowsWithoutSorting(candles, minutes, start, cutoff);
    RowsWithoutSorting(candles, minutes, start, None);
    FilterAgrees(c => ClosedBy(c, cutoff) && InGroup(c, minutes, start),
                 c => ClosedBy(c, None) && InGroup(c, minutes, start), candles);
  }

  lemma RowsWithoutSorting(candles: seq<Candle>, minutes: int, start: int, cutoff: Option<int>)
    requires minutes > 0
    ensures Rows(Eligible(candles, cutoff), minutes, start)
            == Sort(BY_OPEN, Filter(c => ClosedBy(c, cutoff) && InGroup(c, minutes, start), candles))
  {
    ByOpenIsWeakOrder();
    var closed := (c: Candle) => ClosedBy(c, cutoff);
    var inGroup := (c: Candle) => InGroup(c, minutes, start);
    var both := (c: Candle) => ClosedBy(c, cutoff) && InGroup(c, minutes, start);
    FilterSort(BY_OPEN, inGroup, Filter(closed, candles));
    FilterFilter(closed, inGroup, both, candles);
    SortIsSorted(BY_OPEN, Filter(both, candles));
    SortFixesSorted(BY_OPEN, Sort(BY_OPEN, Filter(both, candles)));
  }

  lemma RowsAreClosed(candles: seq<Candle>, minutes: int, start: int, cutoff: Option<int>)
    requires minutes > 0
    ensures forall c :: c in Rows(Eligible(candles, cutoff), minutes, start) ==> ClosedBy(c, cutoff)
  {
    RowsWithoutSorting(candles, minutes, start, cutoff);
    var both := (c: Candle) => ClosedBy(c, cutoff) && InGroup(c, minutes, start);
    SortKeepsMembers(BY_OPEN, Filter(both, candles));
    FilterMembers(both, candles);
  }

  lemma BarAtCutoff(candles: seq<Candle>, minutes: int, start: int, cutoff: int)
    requires minutes > 0
    ensures BarAt(Eligible(candles, Some(cutoff)), minutes, start)
            == if start + 60 * minutes <= cutoff then BarAt(Eligible(candles, None), minutes, start) else None
  {
    hide Eligible, Rows;
    if start + 60 * minutes <= cutoff {
      RowsBeforeCutoff(candles, minutes, start, Some(cutoff));
    } else {
      RowsAreClosed(candles, minutes, start, Some(cutoff));
      var rows := Rows(Eligible(candles, Some(cutoff)), minutes, start);
      if rows != [] {
        assert rows[|rows| - 1] in rows;
      }
    }
  }

  /** At a cutoff one sees exactly the bars of the whole history that have closed by then. */
  lemma BarsAtCutoff(candles: seq<Candle>, minutes: int, cutoff: int)
    requires minutes > 0
    ensures Bars(candles, minutes, Some(cutoff))
            == Filter((b: Bar) => b.closeTime <= cutoff, Bars(candles, minutes, None))
  {
    hide Eligible, Bars, BarAt;
    var visible := (b: Bar) => b.closeTime <= cutoff;
    var whole := Bars(candles, minutes, None);
    BarsAreTheCompleteBuckets(candles, minutes, Some(cutoff));
    BarsAreTheCompleteBuckets(candles, minutes, None);
    FilterMembers(visible, whole);
    FilterKeepsStrict(BY_BAR_OPEN, visible, whole);
    ByBarOpenIsWeakOrder();
    forall b: Bar
      ensures b in Bars(candles, minutes, Some(cutoff)) <==> b in Filter(visible, whole)
    {
      BarAtCutoff(candles, minutes, b.openTime, cutoff);
      BarStart(Eligible(candles, None), minutes, b.openTime);
    }
    StrictlySortedIsUnique(BY_BAR_OPEN, Bars(candles, minutes, Some(cutoff)), Filter(visible, whole));
  }

  lemma {:induction false} FilterKeepsStrict<T(!new)>(less: (T, T) -> bool, keep: T -> bool, s: seq<T>)
    requires StrictlySorted(less, s)
    ensures StrictlySorted(less, Filter(keep, s))
  {
    if s != [] {
      FilterKeepsStrict(less, keep, s[1..]);
      FilterMembers(keep, s[1..]);
      var f := Filter(keep, s[1..]);
      forall j | 0 <= j < |f|
        ensures less(s[0], f[j])
      {
        assert f[j] in f;
        var k :| 0 <= k < |s[1..]| && s[1..][k] == f[j];
        assert s[k + 1] == f[j];
      }
    }
  }

  lemma BarTimes(candles: seq<Candle>, minutes: int, cutoff: Option<int>)
    requires minutes > 0
    ensures var bars := Bars(candles, minutes, cutoff);
            && (forall i :: 0 <= i < |bars| ==> bars[i].closeTime == bars[i].openTime + 60 * minutes)
            && (forall i, j :: 0 <= i < j < |bars| ==> bars[i].closeTime < bars[j].closeTime)
            && (cutoff.Some? ==> forall i :: 0 <= i < |bars| ==> bars[i].closeTime <= cutoff.value)
  {
    hide Bars, Eligible, BarAt;
    var bars := Bars(candles, minutes, cutoff);
    BarsAreTheCompleteBuckets(candles, minutes, cutoff);
    forall i | 0 <= i < |bars|
      ensures bars[i].closeTime == bars[i].openTime + 60 * minutes
      ensures cutoff.Some? ==> bars[i].closeTime <= cutoff.value
    {
      assert bars[i] in bars;
      BarStart(Eligible(candles, cutoff), minutes, bars[i].openTime);
      if cutoff.Some? {
        BarAtCutoff(candles, minutes, bars[i].openTime, cutoff.value);
      }
    }
    forall i, j | 0 <= i < j < |bars|
      ensures bars[i].closeTime < bars[j].closeTime
    {
      assert BY_BAR_OPEN(bars[i], bars[j]);
    }
  }

  /** No repainting of bars: what was visible at the earlier cutoff is a prefix of what is visible later. */
  lemma BarsNeverRepaint(candles: seq<Candle>, minutes: int, early: int, late: int)
    requires minutes > 0 && early <= late
    ensures var before, after := Bars(candles, minutes, Some(early)), Bars(candles, minutes, Some(late));
            && |before| <= |after| && before == after[..|before|]
            && forall i :: |before| <= i < |after| ==> after[i].closeTime > early
  {
    hide Bars;
    var whole := Bars(candles, minutes, None);
    BarsAtCutoff(candles, minutes, early);
    BarsAtCutoff(candles, minutes, late);
    BarTimes(candles, minutes, None);
    ThresholdPrefix(whole, early, late);
  }

  lemma {:induction false} ThresholdPrefix(bars: seq<Bar>, early: int, late: int)
    requires early <= late
    requires forall i, j :: 0 <= i < j < |bars| ==> bars[i].closeTime < bars[j].closeTime
    ensures var before := Filter((b: Bar) => b.closeTime <= early, bars);
            var after := Filter((b: Bar) => b.closeTime <= late, bars);
            && |before| <= |after| && before == after[..|before|]
            && forall i :: |before| <= i < |after| ==> after[i].closeTime > early
  {
    if bars != [] {
      ThresholdPrefix(bars[1..], early, late);
      if bars[0].closeTime > early {
        FilterNone((b: Bar) => b.closeTime <= early, bars);
      }
    }
  }

  /** No look-ahead: two histories that agree on the candles closed by the cutoff give the same bars. */
  lemma BarsNeverLookAhead(candles: seq<Candle>, others: seq<Candle>, minutes: int, cutoff: int)
    requires minutes > 0
    requires Filter(c => ClosedBy(c, Some(cutoff)), candles) == Filter(c => ClosedBy(c, Some(cutoff)), others)
    ensures Bars(candles, minutes, Some(cutoff)) == Bars(others, minutes, Some(cutoff))
  {
  }

  // ---------- aggregating in loops ----------

  /** `groups.setdefault(start, []).append(candle)` over the eligible candles. */
  method GroupByStart(eligible: seq<Candle>, minutes: int) returns (groups: map<int, seq<Candle>>)
    requires minutes > 0
    ensures forall s :: s in groups <==> Group(eligible, minutes, s) != []
    ensures forall s :: s in groups ==> groups[s] == Group(eligible, minutes, s)
  {
    groups := map[];
    for i := 0 to |eligible|
      invariant forall s :: s in groups <==> Group(eligible[..i], minutes, s) != []
      invariant forall s :: s in groups ==> groups[s] == Group(eligible[..i], minutes, s)
    {
      var candle := eligible[i];
      var start := FloorTime(candle.openTime, minutes);
      forall s
        ensures Group(eligible[..i + 1], minutes, s)
                == Group(eligible[..i], minutes, s) + (if InGroup(candle, minutes, s) then [candle] else [])
      {
        AppendedFilter(eligible, minutes, s, i);
      }
      if candle.closeTime <= start + 60 * minutes {
        groups := groups[start := (if start in groups then groups[start] else []) + [candle]];
      }
    }
    assert eligible[..|eligible|] == eligible;
  }

  lemma AppendedFilter(eligible: seq<Candle>, minutes: int, start: int, i: nat)
    requires minutes > 0 && i < |eligible|
    ensures Group(eligible[..i + 1], minutes, start)
            == Group(eligible[..i], minutes, start)
               + (if InGroup(eligible[i], minutes, start) then [eligible[i]] else [])
  {
    var keep := (c: Candle) => InGroup(c, minutes, start);
    assert eligible[..i + 1] == eligible[..i] + [eligible[i]];
    FilterConcat(keep, eligible[..i], [eligible[i]]);
    FilterCons(keep, eligible[i], []);
    assert [eligible[i]] + [] == [eligible[i]];
  }

  /** `sorted(groups)`: the keys in increasing order. */
  method SortedKeys(groups: map<int, seq<Candle>>) returns (keys: seq<int>)
    ensures Increasing(keys) && forall s :: s in keys <==> s in groups
  {
    keys := [];
    var remaining: set<int> := groups.Keys;
    while remaining != {}
      invariant Increasing(keys) && remaining <= groups.Keys
      invariant forall s :: s in keys <==> s in groups && s !in remaining
      decreases remaining
    {
      var key := AnyOf(remaining);
      InsertDistinctProperties(key, keys);
      keys := InsertDistinct(key, keys);
      remaining := remaining - {key};
    }
  }

  lemma IncreasingIsUnique(s: seq<int>, t: seq<int>)
    requires Increasing(s) && Increasing(t) && forall x :: x in s <==> x in t
    ensures s == t
  {
    var less := (a: int, b: int) => a < b;
    forall x: int
      ensures x in s <==> x in t
    {
    }
    StrictlySortedIsUnique<int>(less, s, t);
  }

  method AggregateCompletedBars(candles: seq<Candle>, minutes: int, cutoff: Option<int>)
    returns (r: Result<seq<Bar>, BarError>)
    ensures minutes <= 0 ==> r == Failure(NonPositiveTimeframe)
    ensures minutes > 0 ==> r == Success(Bars(candles, minutes, cutoff))
  {
    hide Eligible, FloorTime, BarOf, BarsFrom, Starts, Group, Sort;
    if minutes <= 0 {
      return Failure(NonPositiveTimeframe);
    }
    var eligible := Eligible(candles, cutoff);
    if eligible == [] {
      NoBars(minutes);
      return Success([]);
    }
    var groups := GroupByStart(eligible, minutes);
    var keys := SortedKeys(groups);
    StartsProperties(eligible, minutes);
    IncreasingIsUnique(keys, Starts(eligible, minutes));
    var bars: seq<Bar> := [];
    for i := 0 to |keys|
      invariant bars + BarsFrom(keys[i..], eligible, minutes) == BarsFrom(keys, eligible, minutes)
    {
      BarsFromStep(keys, i, eligible, minutes);
      SortKeepsMembers(BY_OPEN, groups[keys[i]]);
      var start := keys[i];
      var rows := Sort(BY_OPEN, groups[start]);
      var expectedClose := start + 60 * minutes;
      if rows[|rows| - 1].closeTime == expectedClose {
        Regroup(bars, BarOf(rows, minutes, start), BarsFrom(keys[i + 1..], eligible, minutes));
        bars := bars + [BarOf(rows, minutes, start)];
      }
    }
    NoBarsFrom(eligible, minutes);
    assert keys[|keys|..] == [] && bars + [] == bars;
    r := Success(bars);
  }

  lemma NoBarsFrom(eligible: seq<Candle>, minutes: int)
    requires minutes > 0
    ensures BarsFrom([], eligible, minutes) == []
  {
  }

  lemma NoBars(minutes: int)
    requires minutes > 0
    ensures BarsFrom(Starts([], minutes), [], minutes) == []
  {
  }

  lemma Regroup(bars: seq<Bar>, bar: Bar, rest: seq<Bar>)
    ensures bars + ([bar] + rest) == (bars + [bar]) + rest
  {
  }

  lemma BarsFromStep(keys: seq<int>, i: nat, eligible: seq<Candle>, minutes: int)
    requires minutes > 0 && i < |keys| && Group(eligible, minutes, keys[i]) != []
    ensures var rows := Sort(BY_OPEN, Group(eligible, minutes, keys[i]));
            var rest := BarsFrom(keys[i + 1..], eligible, minutes);
            rows != []
            && BarsFrom(keys[i..], eligible, minutes)
               == if rows[|rows| - 1].closeTime == keys[i] + 60 * minutes then [BarOf(rows, minutes, keys[i])] + rest
                 else rest
  {
    hide BarOf;
    SortKeepsMembers(BY_OPEN, Group(eligible, minutes, keys[i]));
    assert keys[i..][1..] == keys[i + 1..];
  }
}
