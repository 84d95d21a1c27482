/** One-minute candles gathered into complete 5m, 15m and 1h buckets: `_aggregate_completed_candles`. */
module HistoricalBuckets {
  import opened Prelude
  import opened Sorting
  import opened CausalBars

  /** A bucket with the candles it was built from. */
  datatype Aggregated = Aggregated(bar: Bar, constituents: seq<Candle>)

  datatype BucketError = TimeframeUnavailable

  /** The timeframes "5m", "15m" and "1h". */
  predicate KnownTimeframe(minutes: int) {
    minutes == 5 || minutes == 15 || minutes == 60
  }

  const BY_CANDLE_CLOSE: (Candle, Candle) -> bool := (a: Candle, b: Candle) => a.closeTime < b.closeTime

  /** The completed candles visible at the cutoff, in closing order. */
  function Visible(history: seq<Candle>, cutoff: Option<int>): seq<Candle> {
    Filter(c => ClosedBy(c, cutoff), Sort(BY_CANDLE_CLOSE, history))
  }

  predicate Opens(c: Candle, minutes: int, start: int)
    requires minutes > 0
  {
    FloorTime(c.openTime, minutes) == start
  }

  function Collected(source: seq<Candle>, minutes: int, start: int): seq<Candle>
    requires minutes > 0
  {
    Filter(c => Opens(c, minutes, start), source)
  }

  function Bucket(source: seq<Candle>, minutes: int, start: int): seq<Candle>
    requires minutes > 0
  {
    Sort(BY_OPEN, Collected(source, minutes, start))
  }

  predicate ExpectedOpens(rows: seq<Candle>, start: int) {
    forall k :: 0 <= k < |rows| ==> rows[k].openTime == start + 60 * k
  }

  /** `_is_contiguous_one_minute_window`. */
  predicate Contiguous(rows: seq<Candle>) {
    rows != []
    && (forall i :: 0 <= i < |rows| ==> rows[i].closeTime - rows[i].openTime == 60)
    && (forall i :: 1 <= i < |rows| ==> rows[i].closeTime - rows[i - 1].closeTime == 60)
  }

  predicate Complete(rows: seq<Candle>, minutes: int, start: int) {
    |rows| == minutes && ExpectedOpens(rows, start) && Contiguous(rows)
  }

  function AggregateOf(rows: seq<Candle>, minutes: int, start: int): Aggregated
    requires rows != []
  {
    Aggregated(BarOf(rows, minutes, start).(symbol := rows[0].symbol), rows)
  }

  /** The aggregate of one bucket, present when the bucket is complete. */
  function Emitted(source: seq<Candle>, minutes: int, start: int): Option<Aggregated>
    requires minutes > 0
  {
    var rows := Bucket(source, minutes, start);
    if Complete(rows, minutes, start) then Some(AggregateOf(rows, minutes, start)) else None
  }

  function BucketStarts(source: seq<Candle>, minutes: int): seq<int>
    requires minutes > 0
  {
    if source == [] then []
    else InsertDistinct(FloorTime(source[0].openTime, minutes), BucketStarts(source[1..], minutes))
  }

  function AggregatesFrom(starts: seq<int>, source: seq<Candle>, minutes: int): seq<Aggregated>
    requires minutes > 0
  {
    if starts == [] then []
    else
      var rest := AggregatesFrom(starts[1..], source, minutes);
      match Emitted(source, minutes, starts[0])
      case Some(a) => [a] + rest
      case None => rest
  }

  function Aggregates(source: seq<Candle>, minutes: int): seq<Aggregated>
    requires minutes > 0
  {
    AggregatesFrom(BucketStarts(source, minutes), source, minutes)
  }

  // ---------- what the list contains ----------

  const BY_BUCKET: (Aggregated, Aggregated) -> bool := (a: Aggregated, b: Aggregated) => a.bar.openTime < b.bar.openTime

  lemma ByBucketIsWeakOrder()
    ensures WeakOrder(BY_BUCKET)
  {
  }

  lemma {:induction false} BucketStartsProperties(source: seq<Candle>, minutes: int)
    requires minutes > 0
    ensures Increasing(BucketStarts(source, minutes))
    ensures forall s :: s in BucketStarts(source, minutes) <==> Collected(source, minutes, s) != []
  {
    hide FloorTime;
    if source != [] {
      BucketStartsProperties(source[1..], minutes);
      InsertDistinctProperties(FloorTime(source[0].openTime, minutes), BucketStarts(source[1..], minutes));
    }
  }

  lemma EmittedTimes(source: seq<Candle>, minutes: int, start: int)
    requires minutes > 0
    ensures var e := Emitted(source, minutes, start);
            e.Some? ==> e.value.bar.openTime == start && e.value.bar.closeTime == start + 60 * minutes
                        && Collected(source, minutes, start) != []
  {
  }

  lemma {:induction false} AggregatesFromProperties(starts: seq<int>, source: seq<Candle>, minutes: int)
    requires minutes > 0 && Increasing(starts)
    ensures var list := AggregatesFrom(starts, source, minutes);
            StrictlySorted(BY_BUCKET, list)
            && forall a ::
                 a in list <==> a.bar.openTime in starts && Emitted(source, minutes, a.bar.openTime) == Some(a)
  {
    hide Emitted;
    if starts != [] {
      var rest := AggregatesFrom(starts[1..], source, minutes);
      AggregatesFromProperties(starts[1..], source, minutes);
      assert starts == [starts[0]] + starts[1..];
      EmittedTimes(source, minutes, starts[0]);
      forall j | 0 <= j < |rest|
        ensures starts[0] < rest[j].bar.openTime
      {
        assert rest[j] in rest;
      }
    }
  }

  /** The aggregates are exactly the complete buckets, in time order. */
  lemma AggregatesAreTheCompleteBuckets(source: seq<Candle>, minutes: int)
    requires minutes > 0
    ensures var list := Aggregates(source, minutes);
            StrictlySorted(BY_BUCKET, list)
            && forall a :: a in list <==> Emitted(source, minutes, a.bar.openTime) == Some(a)
  {
    hide Emitted, AggregatesFrom, BucketStarts, Collected;
    BucketStartsProperties(source, minutes);
    AggregatesFromProperties(BucketStarts(source, minutes), source, minutes);
    forall a: Aggregated | Emitted(source, minutes, a.bar.openTime) == Some(a)
      ensures a.bar.openTime in BucketStarts(source, minutes)
    {
      EmittedTimes(source, minutes, a.bar.openTime);
    }
  }

  // ---------- a bucket is emitted iff every minute of it is present ----------

  predicate OneMinute(c: Candle) {
    c.openTime % 60 == 0 && c.closeTime == c.openTime + 60
  }

  /** A one-minute history without two candles for the same minute. */
  ghost predicate WellFormed(source: seq<Candle>) {
    (forall c :: c in source ==> OneMinute(c)) && Distinct((c: Candle) => c.openTime, source)
  }

  ghost predicate MinutePresent(source: seq<Candle>, t: int) {
    exists c :: c in source && c.openTime == t
  }

  lemma BlockRange(n: int, size: int)
    requires n >= 0 && size > 0
    ensures n / size * size <= n < n / size * size + size
  {
  }

  /** The second of the day falls into the block of minutes that starts at its floor. */
  lemma FloorOfSecond(second: int, minutes: int)
    requires second >= 0 && minutes > 0
    ensures second / 60 / minutes * minutes * 60 <= second < second / 60 / minutes * minutes * 60 + 60 * minutes
  {
    var minute := second / 60;
    BlockRange(minute, minutes);
    BlockRange(second, 60);
    var block := minute / minutes * minutes;
    assert block <= minute <= block + minutes - 1;
  }

  lemma FloorTimeRange(t: int, minutes: int)
    requires KnownTimeframe(minutes)
    ensures FloorTime(t, minutes) <= t < FloorTime(t, minutes) + 60 * minutes
    ensures FloorTime(t, minutes) % 60 == 0
  {
    FloorOfSecond(t % DAY_SECONDS, minutes);
    WholeMinutes(t / DAY_SECONDS, t % DAY_SECONDS / 60 / minutes * minutes);
    assert FloorTime(t, minutes) == t / DAY_SECONDS * DAY_SECONDS + t % DAY_SECONDS / 60 / minutes * minutes * 60;
  }

  lemma WholeMinutes(day: int, minute: int)
    ensures (day * DAY_SECONDS + minute * 60) % 60 == 0
  {
    assert day * DAY_SECONDS + minute * 60 == 60 * (1440 * day + minute);
  }

  /** Inside a day, the minutes after a bucket's first minute fall into the same bucket. */
  lemma SameBucket(second: int, minutes: int, k: int)
    requires KnownTimeframe(minutes) && 0 <= second < DAY_SECONDS && 0 <= k < minutes
    requires second / 60 / minutes * minutes * 60 == second
    ensures second + 60 * k < DAY_SECONDS && (second + 60 * k) / 60 / minutes * minutes * 60 == second
  {
    if minutes == 5 {
      FiveMinutes(second, k);
    } else if minutes == 15 {
      FifteenMinutes(second, k);
    } else {
      SixtyMinutes(second, k);
    }
  }

  lemma FiveMinutes(second: int, k: int)
    requires 0 <= second < DAY_SECONDS && 0 <= k < 5 && second / 60 / 5 * 5 * 60 == second
    ensures second + 60 * k < DAY_SECONDS && (second + 60 * k) / 60 / 5 * 5 * 60 == second
  {
  }

  lemma FifteenMinutes(second: int, k: int)
    requires 0 <= second < DAY_SECONDS && 0 <= k < 15 && second / 60 / 15 * 15 * 60 == second
    ensures second + 60 * k < DAY_SECONDS && (second + 60 * k) / 60 / 15 * 15 * 60 == second
  {
  }

  lemma SixtyMinutes(second: int, k: int)
    requires 0 <= second < DAY_SECONDS && 0 <= k < 60 && second / 60 / 60 * 60 * 60 == second
    ensures second + 60 * k < DAY_SECONDS && (second + 60 * k) / 60 / 60 * 60 * 60 == second
  {
  }

  lemma SameDay(start: int, second: int, extra: int)
    requires second == start % DAY_SECONDS && 0 <= extra && second + extra < DAY_SECONDS
    ensures (start + extra) % DAY_SECONDS == second + extra
  {
    assert start + extra == start / DAY_SECONDS * DAY_SECONDS + (second + extra);
  }

  lemma FloorTimeInside(start: int, minutes: int, k: int)
    requires KnownTimeframe(minutes) && FloorTime(start, minutes) == start && 0 <= k < minutes
    ensures FloorTime(start + 60 * k, minutes) == start
  {
    SameBucket(start % DAY_SECONDS, minutes, k);
    SameDay(start, start % DAY_SECONDS, 60 * k);
  }

  lemma MinuteIndex(t: int, minutes: int, start: int)
    returns (k: nat)
    requires KnownTimeframe(minutes) && t % 60 == 0 && FloorTime(t, minutes) == start
    ensures k < minutes && t == start + 60 * k
  {
    hide FloorTime;
    FloorTimeRange(t, minutes);
    k := (t - start) / 60;
  }

  function Times(rows: seq<Candle>): (times: seq<int>)
    ensures |times| == |rows| && forall i :: 0 <= i < |rows| ==> times[i] == rows[i].openTime
  {
    seq(|rows|, i requires 0 <= i < |rows| => rows[i].openTime)
  }

  function Grid(start: int, n: nat): (times: seq<int>)
    ensures |times| == n && forall k :: 0 <= k < n ==> times[k] == start + 60 * k
  {
    seq(n, k requires 0 <= k < n => start + 60 * k)
  }

  lemma BucketMembers(source: seq<Candle>, minutes: int, start: int)
    requires minutes > 0
    ensures forall c :: c in Bucket(source, minutes, start) <==> c in source && Opens(c, minutes, start)
    ensures Bucket(source, minutes, start) != [] ==> Collected(source, minutes, start) != []
  {
    hide Opens;
    SortKeepsMembers(BY_OPEN, Collected(source, minutes, start));
    FilterMembers(c => Opens(c, minutes, start), source);
  }

  lemma {:induction false} FilterKeepsDistinct<T(!new), K>(key: T -> K, keep: T -> bool, s: seq<T>)
    requires Distinct(key, s)
    ensures Distinct(key, Filter(keep, s))
  {
    if s != [] {
      FilterKeepsDistinct(key, keep, s[1..]);
      var f := Filter(keep, s[1..]);
      FilterMembers(keep, s[1..]);
      forall j | 0 <= j < |f|
        ensures key(s[0]) != key(f[j])
      {
        assert f[j] in f;
        var k :| 0 <= k < |s[1..]| && s[1..][k] == f[j];
        assert s[k + 1] == f[j];
      }
    }
  }

  lemma BucketTimesIncrease(source: seq<Candle>, minutes: int, start: int)
    requires minutes > 0 && Distinct((c: Candle) => c.openTime, source)
    ensures Increasing(Times(Bucket(source, minutes, start)))
  {
    hide Opens, Filter, Sort;
    var key := (c: Candle) => c.openTime;
    var rows := Bucket(source, minutes, start);
    FilterKeepsDistinct(key, c => Opens(c, minutes, start), source);
    SortIsPermutation(BY_OPEN, Collected(source, minutes, start));
    DistinctAfterPermutation(key, rows, Collected(source, minutes, start));
    ByOpenIsWeakOrder();
    SortIsSorted(BY_OPEN, Collected(source, minutes, start));
    forall i, j | 0 <= i < j < |rows|
      ensures rows[i].openTime < rows[j].openTime
    {
      assert key(rows[i]) != key(rows[j]) && !BY_OPEN(rows[j], rows[i]);
    }
  }

  lemma TimesOfFullBucket(source: seq<Candle>, minutes: int, start: int)
    requires KnownTimeframe(minutes) && FloorTime(start, minutes) == start && WellFormed(source)
    requires forall k :: 0 <= k < minutes ==> MinutePresent(source, start + 60 * k)
    ensures Times(Bucket(source, minutes, start)) == Grid(start, minutes)
  {
    hide FloorTime, Bucket;
    var rows := Bucket(source, minutes, start);
    BucketMembers(source, minutes, start);
    BucketTimesIncrease(source, minutes, start);
    forall t: int
      ensures t in Times(rows) <==> t in Grid(start, minutes)
    {
      if t in Times(rows) {
        var i :| 0 <= i < |rows| && Times(rows)[i] == t;
        assert rows[i] in rows;
        var k := MinuteIndex(t, minutes, start);
        assert Grid(start, minutes)[k] == t;
      }
      if t in Grid(start, minutes) {
        var k :| 0 <= k < minutes && Grid(start, minutes)[k] == t;
        assert MinutePresent(source, start + 60 * k);
        var c :| c in source && c.openTime == t;
        FloorTimeInside(start, minutes, k);
        var i :| 0 <= i < |rows| && rows[i] == c;
        assert Times(rows)[i] == t;
      }
    }
    IncreasingIsUnique(Times(rows), Grid(start, minutes));
  }

  /** For a well-formed history, a bucket is emitted exactly when each of its minutes has a candle. */
  lemma EmittedIffEveryMinuteIsPresent(source: seq<Candle>, minutes: int, start: int)
    requires KnownTimeframe(minutes) && FloorTime(start, minutes) == start && WellFormed(source)
    ensures Emitted(source, minutes, start).Some?
            <==> forall k :: 0 <= k < minutes ==> MinutePresent(source, start + 60 * k)
  {
    hide FloorTime, Bucket, BarOf;
    var rows := Bucket(source, minutes, start);
    BucketMembers(source, minutes, start);
    if Emitted(source, minutes, start).Some? {
      forall k | 0 <= k < minutes
        ensures MinutePresent(source, start + 60 * k)
      {
        assert rows[k] in source && rows[k].openTime == start + 60 * k;
      }
    }
    if forall k :: 0 <= k < minutes ==> MinutePresent(source, start + 60 * k) {
      TimesOfFullBucket(source, minutes, start);
      forall k | 0 <= k < |rows|
        ensures rows[k].openTime == start + 60 * k && rows[k].closeTime == start + 60 * k + 60
      {
        assert Times(rows)[k] == Grid(start, minutes)[k];
        assert rows[k] in source;
      }
    }
  }

  // ---------- what a later cutoff can change ----------

  /** The candle closes after the end of the bucket it opens in. */
  predicate Straddles(c: Candle, minutes: int)
    requires minutes > 0
  {
    c.closeTime > FloorTime(c.openTime, minutes) + 60 * minutes
  }

  /** The completed candles that close inside their bucket. */
  function InTime(history: seq<Candle>, minutes: int): seq<Candle>
    requires minutes > 0
  {
    Filter((c: Candle) => c.completed && !Straddles(c, minutes), Sort(BY_CANDLE_CLOSE, history))
  }

  /** No completed candle straddles the end of a bucket that is complete without it. */
  ghost predicate Steady(history: seq<Candle>, minutes: int)
    requires minutes > 0
  {
    forall c :: c in history && c.completed && Straddles(c, minutes) ==>
      Emitted(InTime(history, minutes), minutes, FloorTime(c.openTime, minutes)).None?
  }

  lemma BucketOfVisible(history: seq<Candle>, minutes: int, start: int, cutoff: int)
    requires minutes > 0 && start + 60 * minutes <= cutoff
    requires forall c :: c in history && c.completed && Opens(c, minutes, start) && c.closeTime <= cutoff ==>
             !Straddles(c, minutes)
    ensures Bucket(Visible(history, Some(cutoff)), minutes, start) == Bucket(InTime(history, minutes), minutes, start)
  {
    hide FloorTime, Filter, Sort;
    var sorted := Sort(BY_CANDLE_CLOSE, history);
    var opens := (c: Candle) => Opens(c, minutes, start);
    var both := (c: Candle) => Opens(c, minutes, start) && c.completed && c.closeTime <= cutoff;
    SortKeepsMembers(BY_CANDLE_CLOSE, history);
    FilterFilter(c => ClosedBy(c, Some(cutoff)), opens, both, sorted);
    FilterFilter((c: Candle) => c.completed && !Straddles(c, minutes), opens, both, sorted);
  }

  lemma VisibleMembers(history: seq<Candle>, cutoff: Option<int>)
    ensures forall c :: c in Visible(history, cutoff) <==> c in history && ClosedBy(c, cutoff)
  {
    hide ClosedBy, Sort, Filter;
    SortKeepsMembers(BY_CANDLE_CLOSE, history);
    FilterMembers(c => ClosedBy(c, cutoff), Sort(BY_CANDLE_CLOSE, history));
  }

  /** A complete bucket holds no candle that closes after its end, and one that closes exactly there. */
  lemma CompleteCloses(rows: seq<Candle>, minutes: int, start: int)
    requires minutes > 0 && Complete(rows, minutes, start)
    ensures forall c :: c in rows ==> c.closeTime <= start + 60 * minutes
    ensures rows[minutes - 1].closeTime == start + 60 * minutes && rows[minutes - 1] in rows
  {
    forall c | c in rows
      ensures c.closeTime <= start + 60 * minutes
    {
      var k :| 0 <= k < |rows| && rows[k] == c;
      assert rows[k].closeTime - rows[k].openTime == 60;
    }
  }

  /** A straddling candle, once visible, keeps its bucket from being emitted. */
  lemma StraddlerBlocks(history: seq<Candle>, minutes: int, c: Candle, cutoff: int)
    requires minutes > 0 && c in history && c.completed && Straddles(c, minutes) && c.closeTime <= cutoff
    ensures Emitted(Visible(history, Some(cutoff)), minutes, FloorTime(c.openTime, minutes)).None?
  {
    hide FloorTime, Bucket, Visible, BarOf;
    var start := FloorTime(c.openTime, minutes);
    VisibleMembers(history, Some(cutoff));
    BucketMembers(Visible(history, Some(cutoff)), minutes, start);
    var rows := Bucket(Visible(history, Some(cutoff)), minutes, start);
    assert c in rows;
    if Complete(rows, minutes, start) {
      CompleteCloses(rows, minutes, start);
    }
  }

  lemma UnfinishedBucket(history: seq<Candle>, minutes: int, start: int, cutoff: int)
    requires minutes > 0 && start + 60 * minutes > cutoff
    ensures Emitted(Visible(history, Some(cutoff)), minutes, start).None?
  {
    hide FloorTime, Bucket, Visible, BarOf;
    VisibleMembers(history, Some(cutoff));
    BucketMembers(Visible(history, Some(cutoff)), minutes, start);
    var rows := Bucket(Visible(history, Some(cutoff)), minutes, start);
    if Complete(rows, minutes, start) {
      CompleteCloses(rows, minutes, start);
    }
  }

  lemma EmittedAtCutoff(history: seq<Candle>, minutes: int, start: int, cutoff: int)
    requires minutes > 0 && Steady(history, minutes)
    ensures Emitted(Visible(history, Some(cutoff)), minutes, start)
            == if start + 60 * minutes <= cutoff then Emitted(InTime(history, minutes), minutes, start) else None
  {
    hide FloorTime, Emitted, Visible, InTime;
    if start + 60 * minutes > cutoff {
      UnfinishedBucket(history, minutes, start, cutoff);
    } else if c :|
        c in history && c.completed && Opens(c, minutes, start) && c.closeTime <= cutoff && Straddles(c, minutes) {
      StraddlerBlocks(history, minutes, c, cutoff);
    } else {
      BucketOfVisible(history, minutes, start, cutoff);
      SameBucketSameAggregate(Visible(history, Some(cutoff)), InTime(history, minutes), minutes, start);
    }
  }

  lemma SameBucketSameAggregate(a: seq<Candle>, b: seq<Candle>, minutes: int, start: int)
    requires minutes > 0 && Bucket(a, minutes, start) == Bucket(b, minutes, start)
    ensures Emitted(a, minutes, start) == Emitted(b, minutes, start)
  {
  }

  function AggregatesAt(history: seq<Candle>, minutes: int, cutoff: int): seq<Aggregated>
    requires minutes > 0
  {
    Aggregates(Visible(history, Some(cutoff)), minutes)
  }

  lemma AggregatesAtCutoff(history: seq<Candle>, minutes: int, cutoff: int)
    requires minutes > 0 && Steady(history, minutes)
    ensures AggregatesAt(history, minutes, cutoff)
            == Filter((a: Aggregated) => a.bar.closeTime <= cutoff, Aggregates(InTime(history, minutes), minutes))
  {
    hide Aggregates, Emitted, Visible, InTime, Filter;
    var done := (a: Aggregated) => a.bar.closeTime <= cutoff;
    var whole := Aggregates(InTime(history, minutes), minutes);
    AggregatesAreTheCompleteBuckets(Visible(history, Some(cutoff)), minutes);
    AggregatesAreTheCompleteBuckets(InTime(history, minutes), minutes);
    FilterMembers(done, whole);
    FilterKeepsStrict(BY_BUCKET, done, whole);
    ByBucketIsWeakOrder();
    forall a: Aggregated
      ensures a in AggregatesAt(history, minutes, cutoff) <==> a in Filter(done, whole)
    {
      EmittedAtCutoff(history, minutes, a.bar.openTime, cutoff);
      EmittedTimes(InTime(history, minutes), minutes, a.bar.openTime);
    }
    StrictlySortedIsUnique(BY_BUCKET, AggregatesAt(history, minutes, cutoff), Filter(done, whole));
  }

  lemma {:induction false} DonePrefix(list: seq<Aggregated>, early: int, late: int)
    requires early <= late
    requires forall i, j :: 0 <= i < j < |list| ==> list[i].bar.closeTime < list[j].bar.closeTime
    ensures Filter((a: Aggregated) => a.bar.closeTime <= early, list)
            <= Filter((a: Aggregated) => a.bar.closeTime <= late, list)
  {
    if list != [] {
      DonePrefix(list[1..], early, late);
      if list[0].bar.closeTime > early {
        FilterNone((a: Aggregated) => a.bar.closeTime <= early, list);
      }
    }
  }

  lemma AggregatesCloseInOrder(source: seq<Candle>, minutes: int)
    requires minutes > 0
    ensures var list := Aggregates(source, minutes);
            forall i, j :: 0 <= i < j < |list| ==> list[i].bar.closeTime < list[j].bar.closeTime
  {
    hide Aggregates, Emitted;
    var list := Aggregates(source, minutes);
    AggregatesAreTheCompleteBuckets(source, minutes);
    forall i, j | 0 <= i < j < |list|
      ensures list[i].bar.closeTime < list[j].bar.closeTime
    {
      assert list[i] in list && list[j] in list && BY_BUCKET(list[i], list[j]);
      EmittedTimes(source, minutes, list[i].bar.openTime);
      EmittedTimes(source, minutes, list[j].bar.openTime);
    }
  }

  lemma SteadyNeverRepaints(history: seq<Candle>, minutes: int, early: int, late: int)
    requires minutes > 0 && Steady(history, minutes) && early <= late
    ensures AggregatesAt(history, minutes, early) <= AggregatesAt(history, minutes, late)
  {
    hide Aggregates, AggregatesAt, InTime, Filter;
    AggregatesAtCutoff(history, minutes, early);
    AggregatesAtCutoff(history, minutes, late);
    AggregatesCloseInOrder(InTime(history, minutes), minutes);
    DonePrefix(Aggregates(InTime(history, minutes), minutes), early, late);
  }

  /** A straddling candle that spoils a complete bucket makes that bucket disappear at a later cutoff. */
  lemma StraddlerRepaints(history: seq<Candle>, minutes: int, c: Candle)
    requires minutes > 0 && c in history && c.completed && Straddles(c, minutes)
    requires Emitted(InTime(history, minutes), minutes, FloorTime(c.openTime, minutes)).Some?
    ensures var end := FloorTime(c.openTime, minutes) + 60 * minutes;
            end <= c.closeTime && !(AggregatesAt(history, minutes, end) <= AggregatesAt(history, minutes, c.closeTime))
  {
    hide FloorTime, Aggregates, Emitted, Visible, InTime;
    var start := FloorTime(c.openTime, minutes);
    var end := start + 60 * minutes;
    BucketOfVisible(history, minutes, start, end);
    SameBucketSameAggregate(Visible(history, Some(end)), InTime(history, minutes), minutes, start);
    var a := Emitted(InTime(history, minutes), minutes, start).value;
    EmittedTimes(InTime(history, minutes), minutes, start);
    StraddlerBlocks(history, minutes, c, c.closeTime);
    AggregatesAreTheCompleteBuckets(Visible(history, Some(end)), minutes);
    AggregatesAreTheCompleteBuckets(Visible(history, Some(c.closeTime)), minutes);
    assert a in AggregatesAt(history, minutes, end) && a !in AggregatesAt(history, minutes, c.closeTime);
  }

  // ---------- a history that repaints ----------

  function FlatCandle(start: int, stop: int): Candle {
    Candle("BTCUSDT", start, stop, 1.0, 1.0, 1.0, 1.0, 1.0, 1.0, true)
  }

  function FiveMinuteCandles(): seq<Candle> {
    [FlatCandle(0, 60), FlatCandle(60, 120), FlatCandle(120, 180), FlatCandle(180, 240), FlatCandle(240, 300)]
  }

  /** A full five-minute bucket and one more completed candle that opens in it and closes half a minute after it. */
  function StraddledHistory(): seq<Candle> {
    FiveMinuteCandles() + [FlatCandle(240, 330)]
  }

  lemma StraddledIsSorted()
    ensures Sort(BY_CANDLE_CLOSE, StraddledHistory()) == StraddledHistory()
  {
    hide Sort;
    SortFixesSorted(BY_CANDLE_CLOSE, StraddledHistory());
  }

  lemma OnlyTheLastStraddles()
    ensures forall i :: 0 <= i < 5 ==> FiveMinuteCandles()[i].completed && !Straddles(FiveMinuteCandles()[i], 5)
    ensures Straddles(FlatCandle(240, 330), 5) && FloorTime(240, 5) == 0
  {
  }

  lemma StraddledInTime()
    ensures InTime(StraddledHistory(), 5) == FiveMinuteCandles()
  {
    hide Filter, Sort, FloorTime, Straddles;
    var keep := (c: Candle) => c.completed && !Straddles(c, 5);
    StraddledIsSorted();
    OnlyTheLastStraddles();
    FilterConcat(keep, FiveMinuteCandles(), [FlatCandle(240, 330)]);
    FilterNone(keep, [FlatCandle(240, 330)]);
    KeepsAll(keep, FiveMinuteCandles());
  }

  lemma {:induction false} KeepsAll<T>(keep: T -> bool, s: seq<T>)
    requires forall i :: 0 <= i < |s| ==> keep(s[i])
    ensures Filter(keep, s) == s
  {
    if s != [] {
      KeepsAll(keep, s[1..]);
      assert s == [s[0]] + s[1..];
    }
  }

  lemma FiveMinutesEmitted()
    ensures Emitted(FiveMinuteCandles(), 5, 0).Some?
  {
    hide Emitted;
    var source := FiveMinuteCandles();
    forall i, j | 0 <= i < j < |source|
      ensures source[i].openTime != source[j].openTime
    {
      assert source[i].openTime == 60 * i && source[j].openTime == 60 * j;
    }
    forall c | c in source
      ensures OneMinute(c)
    {
    }
    forall k | 0 <= k < 5
      ensures MinutePresent(source, 0 + 60 * k)
    {
      assert source[k] in source && source[k].openTime == 60 * k;
    }
    EmittedIffEveryMinuteIsPresent(source, 5, 0);
  }

  /** The promise fails: with close times all distinct, the bucket visible at 300 seconds is gone at 330. */
  lemma SomeHistoryRepaints()
    ensures Distinct((c: Candle) => c.closeTime, StraddledHistory()) && !Steady(StraddledHistory(), 5)
    ensures !(AggregatesAt(StraddledHistory(), 5, 300) <= AggregatesAt(StraddledHistory(), 5, 330))
  {
    hide AggregatesAt, Emitted, InTime, FiveMinuteCandles, FloorTime, Straddles;
    var history, c := StraddledHistory(), FlatCandle(240, 330);
    StraddledCloses();
    StraddledInTime();
    FiveMinutesEmitted();
    OnlyTheLastStraddles();
    assert history[|history| - 1] == c;
    StraddlerRepaints(history, 5, c);
  }

  lemma StraddledCloses()
    ensures Distinct((c: Candle) => c.closeTime, StraddledHistory())
  {
    var history := StraddledHistory();
    assert history[0].closeTime == 60 && history[1].closeTime == 120 && history[2].closeTime == 180
           && history[3].closeTime == 240 && history[4].closeTime == 300 && history[5].closeTime == 330;
  }

  /** No repainting, exactly: every earlier list is a prefix of every later one iff the history is steady. */
  lemma NeverRepaintsIffSteady(history: seq<Candle>, minutes: int)
    requires minutes > 0
    ensures Steady(history, minutes)
            <==> forall early, late :: early <= late ==>
              AggregatesAt(history, minutes, early) <= AggregatesAt(history, minutes, late)
  {
    hide FloorTime, AggregatesAt, Emitted, InTime, Straddles;
    if Steady(history, minutes) {
      forall early, late | early <= late
        ensures AggregatesAt(history, minutes, early) <= AggregatesAt(history, minutes, late)
      {
        SteadyNeverRepaints(history, minutes, early, late);
      }
    } else {
      var c :| c in history && c.completed && Straddles(c, minutes)
               && !Emitted(InTime(history, minutes), minutes, FloorTime(c.openTime, minutes)).None?;
      StraddlerRepaints(history, minutes, c);
    }
  }

  /** Whole one-minute candles never straddle, so well-formed histories never repaint. */
  lemma OneMinuteHistoriesAreSteady(history: seq<Candle>, minutes: int)
    requires KnownTimeframe(minutes) && forall c :: c in history ==> OneMinute(c)
    ensures Steady(history, minutes)
  {
    hide FloorTime, Emitted, InTime;
    forall c | c in history
      ensures !Straddles(c, minutes)
    {
      var k := MinuteIndex(c.openTime, minutes, FloorTime(c.openTime, minutes));
    }
  }

  // ---------- aggregating in loops ----------

  /** `buckets.setdefault(start, []).append(candle)`. */
  method CollectBuckets(source: seq<Candle>, minutes: int) returns (buckets: map<int, seq<Candle>>)
    requires minutes > 0
    ensures forall s :: s in buckets <==> Collected(source, minutes, s) != []
    ensures forall s :: s in buckets ==> buckets[s] == Collected(source, minutes, s)
  {
    hide FloorTime;
    buckets := map[];
    for i := 0 to |source|
      invariant forall s :: s in buckets <==> Collected(source[..i], minutes, s) != []
      invariant forall s :: s in buckets ==> buckets[s] == Collected(source[..i], minutes, s)
    {
      var candle := source[i];
      var start := FloorTime(candle.openTime, minutes);
      forall s
        ensures Collected(source[..i + 1], minutes, s)
                == Collected(source[..i], minutes, s) + (if s == start then [candle] else [])
      {
        CollectOne(source, minutes, s, i);
      }
      buckets := buckets[start := (if start in buckets then buckets[start] else []) + [candle]];
    }
    assert source[..|source|] == source;
  }

  lemma CollectOne(source: seq<Candle>, minutes: int, start: int, i: nat)
    requires minutes > 0 && i < |source|
    ensures Collected(source[..i + 1], minutes, start)
            == Collected(source[..i], minutes, start)
              + (if FloorTime(source[i].openTime, minutes) == start then [source[i]] else [])
  {
    hide FloorTime;
    var keep := (c: Candle) => Opens(c, minutes, start);
    assert source[..i + 1] == source[..i] + [source[i]];
    FilterConcat(keep, source[..i], [source[i]]);
    FilterCons(keep, source[i], []);
    assert [source[i]] + [] == [source[i]];
  }

  /** `_aggregate_completed_candles`; an empty source is answered before the timeframe is looked up. */
  method AggregateCompletedCandles(source: seq<Candle>, minutes: int) returns (r: Result<seq<Aggregated>, BucketError>)
    ensures source == [] ==> r == Success([])
    ensures source != [] && !KnownTimeframe(minutes) ==> r == Failure(TimeframeUnavailable)
    ensures KnownTimeframe(minutes) ==> r == Success(Aggregates(source, minutes))
  {
    hide FloorTime, AggregatesFrom, BucketStarts, Collected, Sort, BarOf;
    if source == [] {
      NothingAggregated(minutes);
      return Success([]);
    }
    if !KnownTimeframe(minutes) {
      return Failure(TimeframeUnavailable);
    }
    var buckets := CollectBuckets(source, minutes);
    var keys := SortedKeys(buckets);
    BucketStartsProperties(source, minutes);
    IncreasingIsUnique(keys, BucketStarts(source, minutes));
    var aggregated: seq<Aggregated> := [];
    NoBuckets(source, minutes);
    for i := 0 to |keys|
      invariant aggregated + AggregatesFrom(keys[i..], source, minutes) == AggregatesFrom(keys, source, minutes)
    {
      AggregatesStep(keys, i, source, minutes, aggregated);
      var rows := Sort(BY_OPEN, buckets[keys[i]]);
      if |rows| != minutes {
        continue;
      }
      if !ExpectedOpens(rows, keys[i]) {
        continue;
      }
      if !Contiguous(rows) {
        continue;
      }
      aggregated := aggregated + [AggregateOf(rows, minutes, keys[i])];
    }
    assert keys[|keys|..] == [] && aggregated + [] == aggregated;
    r := Success(aggregated);
  }

  lemma NothingAggregated(minutes: int)
    ensures minutes > 0 ==> Aggregates([], minutes) == []
  {
  }

  lemma NoBuckets(source: seq<Candle>, minutes: int)
    requires minutes > 0
    ensures AggregatesFrom([], source, minutes) == []
  {
  }

  lemma AggregatesStep(keys: seq<int>, i: nat, source: seq<Candle>, minutes: int, done: seq<Aggregated>)
    requires minutes > 0 && i < |keys|
    ensures var rows := Sort(BY_OPEN, Collected(source, minutes, keys[i]));
            var rest := AggregatesFrom(keys[i + 1..], source, minutes);
            if Complete(rows, minutes, keys[i])
            then done + AggregatesFrom(keys[i..], source, minutes)
              == done + [AggregateOf(rows, minutes, keys[i])] + rest
            else AggregatesFrom(keys[i..], source, minutes) == rest
  {
    hide BarOf, Complete, Collected, Sort;
    assert keys[i..][1..] == keys[i + 1..];
  }
}
