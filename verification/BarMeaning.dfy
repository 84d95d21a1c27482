/** Completed bars in terms of the candles themselves: which buckets are bars, and what each bar says. */
module BarMeaning {
  import opened Prelude
  import opened Sorting
  import opened CausalBars

  // ---------- buckets ----------

  /** Buckets start at midnight UTC and every so many minutes after it; a bucket holds the times up to its length. */
  predicate StartsFor(start: int, minutes: int, t: int)
    requires minutes > 0
  {
    var midnight := t - t % 86400;
    midnight <= start <= t < start + 60 * minutes && IsWhole(start - midnight, 60 * minutes)
  }

  /** A whole number of sizes. */
  predicate IsWhole(x: int, size: int)
    requires size > 0
  {
    x / size * size == x
  }

  lemma BlockStart(x: int, size: int)
    requires x >= 0 && size > 0
    ensures 0 <= x / size * size <= x < x / size * size + size
  {
  }

  lemma Multiple(k: int, size: int)
    requires size > 0
    ensures IsWhole(k * size, size)
  {
    var m := k * size / size;
    assert m * size <= k * size < m * size + size;
    if m < k {
      Farther(m, k, size);
    } else if k < m {
      Farther(k, m, size);
    }
  }

  lemma OnlyBlock(i: int, j: int, size: int, x: int)
    requires size > 0 && i * size <= x < i * size + size && j * size <= x < j * size + size
    ensures i == j
  {
    if i < j {
      Farther(i, j, size);
    } else if j < i {
      Farther(j, i, size);
    }
  }

  lemma Farther(i: int, j: int, size: int)
    requires i < j && size > 0
    ensures j * size >= i * size + size
  {
    assert (j - i) * size == j * size - i * size;
    assert (j - i - 1) * size >= 0;
  }

  /** Minutes of the day in blocks are seconds of the day in blocks. */
  lemma NestedBlocks(second: int, minutes: int)
    requires second >= 0 && minutes > 0
    ensures second / 60 / minutes * minutes * 60 == second / (60 * minutes) * (60 * minutes)
  {
    var block := second / 60 / minutes;
    BlockStart(second / 60, minutes);
    BlockStart(second, 60);
    BlockStart(second, 60 * minutes);
    SixtyTimes(block, minutes);
    OnlyBlock(block, second / (60 * minutes), 60 * minutes, second);
  }

  lemma SixtyTimes(block: int, minutes: int)
    ensures block * minutes * 60 == block * (60 * minutes)
  {
  }

  lemma FloorTimeIsExact(t: int, minutes: int, start: int)
    requires minutes > 0
    ensures FloorTime(t, minutes) == start <==> StartsFor(start, minutes, t)
  {
    hide IsWhole;
    var second, size := t % 86400, 60 * minutes;
    var block := second / size;
    NestedBlocks(second, minutes);
    BlockStart(second, size);
    Multiple(block, size);
    FloorTimeIs(t, minutes);
    if StartsFor(start, minutes, t) {
      WholeIs(start - (t - second), size);
      OnlyBlock((start - (t - second)) / size, block, size, second);
    }
  }

  lemma FloorTimeIs(t: int, minutes: int)
    requires minutes > 0
    ensures FloorTime(t, minutes) == t - t % 86400 + t % 86400 / 60 / minutes * minutes * 60
  {
  }

  lemma WholeIs(x: int, size: int)
    requires size > 0 && IsWhole(x, size)
    ensures x / size * size == x
  {
  }

  /** A completed candle, closed by the cutoff, that opens in the bucket and closes by its end. */
  predicate InBucket(c: Candle, minutes: int, cutoff: Option<int>, start: int)
    requires minutes > 0
  {
    && c.completed && (cutoff.Some? ==> c.closeTime <= cutoff.value)
    && StartsFor(start, minutes, c.openTime) && c.closeTime <= start + 60 * minutes
  }

  function BucketOf(candles: seq<Candle>, minutes: int, cutoff: Option<int>, start: int): seq<Candle>
    requires minutes > 0
  {
    Filter(c => InBucket(c, minutes, cutoff, start), candles)
  }

  lemma RowsAreTheBucket(candles: seq<Candle>, minutes: int, cutoff: Option<int>, start: int)
    requires minutes > 0
    ensures Rows(Eligible(candles, cutoff), minutes, start) == Sort(BY_OPEN, BucketOf(candles, minutes, cutoff, start))
  {
    hide FloorTime, StartsFor, Sort, Rows, Eligible;
    RowsWithoutSorting(candles, minutes, start, cutoff);
    forall c | c in candles
      ensures ClosedBy(c, cutoff) && InGroup(c, minutes, start) <==> InBucket(c, minutes, cutoff, start)
    {
      FloorTimeIsExact(c.openTime, minutes, start);
    }
    FilterAgrees(c => ClosedBy(c, cutoff) && InGroup(c, minutes, start),
                 c => InBucket(c, minutes, cutoff, start), candles);
  }

  // ---------- the first and the last candle of a bucket ----------

  /** No other candle opens earlier, and of those that open with it it is the first given. */
  ghost predicate OpensFirst(bucket: seq<Candle>, i: nat) {
    i < |bucket|
    && forall j :: 0 <= j < |bucket| ==>
         bucket[j].openTime > bucket[i].openTime || (bucket[j].openTime == bucket[i].openTime && j >= i)
  }

  /** No other candle opens later, and of those that open with it it is the last given. */
  ghost predicate OpensLast(bucket: seq<Candle>, i: nat) {
    i < |bucket|
    && forall j :: 0 <= j < |bucket| ==>
         bucket[j].openTime < bucket[i].openTime || (bucket[j].openTime == bucket[i].openTime && j <= i)
  }

  lemma {:induction false} SortedFirst(bucket: seq<Candle>) returns (i: nat)
    requires bucket != []
    ensures OpensFirst(bucket, i) && Sort(BY_OPEN, bucket) != [] && Sort(BY_OPEN, bucket)[0] == bucket[i]
  {
    i := 0;
    if |bucket| > 1 {
      var k := SortedFirst(bucket[1..]);
      assert forall j :: 0 < j < |bucket| ==> bucket[j] == bucket[1..][j - 1];
      if bucket[k + 1].openTime < bucket[0].openTime {
        i := k + 1;
      }
    }
  }

  lemma {:induction false} InsertLast(x: Candle, s: seq<Candle>)
    requires s != [] && Sorted(BY_OPEN, s)
    ensures var r := Insert(BY_OPEN, x, s);
            r != [] && r[|r| - 1] == if s[|s| - 1].openTime < x.openTime then x else s[|s| - 1]
  {
    if BY_OPEN(s[0], x) {
      if |s| > 1 {
        TailIsSorted(s);
        InsertLast(x, s[1..]);
      }
    } else {
      assert !BY_OPEN(s[|s| - 1], s[0]) || |s| == 1;
    }
  }

  lemma TailIsSorted(s: seq<Candle>)
    requires s != [] && Sorted(BY_OPEN, s)
    ensures Sorted(BY_OPEN, s[1..])
  {
  }

  lemma {:induction false} SortedLast(bucket: seq<Candle>) returns (i: nat)
    requires bucket != []
    ensures var rows := Sort(BY_OPEN, bucket);
            OpensLast(bucket, i) && rows != [] && rows[|rows| - 1] == bucket[i]
  {
    i := 0;
    if |bucket| > 1 {
      var k := SortedLast(bucket[1..]);
      assert forall j :: 0 < j < |bucket| ==> bucket[j] == bucket[1..][j - 1];
      ByOpenIsWeakOrder();
      SortIsSorted(BY_OPEN, bucket[1..]);
      InsertLast(bucket[0], Sort(BY_OPEN, bucket[1..]));
      if bucket[k + 1].openTime >= bucket[0].openTime {
        i := k + 1;
      }
    }
  }

  lemma {:induction false} InsertedSum(x: Candle, s: seq<Candle>, part: Candle -> real)
    ensures SumOf(Insert(BY_OPEN, x, s), part) == part(x) + SumOf(s, part)
  {
    if s != [] && BY_OPEN(s[0], x) {
      InsertedSum(x, s[1..], part);
    }
  }

  lemma {:induction false} SortedSum(bucket: seq<Candle>, part: Candle -> real)
    ensures SumOf(Sort(BY_OPEN, bucket), part) == SumOf(bucket, part)
  {
    if bucket != [] {
      SortedSum(bucket[1..], part);
      InsertedSum(bucket[0], Sort(BY_OPEN, bucket[1..]), part);
    }
  }

  // ---------- bars ----------

  function VolumeOf(bucket: seq<Candle>): real {
    if bucket == [] then 0.0 else bucket[0].volume + VolumeOf(bucket[1..])
  }

  function TurnoverOf(bucket: seq<Candle>): real {
    if bucket == [] then 0.0 else bucket[0].turnover + TurnoverOf(bucket[1..])
  }

  lemma {:induction false} Totals(bucket: seq<Candle>)
    ensures SumOf(bucket, VOLUME) == VolumeOf(bucket) && SumOf(bucket, TURNOVER) == TurnoverOf(bucket)
  {
    if bucket != [] {
      Totals(bucket[1..]);
    }
  }

  /** The bar of a bucket, from its candles in the order they were given. */
  ghost predicate Summarizes(bar: Bar, bucket: seq<Candle>, minutes: int, start: int) {
    && bar.minutes == minutes && bar.openTime == start && bar.closeTime == start + 60 * minutes
    && (exists i: nat :: OpensFirst(bucket, i) && bar.open == bucket[i].open)
    && (exists i: nat :: OpensLast(bucket, i) && bar.close == bucket[i].close && bar.symbol == bucket[i].symbol)
    && (exists c :: c in bucket && c.high == bar.high) && (forall c :: c in bucket ==> c.high <= bar.high)
    && (exists c :: c in bucket && c.low == bar.low) && (forall c :: c in bucket ==> c.low >= bar.low)
    && bar.volume == VolumeOf(bucket) && bar.turnover == TurnoverOf(bucket)
  }

  /** The last candle of the bucket reaches its end. */
  ghost predicate IsClosed(bucket: seq<Candle>, minutes: int, start: int) {
    exists i: nat :: OpensLast(bucket, i) && bucket[i].closeTime == start + 60 * minutes
  }

  lemma BarOfBucket(bucket: seq<Candle>, minutes: int, start: int)
    requires bucket != []
    ensures Sort(BY_OPEN, bucket) != []
    ensures Summarizes(BarOf(Sort(BY_OPEN, bucket), minutes, start), bucket, minutes, start)
  {
    hide Sort, MaxHigh, MinLow, SumOf;
    var first := SortedFirst(bucket);
    var last := SortedLast(bucket);
    var rows := Sort(BY_OPEN, bucket);
    SortIsPermutation(BY_OPEN, bucket);
    MembersOfPermutation(rows, bucket);
    ExtremesOfRows(rows);
    SortedSum(bucket, VOLUME);
    SortedSum(bucket, TURNOVER);
    Totals(bucket);
    var bar := BarOf(rows, minutes, start);
    assert OpensFirst(bucket, first) && bar.open == bucket[first].open;
    assert OpensLast(bucket, last) && bar.close == bucket[last].close && bar.symbol == bucket[last].symbol;
  }

  lemma LastIsUnique(bucket: seq<Candle>, i: nat, j: nat)
    requires OpensLast(bucket, i) && OpensLast(bucket, j)
    ensures i == j
  {
    var a, b := bucket[i], bucket[j];
    assert a.openTime < b.openTime || (a.openTime == b.openTime && i <= j);
    assert b.openTime < a.openTime || (a.openTime == b.openTime && j <= i);
  }

  /** The bars at a cutoff, exactly: one for each bucket whose last candle closes at its end, and what it says. */
  lemma BarsAreExact(candles: seq<Candle>, minutes: int, cutoff: Option<int>, start: int)
    requires minutes > 0
    ensures var bars, bucket := Bars(candles, minutes, cutoff), BucketOf(candles, minutes, cutoff, start);
            && ((exists bar :: bar in bars && bar.openTime == start) <==> IsClosed(bucket, minutes, start))
            && forall bar :: bar in bars && bar.openTime == start ==> Summarizes(bar, bucket, minutes, start)
  {
    hide Bars, Eligible, Rows, Sort, BucketOf, Summarizes, BarOf;
    var bars, bucket := Bars(candles, minutes, cutoff), BucketOf(candles, minutes, cutoff, start);
    var eligible := Eligible(candles, cutoff);
    BarsAreTheCompleteBuckets(candles, minutes, cutoff);
    RowsAreTheBucket(candles, minutes, cutoff, start);
    BarStart(eligible, minutes, start);
    EmptyBucket(minutes, start);
    if bucket != [] {
      BarOfBucket(bucket, minutes, start);
      var last := SortedLast(bucket);
      assert IsClosed(bucket, minutes, start) <==> bucket[last].closeTime == start + 60 * minutes by {
        if i: nat :| OpensLast(bucket, i) && bucket[i].closeTime == start + 60 * minutes {
          LastIsUnique(bucket, last, i);
        }
      }
    }
    assert BarAt(eligible, minutes, start).Some? <==> IsClosed(bucket, minutes, start);
    if BarAt(eligible, minutes, start).Some? {
      assert BarAt(eligible, minutes, start).value in bars;
    }
  }

  lemma EmptyBucket(minutes: int, start: int)
    ensures Sort(BY_OPEN, []) == [] && !IsClosed([], minutes, start)
  {
  }
}
