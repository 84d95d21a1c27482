/** What a five-minute, quarter-hour or hour candle of the history says about the minutes it was built from. */
module HistoricalMeaning {
  import opened Prelude
  import opened Sorting
  import opened CausalBars
  import opened BarMeaning
  import opened HistoricalBuckets

  /** A candle that an aggregate at the cutoff may be built from. */
  predicate Usable(c: Candle, minutes: int, cutoff: Option<int>, start: int)
    requires minutes > 0
  {
    c.completed && (cutoff.Some? ==> c.closeTime <= cutoff.value) && StartsFor(start, minutes, c.openTime)
  }

  /** The minutes of the bucket, one after the other, and nothing else. */
  ghost predicate EveryMinute(rows: seq<Candle>, minutes: int, start: int) {
    && |rows| == minutes
    && forall k :: 0 <= k < |rows| ==> rows[k].openTime == start + 60 * k && rows[k].closeTime == start + 60 * k + 60
  }

  lemma CompleteIsEveryMinute(rows: seq<Candle>, minutes: int, start: int)
    requires minutes > 0
    ensures Complete(rows, minutes, start) <==> EveryMinute(rows, minutes, start)
  {
    if EveryMinute(rows, minutes, start) {
      forall i | 1 <= i < |rows|
        ensures rows[i].closeTime - rows[i - 1].closeTime == 60
      {
      }
    }
  }

  lemma CollectedIsUsable(history: seq<Candle>, minutes: int, cutoff: Option<int>, start: int, c: Candle)
    requires minutes > 0
    ensures c in Bucket(Visible(history, cutoff), minutes, start) <==> c in history && Usable(c, minutes, cutoff, start)
  {
    hide FloorTime, StartsFor, Sort;
    var closed := (x: Candle) => ClosedBy(x, cutoff);
    var opens := (x: Candle) => Opens(x, minutes, start);
    SortKeepsMembers(BY_CANDLE_CLOSE, history);
    FilterMembers(closed, Sort(BY_CANDLE_CLOSE, history));
    FilterMembers(opens, Visible(history, cutoff));
    SortKeepsMembers(BY_OPEN, Collected(Visible(history, cutoff), minutes, start));
    FloorTimeIsExact(c.openTime, minutes, start);
    SortIsPermutation(BY_CANDLE_CLOSE, history);
    MembersOfPermutation(Sort(BY_CANDLE_CLOSE, history), history);
    SortIsPermutation(BY_OPEN, Collected(Visible(history, cutoff), minutes, start));
    MembersOfPermutation(Bucket(Visible(history, cutoff), minutes, start),
                         Collected(Visible(history, cutoff), minutes, start));
  }

  /** Each aggregate is built from every minute of its bucket and from every usable candle that opens in it. */
  lemma AggregateInWords(history: seq<Candle>, minutes: int, cutoff: Option<int>, a: Aggregated)
    requires minutes > 0 && a in Aggregates(Visible(history, cutoff), minutes)
    ensures var rows, bar := a.constituents, a.bar;
            && EveryMinute(rows, minutes, bar.openTime)
            && (forall c :: c in rows <==> c in history && Usable(c, minutes, cutoff, bar.openTime))
            && bar.minutes == minutes && bar.closeTime == bar.openTime + 60 * minutes
            && bar.symbol == rows[0].symbol && bar.open == rows[0].open && bar.close == rows[minutes - 1].close
            && (exists c :: c in rows && c.high == bar.high) && (forall c :: c in rows ==> c.high <= bar.high)
            && (exists c :: c in rows && c.low == bar.low) && (forall c :: c in rows ==> c.low >= bar.low)
            && bar.volume == VolumeOf(rows) && bar.turnover == TurnoverOf(rows)
  {
    hide Visible, Collected, Aggregates, MaxHigh, MinLow, SumOf, Complete, EveryMinute, Usable, Bucket;
    var source, start := Visible(history, cutoff), a.bar.openTime;
    AggregatesAreTheCompleteBuckets(source, minutes);
    var rows := Bucket(source, minutes, start);
    CompleteIsEveryMinute(rows, minutes, start);
    assert EveryMinute(rows, minutes, start) ==> |rows| == minutes by { MinuteCount(rows, minutes, start); }
    ExtremesOfRows(rows);
    BarMeaning.Totals(rows);
    forall c
      ensures c in rows <==> c in history && Usable(c, minutes, cutoff, start)
    {
      CollectedIsUsable(history, minutes, cutoff, start, c);
    }
  }

  lemma MinuteCount(rows: seq<Candle>, minutes: int, start: int)
    ensures EveryMinute(rows, minutes, start) ==> |rows| == minutes
  {
  }
}
