/** What a label says about the close path itself: majorities in windows, the last window and the last close. */
module LabelMeaning {
  import opened Prelude
  import opened RealArithmetic
  import opened Sorting
  import opened LabelHarness
  import opened LabelGuarantees

  // ---------- the path as one side sees it ----------

  /** Minute i + 1 in units of the threshold, positive when the side gains. */
  function Gain(z: seq<real>, a: real, name: SideName, i: int): real
    requires a != 0.0 && 0 <= i < |z|
  {
    if name == Long then z[i] / a else -(z[i] / a)
  }

  /** How many of the minutes after `first` and up to `last` reach the level. */
  function Reached(z: seq<real>, a: real, name: SideName, first: int, last: int, level: real): nat
    requires a != 0.0 && 0 <= first && last <= |z|
    decreases last
  {
    if last <= first then 0
    else Reached(z, a, name, first, last - 1, level) + if Gain(z, a, name, last - 1) >= level then 1 else 0
  }

  /** At least p of the 2p - 1 minutes that end at `end` reach the level. */
  predicate Majority(z: seq<real>, a: real, name: SideName, p: int, end: int, level: real)
    requires a != 0.0 && 1 <= p && 2 * p - 1 <= end <= |z|
  {
    Reached(z, a, name, end - (2 * p - 1), end, level) >= p
  }

  /** The sum of the first n minutes, each cut off at one threshold either way. */
  function ClippedTotal(z: seq<real>, a: real, name: SideName, n: nat): real
    requires a != 0.0 && n <= |z|
  {
    if n == 0 then 0.0
    else
      var gain := Gain(z, a, name, n - 1);
      ClippedTotal(z, a, name, n - 1) + if gain >= 1.0 then 1.0 else if gain <= -1.0 then -1.0 else gain
  }

  function Total(z: seq<real>, name: SideName, n: nat): real
    requires n <= |z|
  {
    if n == 0 then 0.0 else Total(z, name, n - 1) + if name == Long then z[n - 1] else -z[n - 1]
  }

  /** The last window and the last close both keep the level. */
  predicate Keeps(z: seq<real>, a: real, name: SideName, p: int, level: real)
    requires a != 0.0 && 1 <= p && 2 * p - 1 <= |z|
  {
    Majority(z, a, name, p, |z|, level) && Gain(z, a, name, |z| - 1) >= level
  }

  ghost predicate SomeMajority(z: seq<real>, a: real, name: SideName, p: int, level: real)
    requires a != 0.0 && 1 <= p && 2 * p - 1 <= |z|
  {
    exists end :: 2 * p - 1 <= end <= |z| && Majority(z, a, name, p, end, level)
  }

  /** What must be kept of a level: the share eta, but no more than one threshold, less the tolerance. */
  function KeptOf(eta: real, level: real): real {
    (if eta * level <= 1.0 then eta * level else 1.0) - TAU
  }

  /** The share eta of every level of the path that some window reached, but no more than the threshold, is kept. */
  ghost predicate Retains(z: seq<real>, a: real, name: SideName, p: int, eta: real)
    requires a != 0.0 && 1 <= p && 2 * p - 1 <= |z|
  {
    forall i :: 0 <= i < |z| && SomeMajority(z, a, name, p, Gain(z, a, name, i)) ==>
      Keeps(z, a, name, p, KeptOf(eta, Gain(z, a, name, i)))
  }

  /** The path favors a side. */
  ghost predicate Favors(z: seq<real>, c: Config, p: int, name: SideName)
    requires c.a != 0.0 && 1 <= p && 2 * p - 1 <= |z|
  {
    && ClippedTotal(z, c.a, name, |z|) / |z| as real >= c.beta - TAU
    && Total(z, name, |z|) > 0.0
    && SomeMajority(z, c.a, name, p, 1.0 - TAU)
    && !SomeMajority(z, c.a, Opposite(name), p, 1.0 - TAU)
    && Retains(z, c.a, name, p, c.eta)
  }

  // ---------- windows ----------

  /** The oriented, normalized path that the side record is computed from. */
  function Path(z: seq<real>, a: real, name: SideName): (v: seq<real>)
    requires a != 0.0
    ensures |v| == |z| && forall i :: 0 <= i < |z| ==> v[i] == Gain(z, a, name, i)
  {
    Scaled(Sign(name), Normalized(z, a))
  }

  lemma {:induction false} ReachedIsCount(z: seq<real>, a: real, name: SideName, first: int, last: int, level: real)
    requires a != 0.0 && 0 <= first <= last <= |z|
    ensures Reached(z, a, name, first, last, level) == Count(AtLeast(level), Path(z, a, name)[first..last])
    decreases last
  {
    hide Path, Gain;
    var v := Path(z, a, name);
    if first < last {
      ReachedIsCount(z, a, name, first, last - 1, level);
      CountSplit(AtLeast(level), v[first..last], last - 1 - first);
      assert v[first..last][..last - 1 - first] == v[first..last - 1];
      assert v[first..last][last - 1 - first..] == [v[last - 1]];
      CountOne(AtLeast(level), v[last - 1]);
    } else {
      assert v[first..last] == [];
    }
  }

  lemma CountOne(keep: real -> bool, x: real)
    ensures Count(keep, [x]) == if keep(x) then 1 else 0
  {
    FilterCons(keep, x, []);
    assert [x] + [] == [x];
  }

  /** A window's median reaches a level exactly when its majority does. */
  lemma WindowMedian(z: seq<real>, a: real, name: SideName, p: int, end: int, level: real)
    requires a != 0.0 && 1 <= p && 2 * p - 1 <= end <= |z|
    ensures Median(Path(z, a, name)[end - (2 * p - 1)..end]) >= level <==> Majority(z, a, name, p, end, level)
  {
    hide Path, Median, Count, Reached;
    ReachedIsCount(z, a, name, end - (2 * p - 1), end, level);
    MedianIsMajority(Path(z, a, name)[end - (2 * p - 1)..end], p, level);
  }

  lemma MedianIsMember(v: seq<real>)
    requires |v| % 2 == 1
    ensures Median(v) in v
  {
    SortKeepsMembers(BY_VALUE, v);
    assert Sort(BY_VALUE, v)[|v| / 2] in Sort(BY_VALUE, v);
    SortIsPermutation(BY_VALUE, v);
    MembersOfPermutation(Sort(BY_VALUE, v), v);
  }

  /** The peak is zero or a window's median, and no window's median exceeds it. */
  lemma {:induction false} PeakOfWindows(v: seq<real>, w: int, end: int)
    requires 1 <= w && w - 1 <= end <= |v| && w % 2 == 1
    ensures PeakMedian(v, w, end) >= 0.0
    ensures forall e :: w <= e <= end ==> Median(Window(v, w, e)) <= PeakMedian(v, w, end)
    ensures PeakMedian(v, w, end) == 0.0
            || exists e :: w <= e <= end && Median(Window(v, w, e)) == PeakMedian(v, w, end)
    decreases end
  {
    hide Median;
    if end >= w {
      PeakOfWindows(v, w, end - 1);
      assert Window(v, w, end) == v[end - w..end];
      assert PeakMedian(v, w, end) == Larger(PeakMedian(v, w, end - 1), Median(Window(v, w, end)));
    }
  }

  /** The peak B, when positive, is the greatest level of the path that the majority of some window reaches. */
  lemma PeakIsGreatestMajority(z: seq<real>, a: real, name: SideName, p: int, level: real)
    requires a != 0.0 && 1 <= p && 2 * p - 1 <= |z|
    ensures var b := PeakMedian(Path(z, a, name), 2 * p - 1, |z|);
            && b >= 0.0
            && (SomeMajority(z, a, name, p, level) ==> b >= level)
            && (level > 0.0 && b >= level ==> SomeMajority(z, a, name, p, level))
            && (b > 0.0 ==> exists i :: 0 <= i < |z| && Gain(z, a, name, i) == b)
  {
    hide Path, Median, Majority, PeakMedian, Gain;
    var v, w := Path(z, a, name), 2 * p - 1;
    var b := PeakMedian(v, w, |z|);
    PeakOfWindows(v, w, |z|);
    if SomeMajority(z, a, name, p, level) {
      var end :| w <= end <= |z| && Majority(z, a, name, p, end, level);
      WindowMedian(z, a, name, p, end, level);
      assert Median(Window(v, w, end)) <= b;
    }
    if b > 0.0 {
      var end :| w <= end <= |z| && Median(Window(v, w, end)) == b;
      WindowMedian(z, a, name, p, end, level);
      MedianIsMember(v[end - w..end]);
      var k :| 0 <= k < w && v[end - w..end][k] == b;
      assert v[end - w + k] == b;
    }
  }

  // ---------- the record on the path ----------

  lemma {:induction false} ClippedTotalIs(z: seq<real>, a: real, name: SideName, n: nat)
    requires a != 0.0 && n <= |z|
    ensures ClippedTotal(z, a, name, n) == ClippedSum(Path(z, a, name)[..n])
  {
    hide Path, Gain;
    if n > 0 {
      ClippedTotalIs(z, a, name, n - 1);
      TotalStep(Path(z, a, name), n - 1);
    }
  }

  lemma {:induction false} TotalIs(z: seq<real>, name: SideName, n: nat)
    requires n <= |z|
    ensures Total(z, name, n) == Sign(name) * SumOf(z[..n])
  {
    if n > 0 {
      TotalIs(z, name, n - 1);
      assert z[..n][..n - 1] == z[..n - 1];
    }
  }

  lemma EndOfRecord(v: seq<real>, z: seq<real>, w: int, eta: real, j: real, m: real)
    requires 1 <= w <= |v| && w % 2 == 1
    ensures var side, b := SideStats(v, z, w, eta, j, m), PeakMedian(v, w, |v|);
            && side.j == j && side.m == m && side.b == b
            && side.s == Median(Window(v, w, |v|)) && side.e == v[|v| - 1] && side.r == Smaller(side.s, side.e)
            && side.requiredRetention == Required(eta, b)
  {
    hide Median, Confirmed, SumOf, Count, FirstMaterial, Peak, PositivePart, Reestablished, ReturnsAfter, PeakMedian,
         Confirmations, Ge, Negated, MaterialAt, Required;
    ConfirmationRange(v, w, |v|);
  }

  /** The numbers that decide a side: the means, the last close, and what the last window, the end and the peak
      reach. */
  ghost predicate Decides(side: Stats, z: seq<real>, a: real, name: SideName, p: int, eta: real, level: real)
    requires a != 0.0 && 1 <= p && 2 * p - 1 <= |z|
  {
    && side.j == ClippedTotal(z, a, name, |z|) / |z| as real
    && side.m == Total(z, name, |z|) / |z| as real
    && side.e == Gain(z, a, name, |z| - 1)
    && (side.s >= level <==> Majority(z, a, name, p, |z|, level))
    && (side.r >= level <==> Keeps(z, a, name, p, level))
    && (level > 0.0 ==> (side.b >= level <==> SomeMajority(z, a, name, p, level)))
    && side.b >= 0.0 && (side.b > 0.0 ==> exists i :: 0 <= i < |z| && Gain(z, a, name, i) == side.b)
    && side.requiredRetention == Required(eta, side.b)
  }

  /** The record of a side says of the path what decides it. */
  lemma RecordOnThePath(z: seq<real>, a: real, name: SideName, p: int, eta: real, level: real)
    requires a != 0.0 && 1 <= p && 2 * p - 1 <= |z|
    ensures Decides(StatsFor(name, Normalized(z, a), z, 2 * p - 1, eta), z, a, name, p, eta, level)
  {
    hide StatsFor, Normalized, Majority, Keeps, SomeMajority, ClippedTotal, Total, Gain, Path, Median, PeakMedian,
         Window, Smaller, Required;
    var y, v, w, n := Normalized(z, a), Path(z, a, name), 2 * p - 1, |z| as real;
    StatsOnThePath(z, a, name, w, eta);
    WindowMedian(z, a, name, p, |z|, level);
    WindowIs(v, w);
    PeakIsGreatestMajority(z, a, name, p, level);
    KeepsBoth(z, a, name, p, level);
    SmallerReaches(StatsFor(name, y, z, w, eta).s, StatsFor(name, y, z, w, eta).e, level);
  }

  lemma WindowIs(v: seq<real>, w: int)
    requires 0 <= w <= |v|
    ensures Window(v, w, |v|) == v[|v| - w..|v|]
  {
  }

  lemma KeepsBoth(z: seq<real>, a: real, name: SideName, p: int, level: real)
    requires a != 0.0 && 1 <= p && 2 * p - 1 <= |z|
    ensures Keeps(z, a, name, p, level)
            <==> Majority(z, a, name, p, |z|, level) && Gain(z, a, name, |z| - 1) >= level
  {
    hide Majority, Gain;
  }

  lemma SmallerReaches(s: real, e: real, level: real)
    ensures Smaller(s, e) >= level <==> s >= level && e >= level
  {
  }

  ghost predicate HasStats(side: Stats, z: seq<real>, a: real, name: SideName, w: int, eta: real)
    requires a != 0.0 && 1 <= w <= |z| && w % 2 == 1
  {
    var v := Path(z, a, name);
    && side.j == ClippedTotal(z, a, name, |z|) / |z| as real
    && side.m == Total(z, name, |z|) / |z| as real
    && side.e == Gain(z, a, name, |z| - 1)
    && side.s == Median(Window(v, w, |v|)) && side.r == Smaller(side.s, side.e)
    && side.b == PeakMedian(v, w, |z|) && side.requiredRetention == Required(eta, PeakMedian(v, w, |z|))
  }

  lemma StatsOnThePath(z: seq<real>, a: real, name: SideName, w: int, eta: real)
    requires a != 0.0 && 1 <= w <= |z| && w % 2 == 1
    ensures HasStats(StatsFor(name, Normalized(z, a), z, w, eta), z, a, name, w, eta)
  {
    hide Median, SideStats, SumOf, ClippedSum, PeakMedian, Total, ClippedTotal, Gain, Window, Smaller, Required,
         StatsFor;
    var y, v, n := Normalized(z, a), Path(z, a, name), |z| as real;
    var j, m := Sign(name) * (ClippedSum(y) / n), Sign(name) * (SumOf(z) / n);
    StatsForIs(name, y, z, w, eta, j, m);
    EndOfRecord(v, Scaled(Sign(name), z), w, eta, j, m);
    MeansOnThePath(z, a, name);
  }

  lemma MeansOnThePath(z: seq<real>, a: real, name: SideName)
    requires a != 0.0 && z != []
    ensures var n := |z| as real;
            && Sign(name) * (ClippedSum(Normalized(z, a)) / n) == ClippedTotal(z, a, name, |z|) / n
            && Sign(name) * (SumOf(z) / n) == Total(z, name, |z|) / n
  {
    hide SumOf, ClippedSum, Total, ClippedTotal, Normalized, Sign, Scaled;
    var n := |z| as real;
    ClippedTotalIs(z, a, name, |z|);
    TotalIs(z, name, |z|);
    assert Path(z, a, name)[..|z|] == Path(z, a, name) && z[..|z|] == z;
    ClippedOriented(name, Normalized(z, a));
    ScaledQuotient(Sign(name), ClippedSum(Normalized(z, a)), n);
    ScaledQuotient(Sign(name), SumOf(z), n);
  }

  // ---------- the label, exactly ----------

  lemma KeptGrows(eta: real, x: real, y: real)
    requires eta > 0.0 && x <= y
    ensures KeptOf(eta, x) <= KeptOf(eta, y) == Required(eta, y) - TAU
  {
    ScaleOrder(x, y, eta);
  }

  /** The retention condition on the record is the retention of every level that some window reached. */
  lemma RetainedExactly(z: seq<real>, a: real, name: SideName, p: int, eta: real)
    requires a != 0.0 && 1 <= p && 2 * p - 1 <= |z| && eta > 0.0
    requires StatsFor(name, Normalized(z, a), z, 2 * p - 1, eta).b > 0.0
    ensures var side := StatsFor(name, Normalized(z, a), z, 2 * p - 1, eta);
            Ge(side.r, side.requiredRetention) <==> Retains(z, a, name, p, eta)
  {
    hide StatsFor, Normalized, Keeps, SomeMajority, Gain, Required, KeptOf;
    var side := StatsFor(name, Normalized(z, a), z, 2 * p - 1, eta);
    var b := side.b;
    RecordOnThePath(z, a, name, p, eta, b);
    if Ge(side.r, side.requiredRetention) {
      forall i | 0 <= i < |z| && SomeMajority(z, a, name, p, Gain(z, a, name, i))
        ensures Keeps(z, a, name, p, KeptOf(eta, Gain(z, a, name, i)))
      {
        var level := Gain(z, a, name, i);
        if level > 0.0 {
          RecordOnThePath(z, a, name, p, eta, level);
        }
        KeptGrows(eta, level, b);
        RecordOnThePath(z, a, name, p, eta, KeptOf(eta, level));
      }
    }
    if Retains(z, a, name, p, eta) {
      var i :| 0 <= i < |z| && Gain(z, a, name, i) == b;
      KeptGrows(eta, b, b);
      RecordOnThePath(z, a, name, p, eta, KeptOf(eta, b));
    }
  }

  /** What retention leaves is positive, so the fifth condition never decides. */
  lemma RetainedIsPositive(c: Config, r: real, b: real)
    requires ValidConfig(c) && Ge(b, 1.0) && Ge(r, Required(c.eta, b))
    ensures r > 0.0
  {
    ScaleOrder(1.0 - TAU, b, c.eta);
    ScaleOrder(2.0 * TAU, c.eta, 1.0 - TAU);
  }

  /** A side passes exactly when the path favors it. */
  lemma PassesExactly(z: seq<real>, c: Config, p: int, name: SideName, extremes: Option<Extremes>)
    requires ValidConfig(c) && 1 <= p && 2 * p - 1 <= |z|
    ensures SideFor(name, Normalized(z, c.a), z, 2 * p - 1, c.beta, c.eta, extremes).verdict.passes
            <==> Favors(z, c, p, name)
  {
    hide StatsFor, VerdictOf, Normalized, SomeMajority, Retains, ClippedTotal, Total, Required, Gain, Keeps;
    var y, w := Normalized(z, c.a), 2 * p - 1;
    var side, other := StatsFor(name, y, z, w, c.eta), StatsFor(Opposite(name), y, z, w, c.eta);
    PassesNeedsMean(name, side, other, c.beta, extremes);
    RecordOnThePath(z, c.a, name, p, c.eta, 1.0 - TAU);
    RecordOnThePath(z, c.a, Opposite(name), p, c.eta, 1.0 - TAU);
    ProductSign(Total(z, name, |z|) / |z| as real, |z| as real, Total(z, name, |z|));
    if Ge(side.b, 1.0) {
      RetainedExactly(z, c.a, name, p, c.eta);
      if Ge(side.r, side.requiredRetention) {
        RetainedIsPositive(c, side.r, side.b);
      }
    }
  }

  lemma {:induction false} OppositeTotals(z: seq<real>, n: nat)
    requires n <= |z|
    ensures Total(z, Short, n) == -Total(z, Long, n)
  {
    if n > 0 {
      OppositeTotals(z, n - 1);
    }
  }

  /** The label and both verdicts, exactly, in terms of the path. */
  lemma LabelIsExact(z: seq<real>, c: Config, k: Counts, extremes: Option<Extremes>)
    requires ValidConfig(c) && 1 <= k.p && k.w == 2 * k.p - 1 <= |z|
    ensures var r := EvaluateCounted(z, c, k, extremes);
            && r.Candidate? && r.counts == k
            && (r.candidateLabel == LongFavored <==> Favors(z, c, k.p, Long))
            && (r.candidateLabel == ShortFavored <==> Favors(z, c, k.p, Short))
  {
    hide SideFor, Phases, Normalized, SomeMajority, Retains, ClippedTotal, Total;
    PassesExactly(z, c, k.p, Long, extremes);
    PassesExactly(z, c, k.p, Short, extremes);
    OppositeTotals(z, |z|);
  }

  /** At least the majority, at least the share beta of the horizon, and less than half of it. */
  predicate EnoughMinutes(beta: real, p: int, n: int, minutes: int) {
    minutes >= p && minutes as real >= beta * n as real && 2 * minutes < n
  }

  /** The least count of minutes that is at least the share of the horizon and at least another count. */
  predicate IsLeastCount(k: int, share: real, n: int, atLeast: int) {
    k >= atLeast && k as real >= share * n as real && (k > atLeast ==> (k - 1) as real < share * n as real)
  }

  /** The majority p is the least count of at least two minutes and the share rho of the horizon; a horizon is refused
      exactly when its window does not fit, or no count of minutes is enough below half of a canonical horizon. */
  lemma CountsAreExact(c: Config, n: int, canonical: bool) returns (p: int)
    ensures IsLeastCount(p, c.rho, n, 2)
    ensures var r := CountsFor(c, n, canonical);
            && (r.Success? <==> 2 * p - 1 <= n && (canonical ==> exists k :: EnoughMinutes(c.beta, p, n, k)))
            && (r.Success? ==> r.value.p == p && r.value.w == 2 * p - 1 && IsLeastCount(r.value.lmin, c.beta, n, p))
  {
    hide Ceiling, ShareOf, IsLeastCount, EnoughMinutes;
    p := Max(2, Ceiling(ShareOf(c.rho, n)));
    var lmin := Max(p, Ceiling(ShareOf(c.beta, n)));
    LeastCount(c.rho, n, 2);
    LeastCount(c.beta, n, p);
    if 2 * lmin < n {
      HalfIsEnough(c.beta, p, n, lmin);
    }
    if k :| EnoughMinutes(c.beta, p, n, k) {
      HalfIsNeeded(c.beta, p, n, k);
    }
  }

  lemma LeastCount(share: real, n: int, atLeast: int)
    ensures IsLeastCount(Max(atLeast, Ceiling(ShareOf(share, n))), share, n, atLeast)
  {
    hide Ceiling;
    LeastMinutes(share, n, 0);
  }

  lemma HalfIsEnough(beta: real, p: int, n: int, k: int)
    requires IsLeastCount(k, beta, n, p) && 2 * k < n
    ensures EnoughMinutes(beta, p, n, k)
  {
  }

  lemma HalfIsNeeded(beta: real, p: int, n: int, k: int)
    requires EnoughMinutes(beta, p, n, k)
    ensures 2 * Max(p, Ceiling(ShareOf(beta, n))) < n
  {
    hide Ceiling;
    LeastMinutes(beta, n, k);
  }

  lemma LeastMinutes(share: real, n: int, k: int)
    ensures ShareOf(share, n) == share * n as real
    ensures Ceiling(ShareOf(share, n)) as real >= ShareOf(share, n) > (Ceiling(ShareOf(share, n)) - 1) as real
    ensures k as real >= ShareOf(share, n) ==> k >= Ceiling(ShareOf(share, n))
  {
    CeilingIsLeast(ShareOf(share, n), k);
  }

  lemma CeilingIsLeast(x: real, k: int)
    ensures Ceiling(x) as real >= x > (Ceiling(x) - 1) as real
    ensures k as real >= x ==> k >= Ceiling(x)
  {
  }

  /** When an evaluation is a candidate, and which side it then favors. */
  lemma EvaluationIsExact(z: seq<real>, c: Config, horizon: int, high: Option<seq<real>>, low: Option<seq<real>>)
    requires ValidConfig(c)
    ensures var r, counts := Evaluate(z, c, horizon, high, low), CountsFor(c, horizon, Canonical(horizon));
            && (r.Candidate? <==>
                  |z| == horizon && counts.Success? && high.Some? == low.Some?
                  && (high.Some? ==> ValidOhlc(z, Extremes(high.value, low.value))))
            && (r.Candidate? ==>
                  && r.counts == counts.value && 2 <= r.counts.p && 2 * r.counts.p - 1 <= |z|
                  && (r.candidateLabel == LongFavored <==> Favors(z, c, r.counts.p, Long))
                  && (r.candidateLabel == ShortFavored <==> Favors(z, c, r.counts.p, Short)))
  {
    hide EvaluateCounted, CountsFor, ValidOhlc, Favors;
    var counts := CountsFor(c, horizon, Canonical(horizon));
    CountsRange(c, horizon, Canonical(horizon));
    if |z| == horizon && counts.Success? {
      LabelIsExact(z, c, counts.value, if high.Some? && low.Some? then Some(Extremes(high.value, low.value)) else None);
    }
  }

  // ---------- extremes ----------

  /** The peak of a list is the greatest value in it, and at least zero. */
  lemma {:induction false} PeakReached(v: seq<real>, level: real)
    ensures Peak(v) >= 0.0
    ensures level > 0.0 ==> (Peak(v) >= level <==> exists i :: 0 <= i < |v| && v[i] >= level)
  {
    if v != [] {
      var rest := v[..|v| - 1];
      PeakReached(rest, level);
      if i :| 0 <= i < |v| && v[i] >= level {
        assert i < |rest| ==> rest[i] >= level;
      }
      if i :| 0 <= i < |rest| && rest[i] >= level {
        assert v[i] >= level;
      }
    }
  }

  /** The greatest gain and loss at a close and, with highs and lows, inside a minute. */
  lemma ExtremesOnThePath(z: seq<real>, a: real, name: SideName, w: int, beta: real, eta: real,
      extremes: Option<Extremes>, level: real)
    requires a != 0.0 && 1 <= w <= |z| && w % 2 == 1 && level > 0.0
    ensures var side := SideFor(name, Normalized(z, a), z, w, beta, eta, extremes);
            var gains, losses := Scaled(Sign(name), z), Scaled(Sign(Opposite(name)), z);
            && (side.stats.closeFavorable >= level <==> exists i :: 0 <= i < |z| && gains[i] >= level)
            && (side.stats.closeAdverse >= level <==> exists i :: 0 <= i < |z| && losses[i] >= level)
            && (side.verdict.hlFavorable.Some? <==> extremes.Some?)
            && (side.verdict.hlAdverse.Some? <==> extremes.Some?)
            && (extremes.Some? ==>
                  && (side.verdict.hlFavorable.value >= level <==> Extends(extremes.value, name, level))
                  && (side.verdict.hlAdverse.value >= level <==> Extends(extremes.value, Opposite(name), level)))
  {
    hide SideStats, StatsFor, Peak, Ge, All;
    ClosesOf(name, Normalized(z, a), z, w, eta);
    PeakReached(Scaled(Sign(name), z), level);
    PeakReached(Scaled(Sign(Opposite(name)), z), level);
    if extremes.Some? {
      PeakReached(extremes.value.high, level);
      PeakReached(Negated(extremes.value.low), level);
      LowsAreNegated(extremes.value, level);
    }
  }

  /** Some minute's high, or for SHORT its low turned around, reaches the level. */
  ghost predicate Extends(extremes: Extremes, name: SideName, level: real) {
    if name == Long then exists i :: 0 <= i < |extremes.high| && extremes.high[i] >= level
    else exists i :: 0 <= i < |extremes.low| && -extremes.low[i] >= level
  }

  lemma LowsAreNegated(extremes: Extremes, level: real)
    ensures (exists i :: 0 <= i < |Negated(extremes.low)| && Negated(extremes.low)[i] >= level)
            <==> exists i :: 0 <= i < |extremes.low| && -extremes.low[i] >= level
  {
    if i :| 0 <= i < |extremes.low| && -extremes.low[i] >= level {
      assert Negated(extremes.low)[i] >= level;
    }
  }

  lemma ClosesOf(name: SideName, y: seq<real>, z: seq<real>, w: int, eta: real)
    requires 1 <= w <= |y| == |z| && w % 2 == 1
    ensures StatsFor(name, y, z, w, eta).closeFavorable == Peak(Scaled(Sign(name), z))
    ensures StatsFor(name, y, z, w, eta).closeAdverse == Peak(Scaled(Sign(Opposite(name)), z))
  {
    hide Median, Confirmed, SumOf, ClippedSum, Count, FirstMaterial, Peak, PositivePart, Reestablished, ReturnsAfter,
         PeakMedian, Confirmations;
    assert Negated(Scaled(Sign(name), z)) == Scaled(Sign(Opposite(name)), z);
  }

  // ---------- milestones ----------

  predicate IsMaterial(z: seq<real>, a: real, name: SideName, minute: int)
    requires a != 0.0 && 1 <= minute <= |z|
  {
    Gain(z, a, name, minute - 1) >= 1.0 - TAU
  }

  predicate Returns(z: seq<real>, a: real, name: SideName, minute: int)
    requires a != 0.0 && 1 <= minute <= |z|
  {
    Gain(z, a, name, minute - 1) <= 0.0
  }

  predicate Confirms(z: seq<real>, a: real, name: SideName, p: int, end: int)
    requires a != 0.0 && 1 <= p
  {
    2 * p - 1 <= end <= |z| && Majority(z, a, name, p, end, 1.0 - TAU)
  }

  /** The first material minute of first..last, or none if there is none. */
  ghost predicate IsFirstMaterial(found: Option<int>, z: seq<real>, a: real, name: SideName, first: int, last: int)
    requires a != 0.0 && 1 <= first && last <= |z|
  {
    && (found.Some? ==> first <= found.value <= last && IsMaterial(z, a, name, found.value))
    && forall k :: first <= k <= last && (found.Some? ==> k < found.value) ==> !IsMaterial(z, a, name, k)
  }

  lemma ConfirmedIsMajority(z: seq<real>, a: real, name: SideName, p: int, end: int)
    requires a != 0.0 && 1 <= p && 2 * p - 1 <= end <= |z|
    ensures Confirmed(Path(z, a, name), 2 * p - 1, end) <==> Confirms(z, a, name, p, end)
  {
    hide Path, Median, Majority;
    WindowMedian(z, a, name, p, end, 1.0 - TAU);
  }

  lemma ConfirmationsAreExact(z: seq<real>, a: real, name: SideName, p: int)
    requires a != 0.0 && 1 <= p && 2 * p - 1 <= |z|
    ensures var all := Confirmations(Path(z, a, name), 2 * p - 1, |z|);
            && (forall e :: e in all <==> Confirms(z, a, name, p, e))
            && (forall i, j :: 0 <= i < j < |all| ==> all[i] < all[j])
            && (all != [] ==> Confirms(z, a, name, p, all[0]) && forall e :: Confirms(z, a, name, p, e) ==> all[0] <= e)
  {
    hide Path, Confirmed, Confirmations, Majority;
    var v, w := Path(z, a, name), 2 * p - 1;
    ConfirmationRange(v, w, |z|);
    ConfirmationsIncrease(v, w, |z|);
    forall e | w <= e <= |z|
      ensures Confirmed(v, w, e) <==> Confirms(z, a, name, p, e)
    {
      ConfirmedIsMajority(z, a, name, p, e);
    }
    var all := Confirmations(v, w, |z|);
    forall e | Confirms(z, a, name, p, e) && all != []
      ensures all[0] <= e
    {
      var i :| 0 <= i < |all| && all[i] == e;
      assert i == 0 || all[0] < all[i];
    }
  }

  lemma FirstMaterialIsExact(z: seq<real>, a: real, name: SideName, first: int, last: int)
    requires a != 0.0 && 1 <= first && last <= |z|
    ensures IsFirstMaterial(FirstMaterial(Path(z, a, name), first, last), z, a, name, first, last)
  {
    hide Path, FirstMaterial;
    FirstMaterialFound(Path(z, a, name), first, last);
    assert forall k :: 1 <= k <= |z| ==> (MaterialAt(Path(z, a, name), k) <==> IsMaterial(z, a, name, k));
  }

  lemma ReturnsAreExact(z: seq<real>, a: real, name: SideName, p: int, minute: int)
    requires a != 0.0 && 1 <= p && 2 * p - 1 <= |z| && 0 <= minute <= |z|
    ensures ReturnsAfter(Path(z, a, name), minute) <==> exists k :: minute < k <= |z| && Returns(z, a, name, k)
    ensures Reestablished(Path(z, a, name), Confirmations(Path(z, a, name), 2 * p - 1, |z|))
            <==> exists d, k, e :: d < k < e && Confirms(z, a, name, p, d) && 1 <= k <= |z| && Returns(z, a, name, k)
                                   && Confirms(z, a, name, p, e)
  {
    hide Path, Confirms, Confirmations, Gain;
    ConfirmationsAreExact(z, a, name, p);
    var v := Path(z, a, name);
    assert forall k :: 1 <= k <= |z| ==> (NonPositiveAt(v, k) <==> Returns(z, a, name, k));
  }

  /** The minutes a record reports: all confirmations and the first of them, the first material minutes of the path and
      of its window, and whether the path returned after it or between two confirmations. */
  ghost predicate Milestones(side: Stats, z: seq<real>, a: real, name: SideName, p: int)
    requires a != 0.0 && 1 <= p && 2 * p - 1 <= |z|
  {
    var confirm := side.firstConfirmation;
    && (forall e :: e in side.confirmations <==> Confirms(z, a, name, p, e))
    && (confirm.None? <==> forall e :: !Confirms(z, a, name, p, e))
    && (confirm.Some? ==>
          Confirms(z, a, name, p, confirm.value) && forall e :: Confirms(z, a, name, p, e) ==> confirm.value <= e)
    && IsFirstMaterial(side.firstMaterial, z, a, name, 1, |z|)
    && (confirm.Some? ==>
          && IsFirstMaterial(side.firstSupporting, z, a, name, confirm.value - 2 * p + 2, confirm.value)
          && (side.internalReturn <==> exists k :: confirm.value < k <= |z| && Returns(z, a, name, k))
          && side.minutesAfterConfirmation == Some(|z| - confirm.value))
    && (side.reestablished <==>
          exists d, k, e :: d < k < e && Confirms(z, a, name, p, d) && 1 <= k <= |z| && Returns(z, a, name, k)
                            && Confirms(z, a, name, p, e))
  }

  /** The record of a side reports the milestones of the path. */
  lemma MilestonesOnThePath(z: seq<real>, a: real, name: SideName, p: int, eta: real)
    requires a != 0.0 && 1 <= p && 2 * p - 1 <= |z|
    ensures Milestones(StatsFor(name, Normalized(z, a), z, 2 * p - 1, eta), z, a, name, p)
  {
    hide SideStats, Path, Confirms, Confirmations, FirstMaterial, StatsFor, ReturnsAfter, Reestablished, Confirmed,
         Returns, IsFirstMaterial;
    var y, v, w, n := Normalized(z, a), Path(z, a, name), 2 * p - 1, |z| as real;
    var j, m := Sign(name) * (ClippedSum(y) / n), Sign(name) * (SumOf(z) / n);
    StatsForIs(name, y, z, w, eta, j, m);
    PathIs(z, a, name);
    RemainderOf(v, Scaled(Sign(name), z), w, eta, j, m);
    FirstSupport(v, Scaled(Sign(name), z), w, eta, j, m);
    ConfirmationsAreExact(z, a, name, p);
    FirstMaterialIsExact(z, a, name, 1, |z|);
    var all := Confirmations(v, w, |z|);
    ReturnsAreExact(z, a, name, p, if all != [] then all[0] else 0);
    if all != [] {
      FirstMaterialIsExact(z, a, name, all[0] - w + 1, all[0]);
    } else {
      NoneConfirms(z, a, name, p, all);
    }
  }

  lemma NoneConfirms(z: seq<real>, a: real, name: SideName, p: int, all: seq<int>)
    requires a != 0.0 && 1 <= p && all == [] && forall e :: e in all <==> Confirms(z, a, name, p, e)
    ensures forall e :: !Confirms(z, a, name, p, e)
  {
    hide Confirms;
    forall e
      ensures !Confirms(z, a, name, p, e)
    {
      assert e !in all;
    }
  }

  lemma PathIs(z: seq<real>, a: real, name: SideName)
    requires a != 0.0
    ensures Path(z, a, name) == Scaled(Sign(name), Normalized(z, a)) && |Path(z, a, name)| == |z|
  {
  }
}
