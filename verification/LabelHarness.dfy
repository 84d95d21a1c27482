/** The label of a normalized close path: sliding-window medians, side records, phases. Values are exact reals. */
module LabelHarness {
  import opened Prelude
  import opened RealArithmetic
  import opened Sorting

  const TAU := 0.000000000001

  datatype Config = Config(a: real, beta: real, rho: real, eta: real)

  /** The domain that `from_explicit` and `from_rho_probe` accept. */
  predicate ValidConfig(c: Config) {
    c.a > 0.0 && 2.0 * TAU < c.beta < 1.0 && 0.0 < c.rho < 0.5 && 2.0 * TAU < c.eta <= 1.0
  }

  datatype Counts = Counts(p: int, w: int, lmin: int)

  datatype ConfigError = Inadmissible

  function Ceiling(x: real): int {
    -(-x).Floor
  }

  function Max(a: int, b: int): int {
    if a >= b then a else b
  }

  function ShareOf(share: real, n: int): real {
    share * n as real
  }

  function CountsFor(c: Config, n: int, canonical: bool): Result<Counts, ConfigError> {
    var p := Max(2, Ceiling(ShareOf(c.rho, n)));
    var w := 2 * p - 1;
    var lmin := Max(p, Ceiling(ShareOf(c.beta, n)));
    if w > n || (canonical && 2 * lmin >= n) then Failure(Inadmissible) else Success(Counts(p, w, lmin))
  }

  predicate Canonical(horizon: int) {
    horizon == 60 || horizon == 120
  }

  predicate Ge(x: real, limit: real) {
    x >= limit - TAU
  }

  function Scaled(q: real, v: seq<real>): (r: seq<real>)
    ensures |r| == |v| && forall i :: 0 <= i < |v| ==> r[i] == q * v[i]
  {
    seq(|v|, i requires 0 <= i < |v| => q * v[i])
  }

  function Negated(v: seq<real>): (r: seq<real>)
    ensures |r| == |v| && forall i :: 0 <= i < |v| ==> r[i] == -v[i]
  {
    seq(|v|, i requires 0 <= i < |v| => -v[i])
  }

  function Normalized(z: seq<real>, a: real): (r: seq<real>)
    requires a != 0.0
    ensures |r| == |z| && forall i :: 0 <= i < |z| ==> r[i] == z[i] / a
  {
    seq(|z|, i requires 0 <= i < |z| => z[i] / a)
  }

  // ---------- medians ----------

  const BY_VALUE: (real, real) -> bool := (a: real, b: real) => a < b

  /** `statistics.median` of an odd number of values. */
  function Median(v: seq<real>): real
    requires |v| % 2 == 1
  {
    SortKeepsMembers(BY_VALUE, v);
    Sort(BY_VALUE, v)[|v| / 2]
  }

  function Count(keep: real -> bool, v: seq<real>): nat {
    |Filter(keep, v)|
  }

  const MATERIAL: real -> bool := (x: real) => Ge(x, 1.0)

  predicate Confirmed(v: seq<real>, w: int, end: int)
    requires 1 <= w <= end <= |v| && w % 2 == 1
  {
    Ge(Median(v[end - w..end]), 1.0)
  }

  function Confirmations(v: seq<real>, w: int, end: int): seq<int>
    requires 1 <= w && w - 1 <= end <= |v| && w % 2 == 1
    decreases end
  {
    if end < w then [] else Confirmations(v, w, end - 1) + (if Confirmed(v, w, end) then [end] else [])
  }

  /** The largest median, and at least zero. */
  function PeakMedian(v: seq<real>, w: int, end: int): real
    requires 1 <= w && w - 1 <= end <= |v| && w % 2 == 1
    decreases end
  {
    if end < w then 0.0 else Larger(PeakMedian(v, w, end - 1), Median(v[end - w..end]))
  }

  // ---------- one side ----------

  /** Minutes are counted from one. */
  predicate MaterialAt(v: seq<real>, minute: int)
    requires 1 <= minute <= |v|
  {
    Ge(v[minute - 1], 1.0)
  }

  predicate NonPositiveAt(v: seq<real>, minute: int)
    requires 1 <= minute <= |v|
  {
    v[minute - 1] <= 0.0
  }

  /** The first minute in first..last whose value is material. */
  function FirstMaterial(v: seq<real>, first: int, last: int): Option<int>
    requires 1 <= first && last <= |v|
    decreases last - first
  {
    if first > last then None else if MaterialAt(v, first) then Some(first) else FirstMaterial(v, first + 1, last)
  }

  function SumOf(v: seq<real>): real {
    if v == [] then 0.0 else SumOf(v[..|v| - 1]) + v[|v| - 1]
  }

  function PositivePart(v: seq<real>): seq<real> {
    seq(|v|, i requires 0 <= i < |v| => Larger(v[i], 0.0))
  }

  function Peak(v: seq<real>): real {
    if v == [] then 0.0 else Larger(Peak(v[..|v| - 1]), v[|v| - 1])
  }

  /** A non-positive minute strictly between two confirmations. */
  predicate Reestablished(v: seq<real>, confirmations: seq<int>) {
    exists k | 1 <= k <= |v| :: NonPositiveAt(v, k)
      && (exists e | e in confirmations :: e < k) && (exists e | e in confirmations :: k < e)
  }

  predicate ReturnsAfter(v: seq<real>, minute: int)
    requires 0 <= minute <= |v|
  {
    exists k | minute < k <= |v| :: NonPositiveAt(v, k)
  }

  datatype Stats = Stats(
    j: real, m: real, b: real, s: real, e: real, r: real, requiredRetention: real, retainedFraction: Option<real>,
    giveback: real, rawOccupancy: real, materialOccupancy: real, areaPositive: real, areaNegative: real,
    firstMaterial: Option<int>, firstConfirmation: Option<int>, firstSupporting: Option<int>,
    minutesFromSupport: Option<int>, minutesAfterConfirmation: Option<int>, materialAfterSupport: Option<int>,
    confirmations: seq<int>, fullEndpointGiveback: bool, internalReturn: bool, reestablished: bool,
    closeFavorable: real, closeAdverse: real)

  /** The share of the peak that must be left at the end, and never more than one threshold. */
  function Required(eta: real, b: real): real {
    Smaller(eta * b, 1.0)
  }

  /** `_side` for the path multiplied by the side's sign; None for the support stands for a lookup that runs out. */
  function SideStats(v: seq<real>, z: seq<real>, w: int, eta: real, j: real, m: real): Stats
    requires 1 <= w <= |v| && w % 2 == 1
  {
    var n := |v|;
    var confirmations := Confirmations(v, w, n);
    var b := PeakMedian(v, w, n);
    var s := Median(v[n - w..n]);
    var e := v[n - 1];
    var remainder := Smaller(s, e);
    var confirm := if confirmations != [] then Some(confirmations[0]) else None;
    ConfirmationRange(v, w, n);
    var support := if confirm.Some? then FirstMaterial(v, confirm.value - w + 1, confirm.value) else None;
    SupportRange(v, w, confirm);
    Stats(
      j, m, b, s, e, remainder, Required(eta, b), if b > 0.0 then Some(remainder / b) else None,
      Larger(0.0, b - remainder), Count((x: real) => x > 0.0, v) as real / n as real,
      Count(MATERIAL, v) as real / n as real,
      SumOf(PositivePart(z)), SumOf(PositivePart(Negated(z))),
      FirstMaterial(v, 1, n), confirm, support,
      if support.Some? then Some(n - support.value + 1) else None,
      if confirm.Some? then Some(n - confirm.value) else None,
      if support.Some? then Some(Count(MATERIAL, v[support.value - 1..])) else None,
      confirmations, Ge(b, 1.0) && e <= 0.0,
      confirm.Some? && ReturnsAfter(v, confirm.value), Reestablished(v, confirmations),
      Peak(z), Peak(Negated(z)))
  }

  lemma {:induction false} ConfirmationRange(v: seq<real>, w: int, end: int)
    requires 1 <= w && w - 1 <= end <= |v| && w % 2 == 1
    ensures forall e :: e in Confirmations(v, w, end) <==> w <= e <= end && Confirmed(v, w, e)
    ensures Confirmations(v, w, end) != [] ==> Confirmations(v, w, end)[0] in Confirmations(v, w, end)
    decreases end
  {
    hide Confirmed;
    if end >= w {
      ConfirmationRange(v, w, end - 1);
    }
  }

  lemma {:induction false} FirstMaterialFound(v: seq<real>, first: int, last: int)
    requires 1 <= first && last <= |v|
    ensures var found := FirstMaterial(v, first, last);
            && (found.Some? ==> first <= found.value <= last && MaterialAt(v, found.value))
            && (forall k :: first <= k <= last && (found.Some? ==> k < found.value) ==> !MaterialAt(v, k))
    decreases last - first
  {
    hide MaterialAt;
    if first <= last && !MaterialAt(v, first) {
      FirstMaterialFound(v, first + 1, last);
    }
  }

  lemma SupportRange(v: seq<real>, w: int, confirm: Option<int>)
    requires confirm.Some? ==> 1 <= w <= confirm.value <= |v|
    ensures confirm.Some? ==> var i := FirstMaterial(v, confirm.value - w + 1, confirm.value);
                              i.Some? ==> 1 <= i.value <= |v|
  {
    if confirm.Some? {
      FirstMaterialFound(v, confirm.value - w + 1, confirm.value);
    }
  }

  // ---------- the verdict on each side ----------

  datatype SideName = Long | Short

  function Sign(name: SideName): real {
    if name == Long then 1.0 else -1.0
  }

  function Opposite(name: SideName): SideName {
    if name == Long then Short else Long
  }

  datatype Verdict = Verdict(predicates: seq<bool>, margins: seq<real>, opposingPhase: bool, passes: bool,
      retentionFailure: bool, hlFavorable: Option<real>, hlAdverse: Option<real>)

  datatype Side = Side(stats: Stats, verdict: Verdict)

  datatype Extremes = Extremes(high: seq<real>, low: seq<real>)

  predicate All(s: seq<bool>) {
    forall i :: 0 <= i < |s| ==> s[i]
  }

  function VerdictOf(name: SideName, side: Stats, opposite: Stats, beta: real, extremes: Option<Extremes>): Verdict {
    var predicates := [Ge(side.j, beta), side.m > 0.0, Ge(side.b, 1.0), !Ge(opposite.b, 1.0), side.r > 0.0,
                       Ge(side.r, side.requiredRetention)];
    var margins := [side.j - beta, side.m, side.b - 1.0, 1.0 - opposite.b, side.r, side.r - side.requiredRetention];
    var up := if extremes.Some? then Some(Peak(extremes.value.high)) else None;
    var down := if extremes.Some? then Some(Peak(Negated(extremes.value.low))) else None;
    Verdict(predicates, margins, Ge(opposite.b, 1.0), All(predicates),
            Ge(side.b, 1.0) && (side.r <= 0.0 || !predicates[5]),
            if name == Long then up else down, if name == Long then down else up)
  }

  // ---------- phases ----------

  datatype Phase = Phase(side: SideName, firstConfirmation: int)

  function StateAt(y: seq<real>, w: int, end: int): Option<SideName>
    requires 1 <= w <= end <= |y| && w % 2 == 1
  {
    if Ge(Median(y[end - w..end]), 1.0) then Some(Long)
    else if Ge(Median(Negated(y[end - w..end])), 1.0) then Some(Short)
    else None
  }

  function WithState(sequence: seq<Phase>, state: Option<SideName>, end: int): seq<Phase> {
    if state.Some? && (sequence == [] || sequence[|sequence| - 1].side != state.value)
    then sequence + [Phase(state.value, end)] else sequence
  }

  function Phases(y: seq<real>, w: int, end: int): seq<Phase>
    requires 1 <= w && w - 1 <= end <= |y| && w % 2 == 1
    decreases end
  {
    if end < w then [] else WithState(Phases(y, w, end - 1), StateAt(y, w, end), end)
  }

  // ---------- the whole evaluation ----------

  datatype Label = LongFavored | ShortFavored | NoDirection

  datatype Unavailability = IncompleteFuture | InvalidFutureOhlc

  datatype Outcome =
    | Unavailable(reason: Unavailability)
    | Raised(error: ConfigError)
    | ImplementationError
    | Candidate(counts: Counts, candidateLabel: Label, long: Side, short: Side, phases: seq<Phase>,
                supportedSideChange: bool)

  predicate ValidOhlc(z: seq<real>, x: Extremes) {
    |x.high| == |z| && |x.low| == |z|
    && forall i :: 0 <= i < |z| ==> x.low[i] <= z[i] <= x.high[i]
  }

  function Clip(x: real): real {
    Smaller(1.0, Larger(-1.0, x))
  }

  function ClippedSum(v: seq<real>): real {
    if v == [] then 0.0 else ClippedSum(v[..|v| - 1]) + Clip(v[|v| - 1])
  }

  function StatsFor(name: SideName, y: seq<real>, z: seq<real>, w: int, eta: real): Stats
    requires 1 <= w <= |y| == |z| && w % 2 == 1
  {
    var q, n := Sign(name), |y| as real;
    SideStats(Scaled(q, y), Scaled(q, z), w, eta, q * (ClippedSum(y) / n), q * (SumOf(z) / n))
  }

  function SideFor(name: SideName, y: seq<real>, z: seq<real>, w: int, beta: real, eta: real,
      extremes: Option<Extremes>): Side
    requires 1 <= w <= |y| == |z| && w % 2 == 1
  {
    var side := StatsFor(name, y, z, w, eta);
    Side(side, VerdictOf(name, side, StatsFor(Opposite(name), y, z, w, eta), beta, extremes))
  }

  function LabelOf(longPasses: bool, shortPasses: bool): Label {
    if longPasses then LongFavored else if shortPasses then ShortFavored else NoDirection
  }

  lemma CountsRange(c: Config, n: int, canonical: bool)
    ensures var r := CountsFor(c, n, canonical);
            r.Success? ==> r.value.p >= 2 && r.value.w == 2 * r.value.p - 1 && 3 <= r.value.w <= n && r.value.w % 2 == 1
  {
  }

  function Evaluate(z: seq<real>, c: Config, horizon: int, high: Option<seq<real>>, low: Option<seq<real>>): Outcome
    requires ValidConfig(c)
  {
    if |z| != horizon || high.None? != low.None? then Unavailable(IncompleteFuture)
    else if high.Some? && !ValidOhlc(z, Extremes(high.value, low.value)) then Unavailable(InvalidFutureOhlc)
    else match CountsFor(c, horizon, Canonical(horizon))
      case Failure(e) => Raised(e)
      case Success(k) =>
        CountsRange(c, horizon, Canonical(horizon));
        var extremes := if high.Some? then Some(Extremes(high.value, low.value)) else None;
        EvaluateCounted(z, c, k, extremes)
  }

  function EvaluateCounted(z: seq<real>, c: Config, k: Counts, extremes: Option<Extremes>): Outcome
    requires c.a > 0.0 && 1 <= k.w <= |z| && k.w % 2 == 1
  {
    var y := Normalized(z, c.a);
    var long := SideFor(Long, y, z, k.w, c.beta, c.eta, extremes);
    var short := SideFor(Short, y, z, k.w, c.beta, c.eta, extremes);
    if long.verdict.passes && short.verdict.passes then ImplementationError
    else Candidate(k, LabelOf(long.verdict.passes, short.verdict.passes), long, short, Phases(y, k.w, |y|),
                   long.stats.confirmations != [] && short.stats.confirmations != [])
  }

  /** The phase list: a new entry whenever the confirmed side changes. */
  method PhaseSequence(y: seq<real>, w: int, horizon: int) returns (phases: seq<Phase>)
    requires 1 <= w <= horizon == |y| && w % 2 == 1
    ensures phases == Phases(y, w, horizon)
  {
    hide StateAt;
    phases := [];
    for end := w to horizon + 1
      invariant phases == Phases(y, w, end - 1)
    {
      var state := StateAt(y, w, end);
      if state.Some? && (phases == [] || phases[|phases| - 1].side != state.value) {
        phases := phases + [Phase(state.value, end)];
      }
    }
  }

  /** The clipped and the plain running totals. */
  method Totals(y: seq<real>, z: seq<real>) returns (jTotal: real, mTotal: real)
    requires |y| == |z|
    ensures jTotal == ClippedSum(y) && mTotal == SumOf(z)
  {
    hide Clip;
    jTotal, mTotal := 0.0, 0.0;
    for i := 0 to |z|
      invariant jTotal == ClippedSum(y[..i]) && mTotal == SumOf(z[..i])
    {
      TotalStep(y, i);
      TotalStep(z, i);
      jTotal := jTotal + Clip(y[i]);
      mTotal := mTotal + z[i];
    }
    assert y[..|y|] == y && z[..|z|] == z;
  }

  method EvaluateWindows(z: seq<real>, c: Config, k: Counts, extremes: Option<Extremes>) returns (r: Outcome)
    requires c.a > 0.0 && 1 <= k.w <= |z| && k.w % 2 == 1
    ensures r == EvaluateCounted(z, c, k, extremes)
  {
    hide SideStats, VerdictOf, Phases, LabelOf, Scaled, Normalized, ClippedSum, SumOf;
    var y := Normalized(z, c.a);
    var jTotal, mTotal := Totals(y, z);
    var jLong, mLong := jTotal / |z| as real, mTotal / |z| as real;
    var longStats := SideStats(Scaled(1.0, y), Scaled(1.0, z), k.w, c.eta, 1.0 * jLong, 1.0 * mLong);
    var shortStats := SideStats(Scaled(-1.0, y), Scaled(-1.0, z), k.w, c.eta, -1.0 * jLong, -1.0 * mLong);
    var phases := PhaseSequence(y, k.w, |z|);
    var long := Side(longStats, VerdictOf(Long, longStats, shortStats, c.beta, extremes));
    var short := Side(shortStats, VerdictOf(Short, shortStats, longStats, c.beta, extremes));
    if long.verdict.passes && short.verdict.passes {
      return ImplementationError;
    }
    r := Candidate(k, LabelOf(long.verdict.passes, short.verdict.passes), long, short, phases,
                   longStats.confirmations != [] && shortStats.confirmations != []);
  }

  /** `evaluate_path`: the two sides can never both pass, so its implementation error is never returned. */
  method EvaluatePath(z: seq<real>, c: Config, horizon: int, high: Option<seq<real>>, low: Option<seq<real>>)
    returns (r: Outcome)
    requires ValidConfig(c)
    ensures r == Evaluate(z, c, horizon, high, low)
    ensures !r.ImplementationError?
  {
    hide EvaluateCounted, CountsFor, ValidOhlc;
    NeverBothPass(z, c, horizon, high, low);
    if |z| != horizon {
      return Unavailable(IncompleteFuture);
    }
    if high.None? != low.None? {
      return Unavailable(IncompleteFuture);
    }
    var extremes: Option<Extremes> := None;
    if high.Some? {
      extremes := Some(Extremes(high.value, low.value));
      if !ValidOhlc(z, extremes.value) {
        return Unavailable(InvalidFutureOhlc);
      }
    }
    var counted := CountsFor(c, horizon, Canonical(horizon));
    if counted.Failure? {
      return Raised(counted.error);
    }
    CountsRange(c, horizon, Canonical(horizon));
    r := EvaluateWindows(z, c, counted.value, extremes);
  }

  lemma TotalStep(v: seq<real>, i: nat)
    requires i < |v|
    ensures ClippedSum(v[..i + 1]) == ClippedSum(v[..i]) + Clip(v[i])
    ensures SumOf(v[..i + 1]) == SumOf(v[..i]) + v[i]
  {
    hide Clip;
    assert v[..i + 1][..i] == v[..i];
  }

  // ---------- the dual-pass branch is unreachable ----------

  lemma PassesNeedsMean(name: SideName, side: Stats, opposite: Stats, beta: real, extremes: Option<Extremes>)
    ensures var v := VerdictOf(name, side, opposite, beta, extremes);
            v.passes <==> Ge(side.j, beta) && side.m > 0.0 && Ge(side.b, 1.0) && !Ge(opposite.b, 1.0) && side.r > 0.0
                          && Ge(side.r, side.requiredRetention)
  {
    hide Ge, Peak, All;
    AllSix(Ge(side.j, beta), side.m > 0.0, Ge(side.b, 1.0), !Ge(opposite.b, 1.0), side.r > 0.0,
           Ge(side.r, side.requiredRetention));
  }

  lemma AllSix(a: bool, b: bool, c: bool, d: bool, e: bool, f: bool)
    ensures All([a, b, c, d, e, f]) <==> a && b && c && d && e && f
  {
    var s := [a, b, c, d, e, f];
    assert s[0] == a && s[1] == b && s[2] == c && s[3] == d && s[4] == e && s[5] == f;
  }

  lemma StatsCarry(name: SideName, y: seq<real>, z: seq<real>, w: int, eta: real)
    requires 1 <= w <= |y| == |z| && w % 2 == 1
    ensures StatsFor(name, y, z, w, eta).m == Sign(name) * (SumOf(z) / |y| as real)
    ensures StatsFor(name, y, z, w, eta).j == Sign(name) * (ClippedSum(y) / |y| as real)
    ensures StatsFor(name, y, z, w, eta).b == PeakMedian(Scaled(Sign(name), y), w, |y|)
    ensures StatsFor(name, y, z, w, eta).confirmations == Confirmations(Scaled(Sign(name), y), w, |y|)
  {
    hide Median, Confirmed, SumOf, ClippedSum, Count, FirstMaterial, Peak, PositivePart, Reestablished, ReturnsAfter,
         PeakMedian, Confirmations;
  }

  lemma NeverBothPass(z: seq<real>, c: Config, horizon: int, high: Option<seq<real>>, low: Option<seq<real>>)
    requires ValidConfig(c)
    ensures !Evaluate(z, c, horizon, high, low).ImplementationError?
  {
    hide StatsFor, VerdictOf, SumOf, ClippedSum, PeakMedian, Ge, Phases, Confirmations, CountsFor, ValidOhlc,
         Normalized, LabelOf;
    var counted := CountsFor(c, horizon, Canonical(horizon));
    CountsRange(c, horizon, Canonical(horizon));
    if |z| == horizon && counted.Success? {
      var extremes := if high.Some? && low.Some? then Some(Extremes(high.value, low.value)) else None;
      var y, w := Normalized(z, c.a), counted.value.w;
      var long, short := StatsFor(Long, y, z, w, c.eta), StatsFor(Short, y, z, w, c.eta);
      StatsCarry(Long, y, z, w, c.eta);
      StatsCarry(Short, y, z, w, c.eta);
      PassesNeedsMean(Long, long, short, c.beta, extremes);
      PassesNeedsMean(Short, short, long, c.beta, extremes);
    }
  }
}
