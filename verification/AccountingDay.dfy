/** The accounting day of a portfolio, kept as canonical decimal texts:
    metrics, final results, the loss latch and the gates. */
module AccountingDay {
  import opened Prelude
  import opened RealArithmetic
  import opened Rationals
  import opened GridRounding
  import opened DecimalText
  import opened FractionText
  import opened Sorting

  datatype Rollover = Proven | Reconciling

  /** A text given as a time: an RFC 3339 time with a zone, and the instant it names, or any other text. */
  datatype Stamp = Timed(text: string, instant: int) | Malformed(text: string)

  datatype Day = Day(
    portfolioId: string, dayId: string, startAt: Stamp, endAt: Stamp, rollover: Rollover,
    base: Option<string>, evidence: Option<string>, equity: Option<string>, realized: string,
    unrealized: Option<string>, total: Option<string>, flow: string,
    latched: bool, latchedAt: Option<Stamp>, latchReason: Option<string>)

  datatype DayError =
    | TextRequired | BaseRequired | EvidenceRequired | NotDecimal | MustBeNonnegative | NotPercentage | CannotFormat
    | BadTime | UnknownSymbol

  predicate IsText(s: string) {
    s != "" && '\0' !in s
  }

  function Decimal(text: string): Result<Fraction, DayError> {
    match ParseDecimalText(text)
    case Success(v) => Success(v)
    case Failure(_) => Failure(NotDecimal)
  }

  function Format(v: Fraction): Result<string, DayError> {
    match PrintFraction(v)
    case Success(t) => Success(t)
    case Failure(_) => Failure(CannotFormat)
  }

  function DecimalTextOf(text: string, allowNegative: bool): Result<string, DayError> {
    var v :- Decimal(text);
    if !allowNegative && v.num < 0 then Failure(MustBeNonnegative) else Format(v)
  }

  function OptionalText(text: Option<string>, allowNegative: bool): Result<Option<string>, DayError> {
    match text
    case None => Success(None)
    case Some(t) => var n :- DecimalTextOf(t, allowNegative); Success(Some(n))
  }

  /** `__post_init__`: the checks and the normalization that every new or replaced day goes through. */
  function Constructed(d: Day): Result<Day, DayError> {
    if !IsText(d.portfolioId) || !IsText(d.dayId) then Failure(TextRequired)
    else if d.startAt.Malformed? || d.endAt.Malformed? then Failure(BadTime)
    else if d.rollover == Proven && d.base.None? then Failure(BaseRequired)
    else if d.rollover == Proven && d.evidence.None? then Failure(EvidenceRequired)
    else
      var base :- OptionalText(d.base, false);
      var equity :- OptionalText(d.equity, true);
      var unrealized :- OptionalText(d.unrealized, true);
      var total :- OptionalText(d.total, true);
      var realized :- DecimalTextOf(d.realized, true);
      var flow :- DecimalTextOf(d.flow, true);
      if d.latchedAt.Some? && d.latchedAt.value.Malformed? then Failure(BadTime)
      else if d.latchReason.Some? && !IsText(d.latchReason.value) then Failure(TextRequired)
      else Success(d.(base := base, equity := equity, unrealized := unrealized, total := total, realized := realized,
                      flow := flow))
  }

  // ---------- canonical texts ----------

  /** The text is what its own value prints as. */
  ghost predicate Canonical(text: string) {
    Decimal(text).Success? && Format(Decimal(text).value) == Success(text)
  }

  ghost function Amount(text: string): real
    requires Decimal(text).Success?
  {
    Val(Decimal(text).value)
  }

  lemma ParsedTerminate(text: string)
    ensures Decimal(text).Success? ==> Terminating(Decimal(text).value)
    ensures Decimal(text).Failure? ==> Decimal(text).error == NotDecimal
  {
    hide ParseDecimalText, Terminating;
    if Decimal(text).Success? {
      ParsedTerminates(text);
    }
  }

  /** Formatting a terminating value never raises and reads back as the same value. */
  lemma FormatRoundTrip(v: Fraction)
    requires Terminating(v)
    ensures Format(v).Success? && Canonical(Format(v).value) && Decimal(Format(v).value) == Success(v)
  {
    hide ParseDecimalText, PrintFraction, NormalForm, Terminating;
    PrintsExactlyTerminating(v);
    PrintFractionRoundTrip(v);
  }

  lemma NormalizedText(text: string, allowNegative: bool)
    ensures var r := DecimalTextOf(text, allowNegative);
            && (r.Success? <==> Decimal(text).Success? && (allowNegative || Decimal(text).value.num >= 0))
            && (r.Success? ==> Canonical(r.value) && Decimal(r.value) == Decimal(text))
            && (r.Failure? ==> r.error != CannotFormat)
            && (Canonical(text) && r.Success? ==> r.value == text)
  {
    hide ParseDecimalText, PrintFraction, Terminating;
    ParsedTerminate(text);
    if Decimal(text).Success? {
      FormatRoundTrip(Decimal(text).value);
    }
  }

  ghost predicate CanonicalOption(text: Option<string>) {
    text.Some? ==> Canonical(text.value)
  }

  /** What every constructed day satisfies. */
  ghost predicate Healthy(d: Day) {
    && IsText(d.portfolioId) && IsText(d.dayId) && d.startAt.Timed? && d.endAt.Timed?
    && (d.rollover == Proven ==> d.base.Some? && d.evidence.Some?)
    && CanonicalOption(d.base) && (d.base.Some? ==> Decimal(d.base.value).value.num >= 0)
    && CanonicalOption(d.equity) && CanonicalOption(d.unrealized) && CanonicalOption(d.total)
    && Canonical(d.realized) && Canonical(d.flow)
    && (d.latchedAt.Some? ==> d.latchedAt.value.Timed?) && (d.latchReason.Some? ==> IsText(d.latchReason.value))
  }

  lemma NormalizedOption(text: Option<string>, allowNegative: bool)
    ensures var r := OptionalText(text, allowNegative);
            && (r.Success? ==>
                  CanonicalOption(r.value) && r.value.Some? == text.Some?
                  && (r.value.Some? ==> Decimal(r.value.value) == Decimal(text.value)
                                        && (allowNegative || Decimal(r.value.value).value.num >= 0)))
            && (r.Failure? ==> r.error != CannotFormat)
            && (CanonicalOption(text) && (allowNegative || (text.Some? ==> Decimal(text.value).value.num >= 0)) ==>
                r == Success(text))
  {
    hide Decimal, Format, DecimalTextOf;
    if text.Some? {
      NormalizedText(text.value, allowNegative);
    }
  }

  /** Construction yields a healthy day, leaves a healthy day as it is, and never fails to format. */
  lemma ConstructionIsHealthy(d: Day)
    ensures Constructed(d).Success? ==> Healthy(Constructed(d).value)
    ensures Healthy(d) ==> Constructed(d) == Success(d)
    ensures Constructed(d).Failure? ==> Constructed(d).error != CannotFormat
  {
    hide Decimal, Format, DecimalTextOf, OptionalText, Canonical, IsText;
    NormalizedOption(d.base, false);
    NormalizedOption(d.equity, true);
    NormalizedOption(d.unrealized, true);
    NormalizedOption(d.total, true);
    NormalizedText(d.realized, true);
    NormalizedText(d.flow, true);
    CanonicalParses(d.realized);
    CanonicalParses(d.flow);
  }

  lemma CanonicalParses(text: string)
    ensures Canonical(text) ==> Decimal(text).Success?
  {
  }

  // ---------- transitions ----------

  function RecordLiveMetrics(d: Day, equity: string, unrealized: string, flow: Option<string>): Result<Day, DayError> {
    var realized :- Decimal(d.realized);
    var moved :- Decimal(unrealized);
    var equityText :- DecimalTextOf(equity, true);
    var unrealizedText :- Format(moved);
    var totalText :- Format(Add(realized, moved));
    var flowText :- match flow case None => Success(d.flow) case Some(f) => DecimalTextOf(f, true);
    Constructed(d.(equity := Some(equityText), unrealized := Some(unrealizedText), total := Some(totalText),
                   flow := flowText))
  }

  function ApplyFinalResult(d: Day, pnl: string, resultId: string, trancheId: string): Result<Day, DayError> {
    if !IsText(resultId) || !IsText(trancheId) then Failure(TextRequired)
    else
      var before :- Decimal(d.realized);
      var gain :- Decimal(pnl);
      var unrealized :- match d.unrealized case None => Success(FromInt(0)) case Some(u) => Decimal(u);
      var realizedText :- Format(Add(before, gain));
      var totalText :- Format(Add(Add(before, gain), unrealized));
      Constructed(d.(realized := realizedText, total := Some(totalText)))
  }

  function LatchDailyLoss(d: Day, at: Stamp, reason: string): Result<Day, DayError> {
    if at.Malformed? then Failure(BadTime)
    else if !IsText(reason) then Failure(TextRequired)
    else if d.latched then Success(d)
    else Constructed(d.(latched := true, latchedAt := Some(at), latchReason := Some(reason)))
  }

  datatype Action =
    | Metrics(equity: string, unrealized: string, flow: Option<string>)
    | Final(pnl: string, resultId: string, trancheId: string)
    | Latch(at: Stamp, reason: string)

  function Step(d: Day, a: Action): Result<Day, DayError> {
    match a
    case Metrics(equity, unrealized, flow) => RecordLiveMetrics(d, equity, unrealized, flow)
    case Final(pnl, resultId, trancheId) => ApplyFinalResult(d, pnl, resultId, trancheId)
    case Latch(at, reason) => LatchDailyLoss(d, at, reason)
  }

  function Run(d: Day, actions: seq<Action>): Result<Day, DayError> {
    if actions == [] then Success(d)
    else match Run(d, actions[..|actions| - 1])
      case Success(q) => Step(q, actions[|actions| - 1])
      case Failure(e) => Failure(e)
  }

  ghost function AmountOr(text: Option<string>): real
    requires CanonicalOption(text)
  {
    if text.Some? then Amount(text.value) else 0.0
  }

  /** A total, once there is one, is realized plus unrealized, or plus zero when nothing is known to be unrealized. */
  ghost predicate Balanced(d: Day)
    requires Healthy(d)
  {
    d.total.Some? ==> Amount(d.total.value) == Amount(d.realized) + AmountOr(d.unrealized)
  }

  lemma ZeroTerminates()
    ensures Terminating(FromInt(0)) && Val(FromInt(0)) == 0.0
  {
    TerminatesFromReal(FromInt(0), 0, 0);
  }

  lemma MetricsEffect(d: Day, equity: string, unrealized: string, flow: Option<string>)
    requires Healthy(d)
    ensures var r := RecordLiveMetrics(d, equity, unrealized, flow);
            && (r.Success? <==>
                  Decimal(equity).Success? && Decimal(unrealized).Success?
                  && (flow.Some? ==> Decimal(flow.value).Success?))
            && (r.Failure? ==> r.error == NotDecimal)
            && (r.Success? ==>
                  Healthy(r.value) && Balanced(r.value) && r.value.total.Some?
                  && r.value.unrealized.Some? && Decimal(r.value.unrealized.value) == Decimal(unrealized)
                  && r.value.equity.Some? && Decimal(r.value.equity.value) == Decimal(equity)
                  && Decimal(r.value.flow) == Decimal(flow.GetOr(d.flow))
                  && r.value == d.(equity := r.value.equity, unrealized := r.value.unrealized,
                                   total := r.value.total, flow := r.value.flow))
  {
    hide Decimal, Format, DecimalTextOf, Constructed, Terminating, Canonical, IsText, Add, Val;
    ParsedTerminate(d.realized);
    ParsedTerminate(unrealized);
    ParsedTerminate(equity);
    CanonicalParses(d.realized);
    CanonicalParses(d.flow);
    NormalizedText(equity, true);
    if flow.Some? {
      ParsedTerminate(flow.value);
      NormalizedText(flow.value, true);
      TextFailure(flow.value);
    }
    TextFailure(equity);
    if Decimal(unrealized).Success? && Decimal(equity).Success? {
      var realized, moved := Decimal(d.realized).value, Decimal(unrealized).value;
      AddTerminates(realized, moved);
      FormatRoundTrip(moved);
      FormatRoundTrip(Add(realized, moved));
      AddValue(realized, moved);
      if flow.Some? ==> Decimal(flow.value).Success? {
        var next := d.(equity := Some(DecimalTextOf(equity, true).value), unrealized := Some(Format(moved).value),
                       total := Some(Format(Add(realized, moved)).value),
                       flow := if flow.None? then d.flow else DecimalTextOf(flow.value, true).value);
        ConstructionIsHealthy(next);
      }
    }
  }

  lemma AddValue(a: Fraction, b: Fraction)
    ensures Val(Add(a, b)) == Val(a) + Val(b)
  {
  }

  lemma TextFailure(text: string)
    ensures DecimalTextOf(text, true).Failure? ==> DecimalTextOf(text, true).error == NotDecimal
  {
    hide ParseDecimalText, PrintFraction;
    NormalizedText(text, true);
  }

  lemma FinalEffect(d: Day, pnl: string, resultId: string, trancheId: string)
    requires Healthy(d)
    ensures var r := ApplyFinalResult(d, pnl, resultId, trancheId);
            && (r.Success? <==> IsText(resultId) && IsText(trancheId) && Decimal(pnl).Success?)
            && (r.Failure? ==> r.error == NotDecimal || r.error == TextRequired)
            && (r.Success? ==>
                  Healthy(r.value) && Balanced(r.value) && r.value.total.Some?
                  && Amount(r.value.realized) == Amount(d.realized) + Amount(pnl)
                  && r.value == d.(realized := r.value.realized, total := r.value.total))
  {
    hide Decimal, Format, DecimalTextOf, Constructed, Terminating, Canonical, IsText, Add, Val;
    ParsedTerminate(d.realized);
    ParsedTerminate(pnl);
    CanonicalParses(d.realized);
    ZeroTerminates();
    if d.unrealized.Some? {
      ParsedTerminate(d.unrealized.value);
      CanonicalParses(d.unrealized.value);
    }
    if Decimal(pnl).Success? {
      var before, gain := Decimal(d.realized).value, Decimal(pnl).value;
      var unrealized := if d.unrealized.None? then FromInt(0) else Decimal(d.unrealized.value).value;
      AddTerminates(before, gain);
      AddTerminates(Add(before, gain), unrealized);
      FormatRoundTrip(Add(before, gain));
      FormatRoundTrip(Add(Add(before, gain), unrealized));
      AddValue(before, gain);
      AddValue(Add(before, gain), unrealized);
      ConstructionIsHealthy(d.(realized := Format(Add(before, gain)).value,
                               total := Some(Format(Add(Add(before, gain), unrealized)).value)));
    }
  }

  lemma LatchEffect(d: Day, at: Stamp, reason: string)
    requires Healthy(d)
    ensures var r := LatchDailyLoss(d, at, reason);
            && (r.Success? <==> at.Timed? && IsText(reason))
            && (r.Failure? ==> r.error == BadTime || r.error == TextRequired)
            && (r.Success? ==>
                  r.value == if d.latched then d
                             else d.(latched := true, latchedAt := Some(at), latchReason := Some(reason)))
            && (r.Success? ==> Healthy(r.value))
  {
    hide Decimal, Format, Constructed, Canonical, IsText;
    if at.Timed? && IsText(reason) {
      ConstructionIsHealthy(d.(latched := true, latchedAt := Some(at), latchReason := Some(reason)));
    }
  }

  // ---------- runs ----------

  /** What one action adds to the realized P&L. */
  ghost function Gain(a: Action): real {
    if a.Final? && Decimal(a.pnl).Success? then Amount(a.pnl) else 0.0
  }

  ghost function Gains(actions: seq<Action>): real {
    if actions == [] then 0.0 else Gains(actions[..|actions| - 1]) + Gain(actions[|actions| - 1])
  }

  /** What an action needs to be accepted; the day it meets plays no part. */
  ghost predicate Acceptable(a: Action) {
    match a
    case Metrics(equity, unrealized, flow) =>
      Decimal(equity).Success? && Decimal(unrealized).Success? && (flow.Some? ==> Decimal(flow.value).Success?)
    case Final(pnl, resultId, trancheId) => IsText(resultId) && IsText(trancheId) && Decimal(pnl).Success?
    case Latch(at, reason) => at.Timed? && IsText(reason)
  }

  lemma StepEffect(d: Day, a: Action)
    requires Healthy(d) && Balanced(d)
    ensures Step(d, a).Success? <==> Acceptable(a)
    ensures Step(d, a).Failure? ==> Step(d, a).error != CannotFormat
    ensures Step(d, a).Success? ==>
              var q := Step(d, a).value;
              Healthy(q) && Balanced(q) && Amount(q.realized) == Amount(d.realized) + Gain(a) && q.base == d.base
                && q.rollover == d.rollover
    ensures Step(d, a).Success? && d.latched ==>
              Step(d, a).value.latched && Step(d, a).value.latchedAt == d.latchedAt
                && Step(d, a).value.latchReason == d.latchReason
    ensures Step(d, a).Success? && !d.latched ==>
              var q := Step(d, a).value;
              if a.Latch? then q.latched && q.latchedAt == Some(a.at) && q.latchReason == Some(a.reason) else !q.latched
  {
    hide Decimal, Format, RecordLiveMetrics, ApplyFinalResult, LatchDailyLoss, Canonical, IsText, Val;
    HealthyParses(d);
    match a {
      case Metrics(equity, unrealized, flow) => MetricsEffect(d, equity, unrealized, flow);
      case Final(pnl, resultId, trancheId) => FinalEffect(d, pnl, resultId, trancheId);
      case Latch(at, reason) => LatchEffect(d, at, reason);
    }
  }

  lemma HealthyParses(d: Day)
    requires Healthy(d)
    ensures Decimal(d.realized).Success?
    ensures d.base.Some? ==> Decimal(d.base.value).Success?
  {
    hide ParseDecimalText, PrintFraction;
  }

  /** Over any run: no formatting failure, a total always equals realized plus
      unrealized, and realized is the sum of the results. */
  lemma {:induction false} RunStaysBalanced(d: Day, actions: seq<Action>)
    requires Healthy(d) && Balanced(d)
    ensures Run(d, actions).Failure? ==> Run(d, actions).error != CannotFormat
    ensures Run(d, actions).Success? ==>
              var q := Run(d, actions).value;
              Healthy(q) && Balanced(q) && Amount(q.realized) == Amount(d.realized) + Gains(actions)
              && q.base == d.base && q.rollover == d.rollover
  {
    hide Healthy, Balanced, Amount, Step, Gain;
    if actions != [] {
      RunStaysBalanced(d, actions[..|actions| - 1]);
      if Run(d, actions[..|actions| - 1]).Success? {
        StepEffect(Run(d, actions[..|actions| - 1]).value, actions[|actions| - 1]);
      }
    }
  }

  /** A set latch keeps its first time and reason forever. */
  lemma {:induction false} LatchKeepsItsFirstReason(d: Day, actions: seq<Action>)
    requires Healthy(d) && Balanced(d) && d.latched && Run(d, actions).Success?
    ensures var q := Run(d, actions).value;
            q.latched && q.latchedAt == d.latchedAt && q.latchReason == d.latchReason
  {
    hide Healthy, Balanced, Step;
    if actions != [] {
      LatchKeepsItsFirstReason(d, actions[..|actions| - 1]);
      RunStaysBalanced(d, actions[..|actions| - 1]);
      StepEffect(Run(d, actions[..|actions| - 1]).value, actions[|actions| - 1]);
    }
  }

  /** The latch of a run is its first Latch action's, wherever it stands. */
  lemma {:induction false} FirstLatchWins(d: Day, before: seq<Action>, latch: Action, later: seq<Action>)
    requires Healthy(d) && Balanced(d) && !d.latched && latch.Latch? && (forall a :: a in before ==> !a.Latch?)
    requires Run(d, before + [latch] + later).Success?
    ensures var q := Run(d, before + [latch] + later).value;
            q.latched && q.latchedAt == Some(latch.at) && q.latchReason == Some(latch.reason)
    decreases |later|
  {
    hide Healthy, Balanced, Step;
    var all := before + [latch] + later;
    var shorter := all[..|all| - 1];
    RunStaysBalanced(d, shorter);
    StepEffect(Run(d, shorter).value, all[|all| - 1]);
    if later == [] {
      assert shorter == before;
      StaysUnlatched(d, before);
    } else {
      assert shorter == before + [latch] + later[..|later| - 1];
      FirstLatchWins(d, before, latch, later[..|later| - 1]);
    }
  }

  lemma {:induction false} StaysUnlatched(d: Day, actions: seq<Action>)
    requires Healthy(d) && Balanced(d) && !d.latched && (forall a :: a in actions ==> !a.Latch?)
             && Run(d, actions).Success?
    ensures !Run(d, actions).value.latched
  {
    hide Healthy, Balanced, Step;
    if actions != [] {
      var earlier := actions[..|actions| - 1];
      assert forall a :: a in earlier ==> a in actions;
      assert actions[|actions| - 1] in actions;
      StaysUnlatched(d, earlier);
      RunStaysBalanced(d, earlier);
      StepEffect(Run(d, earlier).value, actions[|actions| - 1]);
    }
  }

  // ---------- realized does not depend on the order ----------

  lemma {:induction false} GainsOfConcat(a: seq<Action>, b: seq<Action>)
    ensures Gains(a + b) == Gains(a) + Gains(b)
  {
    hide Gain;
    if b == [] {
      assert a + b == a;
    } else {
      assert (a + b)[..|a + b| - 1] == a + b[..|b| - 1];
      GainsOfConcat(a, b[..|b| - 1]);
    }
  }

  lemma GainOfOne(a: Action)
    ensures Gains([a]) == Gain(a)
  {
    hide Gain;
    assert [a][..0] == [];
  }

  lemma GainsWithout(actions: seq<Action>, k: nat)
    requires k < |actions|
    ensures Gains(actions) == Gain(actions[k]) + Gains(actions[..k] + actions[k + 1..])
  {
    hide Gain, Gains;
    assert actions == actions[..k] + ([actions[k]] + actions[k + 1..]);
    GainsOfConcat(actions[..k], [actions[k]] + actions[k + 1..]);
    GainsOfConcat([actions[k]], actions[k + 1..]);
    GainsOfConcat(actions[..k], actions[k + 1..]);
    GainOfOne(actions[k]);
  }

  lemma RestOfPermutation(a: seq<Action>, b: seq<Action>) returns (k: nat)
    requires a != [] && multiset(a) == multiset(b)
    ensures k < |b| && b[k] == a[0] && multiset(a[1..]) == multiset(b[..k] + b[k + 1..]) && |a| == |b|
  {
    assert a[0] in multiset(b);
    k :| 0 <= k < |b| && b[k] == a[0];
    assert a == [a[0]] + a[1..];
    assert b == b[..k] + ([b[k]] + b[k + 1..]);
    assert multiset(a[1..]) == multiset(a) - multiset{a[0]};
    assert multiset(b[..k] + b[k + 1..]) == multiset(b) - multiset{b[k]};
    assert |multiset(a)| == |a| && |multiset(b)| == |b|;
  }

  lemma {:induction false} GainsOfPermutation(a: seq<Action>, b: seq<Action>)
    requires multiset(a) == multiset(b)
    ensures Gains(a) == Gains(b)
    decreases |a|
  {
    hide Gains, Gain;
    if a == [] {
      assert |multiset(b)| == |b|;
      assert b == [];
    } else {
      var k := RestOfPermutation(a, b);
      GainsOfPermutation(a[1..], b[..k] + b[k + 1..]);
      GainsWithout(a, 0);
      GainsWithout(b, k);
      assert a[..0] + a[1..] == a[1..];
    }
  }

  /** Equal amounts have equal canonical texts. */
  lemma CanonicalTextIsUnique(a: string, b: string)
    requires Canonical(a) && Canonical(b) && Amount(a) == Amount(b)
    ensures a == b
  {
    hide ParseDecimalText, PrintFraction, Val;
    ValInjective(Decimal(a).value, Decimal(b).value);
  }

  /** A run is accepted exactly when each of its actions is acceptable. */
  lemma {:induction false} RunAcceptedIff(d: Day, actions: seq<Action>)
    requires Healthy(d) && Balanced(d)
    ensures Run(d, actions).Success? <==> forall a :: a in actions ==> Acceptable(a)
  {
    hide Healthy, Balanced, Step, Acceptable;
    if actions != [] {
      var earlier, last := actions[..|actions| - 1], actions[|actions| - 1];
      assert forall a :: a in actions <==> a in earlier || a == last;
      RunAcceptedIff(d, earlier);
      if Run(d, earlier).Success? {
        RunStaysBalanced(d, earlier);
        StepEffect(Run(d, earlier).value, last);
      }
    }
  }

  /** The same actions in any order are accepted alike and end with the very same realized text. */
  lemma RealizedIsOrderFree(d: Day, a: seq<Action>, b: seq<Action>)
    requires Healthy(d) && Balanced(d) && multiset(a) == multiset(b)
    ensures Run(d, a).Success? <==> Run(d, b).Success?
    ensures Run(d, a).Success? ==> Run(d, a).value.realized == Run(d, b).value.realized
  {
    hide Run, Canonical, Amount, Balanced, Gains, Acceptable;
    RunAcceptedIff(d, a);
    RunAcceptedIff(d, b);
    MembersOfPermutation(a, b);
    RunStaysBalanced(d, a);
    RunStaysBalanced(d, b);
    GainsOfPermutation(a, b);
    if Run(d, a).Success? {
      CanonicalTextIsUnique(Run(d, a).value.realized, Run(d, b).value.realized);
    }
  }

  // ---------- the daily loss gate ----------

  datatype GateStatus = GatePass | GateBlocked | GateUnavailable

  datatype LossGate = LossGate(status: GateStatus, blocked: bool, limitAmount: Option<string>, reason: Option<string>,
      latched: bool)

  function PercentageText(text: string): Result<string, DayError> {
    var v :- Decimal(text);
    if Less(v, FromInt(0)) || Less(FromInt(100), v) then Failure(NotPercentage) else Format(v)
  }

  const HUNDRED: Fraction := FromInt(100)

  function PercentOf(base: Fraction, pct: Fraction): Fraction {
    Div(Mul(base, pct), HUNDRED)
  }

  function EvaluateDailyLossGate(d: Day, enabled: bool, limitPct: Option<string>): Result<LossGate, DayError> {
    if !enabled then Success(LossGate(GatePass, false, None, None, d.latched))
    else if d.latched then
      Success(LossGate(GateBlocked, true, None,
                       Some(if d.latchReason.Some? then d.latchReason.value else "DAILY_LOSS_LIMIT_REACHED"), true))
    else if d.rollover == Reconciling || d.base.None? then
      Success(LossGate(GateUnavailable, true, None, Some("ACCOUNTING_DAY_BASE_UNPROVEN"), d.latched))
    else
      var pctText :- PercentageText(limitPct.GetOr(""));
      var pct :- Decimal(pctText);
      var base :- Decimal(d.base.value);
      var realized :- Decimal(d.realized);
      var reached := !Less(Neg(Mul(base, pct)), Mul(HUNDRED, realized));
      var limit :- Format(PercentOf(base, pct));
      Success(LossGate(if reached then GateBlocked else GatePass, reached, Some(limit),
                       if reached then Some("DAILY_LOSS_LIMIT_REACHED") else None, reached))
  }

  lemma HundredVal()
    ensures HUNDRED.num == 100 && Val(HUNDRED) == 100.0
  {
  }

  lemma PercentValue(base: Fraction, pct: Fraction)
    ensures Val(PercentOf(base, pct)) == Val(base) * Val(pct) / 100.0
  {
    hide Mul, Div, Val;
    HundredVal();
    MulValue(base, pct);
  }

  lemma MulValue(a: Fraction, b: Fraction)
    ensures Val(Mul(a, b)) == Val(a) * Val(b)
  {
  }

  lemma HundredthTerminates(a: Fraction)
    requires Terminating(a)
    ensures Terminating(Div(a, HUNDRED))
  {
    hide Terminating, Div, Val, Pow10;
    HundredVal();
    var m, n := TerminationWitness(a);
    ShiftedQuotient(m, n);
    TerminatesFromReal(Div(a, HUNDRED), m, n + 2);
  }

  lemma ShiftedQuotient(m: int, n: nat)
    ensures (m as real / Pow10(n) as real) / 100.0 == m as real / Pow10(n + 2) as real
  {
    var p := Pow10(n) as real;
    assert Pow10(n + 2) == 100 * Pow10(n);
    var q := m as real / p;
    QuotientTimes(m as real, p);
    assert q / 100.0 * (100.0 * p) == q * p;
    TimesQuotient(q / 100.0, 100.0 * p);
  }

  lemma PercentTerminates(base: Fraction, pct: Fraction)
    requires Terminating(base) && Terminating(pct)
    ensures Terminating(PercentOf(base, pct))
  {
    hide Terminating, Mul, Div;
    MulTerminates(base, pct);
    HundredthTerminates(Mul(base, pct));
  }

  lemma PercentageFacts(text: string)
    ensures var r := PercentageText(text);
            && (r.Success? <==> Decimal(text).Success? && 0.0 <= Amount(text) <= 100.0)
            && (r.Success? ==> Canonical(r.value) && Decimal(r.value) == Decimal(text))
            && (r.Failure? ==> r.error == NotDecimal || r.error == NotPercentage)
  {
    hide ParseDecimalText, PrintFraction, Terminating, Less, Val;
    ParsedTerminate(text);
    if Decimal(text).Success? {
      var v := Decimal(text).value;
      FormatRoundTrip(v);
      LessVal(v, FromInt(0));
      LessVal(FromInt(100), v);
      IntVal(0);
      IntVal(100);
    }
  }

  /** The comparison in hundredths is the comparison with the limit amount. */
  lemma ThresholdRule(base: Fraction, pct: Fraction, realized: Fraction)
    ensures !Less(Neg(Mul(base, pct)), Mul(HUNDRED, realized)) <==> Val(realized) <= -(Val(base) * Val(pct) / 100.0)
  {
    hide Less, Mul, Neg, Val;
    LessVal(Neg(Mul(base, pct)), Mul(HUNDRED, realized));
    MulValue(base, pct);
    MulValue(HUNDRED, realized);
    HundredVal();
    NegValue(Mul(base, pct));
  }

  lemma NegValue(a: Fraction)
    ensures Val(Neg(a)) == -Val(a)
  {
  }

  /** An enabled gate on a proven, unlatched day trips exactly when
      realized <= -(base x pct / 100), and never fails to format. */
  lemma GateTripsExactly(d: Day, limitPct: string)
    requires Healthy(d) && !d.latched && d.rollover == Proven
    ensures Decimal(d.base.value).Success? && Decimal(d.realized).Success?
    ensures var r := EvaluateDailyLossGate(d, true, Some(limitPct));
            && (r.Success? <==> Decimal(limitPct).Success? && 0.0 <= Amount(limitPct) <= 100.0)
            && (r.Failure? ==> r.error != CannotFormat)
            && (r.Success? ==>
                  var limit := Amount(d.base.value) * Amount(limitPct) / 100.0;
                  (r.value.status == GateBlocked <==> Amount(d.realized) <= -limit)
                  && (r.value.status == GatePass <==> Amount(d.realized) > -limit)
                  && r.value.blocked == (r.value.status == GateBlocked) == r.value.latched
                  && r.value.reason == (if r.value.blocked then Some("DAILY_LOSS_LIMIT_REACHED") else None)
                  && r.value.limitAmount.Some? && Canonical(r.value.limitAmount.value)
                  && Amount(r.value.limitAmount.value) == limit)
  {
    hide Decimal, Format, PercentageText, Terminating, Less, Mul, Neg, Val, PercentOf, IsText;
    HealthyParses(d);
    PercentageFacts(limitPct);
    if PercentageText(limitPct).Success? {
      var base, pct, realized := Decimal(d.base.value).value, Decimal(limitPct).value, Decimal(d.realized).value;
      ParsedTerminate(d.base.value);
      ParsedTerminate(limitPct);
      PercentTerminates(base, pct);
      FormatRoundTrip(PercentOf(base, pct));
      PercentValue(base, pct);
      ThresholdRule(base, pct, realized);
    }
  }

  // ---------- the capacity gate ----------

  datatype Buckets = Buckets(held: string, reserved: string, filled: string, closing: string, tranches: int)

  datatype Limits = Limits(maxCapitalPct: string, coinPct: map<string, string>, maxOpen: int, maxPerCoin: int)

  datatype CapacityGate = CapacityGate(
    status: GateStatus, remainingGlobal: string, remainingCoin: string, globalSlots: int, coinSlots: int,
    reason: Option<string>)

  function CapText(base: string, pct: string): Result<string, DayError> {
    var b :- Decimal(base);
    var p :- Decimal(pct);
    Format(PercentOf(b, p))
  }

  function BucketTotal(b: Buckets): Result<Fraction, DayError> {
    var held :- Decimal(b.held);
    var reserved :- Decimal(b.reserved);
    var filled :- Decimal(b.filled);
    var closing :- Decimal(b.closing);
    Success(Add(Add(Add(held, reserved), filled), closing))
  }

  function CapacityReason(global: Fraction, coin: Fraction, requested: Fraction, globalSlots: int,
      coinSlots: int): Option<string> {
    if Less(global, requested) then Some("GLOBAL_CAPACITY_EXCEEDED")
    else if Less(coin, requested) then Some("COIN_CAPACITY_EXCEEDED")
    else if globalSlots <= 0 then Some("GLOBAL_SLOT_UNAVAILABLE")
    else if coinSlots <= 0 then Some("COIN_SLOT_UNAVAILABLE")
    else None
  }

  function EvaluateCapacityGate(limits: Limits, symbol: string, base: string, global: Buckets, coin: Buckets,
      requested: string): Result<CapacityGate, DayError> {
    if !IsText(symbol) then Failure(TextRequired)
    else
      var amount :- Decimal(requested);
      if Less(amount, FromInt(0)) then Failure(MustBeNonnegative)
      else
        var globalText :- CapText(base, limits.maxCapitalPct);
        var globalCap :- Decimal(globalText);
        if symbol !in limits.coinPct then Failure(UnknownSymbol)
        else
          var coinText :- CapText(base, limits.coinPct[symbol]);
          var coinCap :- Decimal(coinText);
          var globalUsed :- BucketTotal(global);
          var coinUsed :- BucketTotal(coin);
          var globalLeft, coinLeft := Add(globalCap, Neg(globalUsed)), Add(coinCap, Neg(coinUsed));
          var globalSlots, coinSlots := limits.maxOpen - global.tranches, limits.maxPerCoin - coin.tranches;
          var reason := CapacityReason(globalLeft, coinLeft, amount, globalSlots, coinSlots);
          var globalLeftText :- Format(globalLeft);
          var coinLeftText :- Format(coinLeft);
          Success(CapacityGate(if reason.None? then GatePass else GateBlocked, globalLeftText, coinLeftText,
                               AtLeastZero(globalSlots), AtLeastZero(coinSlots), reason))
  }

  ghost predicate DecimalBuckets(b: Buckets) {
    Decimal(b.held).Success? && Decimal(b.reserved).Success? && Decimal(b.filled).Success?
      && Decimal(b.closing).Success?
  }

  ghost function Used(b: Buckets): real
    requires DecimalBuckets(b)
  {
    Amount(b.held) + Amount(b.reserved) + Amount(b.filled) + Amount(b.closing)
  }

  lemma BucketTotalFacts(b: Buckets)
    requires DecimalBuckets(b)
    ensures BucketTotal(b).Success? && Terminating(BucketTotal(b).value) && Val(BucketTotal(b).value) == Used(b)
  {
    hide Decimal, Terminating, Add, Val;
    ParsedTerminate(b.held);
    ParsedTerminate(b.reserved);
    ParsedTerminate(b.filled);
    ParsedTerminate(b.closing);
    var held, reserved := Decimal(b.held).value, Decimal(b.reserved).value;
    var filled, closing := Decimal(b.filled).value, Decimal(b.closing).value;
    AddTerminates(held, reserved);
    AddTerminates(Add(held, reserved), filled);
    AddTerminates(Add(Add(held, reserved), filled), closing);
    AddValue(held, reserved);
    AddValue(Add(held, reserved), filled);
    AddValue(Add(Add(held, reserved), filled), closing);
  }

  lemma CapFacts(base: string, pct: string)
    requires Decimal(base).Success? && Decimal(pct).Success?
    ensures CapText(base, pct).Success? && Decimal(CapText(base, pct).value).Success?
    ensures Terminating(Decimal(CapText(base, pct).value).value)
    ensures Amount(CapText(base, pct).value) == Amount(base) * Amount(pct) / 100.0
  {
    hide Decimal, Format, Terminating, Val, PercentOf;
    ParsedTerminate(base);
    ParsedTerminate(pct);
    var b, p := Decimal(base).value, Decimal(pct).value;
    PercentTerminates(b, p);
    FormatRoundTrip(PercentOf(b, p));
    PercentValue(b, p);
  }

  lemma LeftFacts(cap: Fraction, used: Fraction)
    requires Terminating(cap) && Terminating(used)
    ensures var left := Add(cap, Neg(used));
            Val(left) == Val(cap) - Val(used) && Format(left).Success? && Decimal(Format(left).value) == Success(left)
  {
    hide Decimal, Format, Terminating, Add, Neg, Val;
    NegTerminates(used);
    AddTerminates(cap, Neg(used));
    NegValue(used);
    AddValue(cap, Neg(used));
    FormatRoundTrip(Add(cap, Neg(used)));
  }

  /** Capacity passes exactly when the request fits both caps of
      base x pct / 100 less what is committed and both slots remain. */
  lemma CapacityPassesExactly(limits: Limits, symbol: string, base: string, global: Buckets, coin: Buckets,
      requested: string)
    requires IsText(symbol) && symbol in limits.coinPct && Decimal(base).Success? && Decimal(requested).Success?
    requires Decimal(limits.maxCapitalPct).Success? && Decimal(limits.coinPct[symbol]).Success?
    requires DecimalBuckets(global) && DecimalBuckets(coin) && Amount(requested) >= 0.0
    ensures var r := EvaluateCapacityGate(limits, symbol, base, global, coin, requested);
            var globalLeft := Amount(base) * Amount(limits.maxCapitalPct) / 100.0 - Used(global);
            var coinLeft := Amount(base) * Amount(limits.coinPct[symbol]) / 100.0 - Used(coin);
            && r.Success?
            && (r.value.status == GatePass <==>
                  Amount(requested) <= globalLeft && Amount(requested) <= coinLeft
                  && global.tranches < limits.maxOpen && coin.tranches < limits.maxPerCoin)
            && (r.value.status == GateBlocked <==> r.value.reason.Some?)
            && Decimal(r.value.remainingGlobal).Success? && Amount(r.value.remainingGlobal) == globalLeft
            && Decimal(r.value.remainingCoin).Success? && Amount(r.value.remainingCoin) == coinLeft
  {
    hide Decimal, Format, Terminating, Less, Add, Neg, Val, BucketTotal, CapText, Used, IsText, FromInt;
    CapFacts(base, limits.maxCapitalPct);
    CapFacts(base, limits.coinPct[symbol]);
    BucketTotalFacts(global);
    BucketTotalFacts(coin);
    var globalCap := Decimal(CapText(base, limits.maxCapitalPct).value).value;
    var coinCap := Decimal(CapText(base, limits.coinPct[symbol]).value).value;
    LeftFacts(globalCap, BucketTotal(global).value);
    LeftFacts(coinCap, BucketTotal(coin).value);
    var amount := Decimal(requested).value;
    LessVal(amount, FromInt(0));
    IntVal(0);
    LessVal(Add(globalCap, Neg(BucketTotal(global).value)), amount);
    LessVal(Add(coinCap, Neg(BucketTotal(coin).value)), amount);
  }

  /** Without a limit the gate passes; a latch, and a day without a proven base, block it whatever the figures. */
  lemma GateWithoutFigures(d: Day, enabled: bool, limitPct: Option<string>)
    ensures !enabled ==>
              EvaluateDailyLossGate(d, enabled, limitPct) == Success(LossGate(GatePass, false, None, None, d.latched))
    ensures enabled && d.latched ==>
              EvaluateDailyLossGate(d, enabled, limitPct)
              == Success(LossGate(GateBlocked, true, None, Some(d.latchReason.GetOr("DAILY_LOSS_LIMIT_REACHED")), true))
    ensures enabled && !d.latched && (d.rollover == Reconciling || d.base.None?) ==>
              EvaluateDailyLossGate(d, enabled, limitPct)
              == Success(LossGate(GateUnavailable, true, None, Some("ACCOUNTING_DAY_BASE_UNPROVEN"), false))
  {
  }

  /** What the capacity gate can be asked about; it answers exactly these questions. */
  ghost predicate Askable(limits: Limits, symbol: string, base: string, global: Buckets, coin: Buckets,
      requested: string) {
    && IsText(symbol) && symbol in limits.coinPct && Decimal(base).Success?
    && Decimal(limits.maxCapitalPct).Success? && Decimal(limits.coinPct[symbol]).Success?
    && DecimalBuckets(global) && DecimalBuckets(coin)
    && Decimal(requested).Success? && Amount(requested) >= 0.0
  }

  lemma AnswersExactly(limits: Limits, symbol: string, base: string, global: Buckets, coin: Buckets, requested: string)
    ensures EvaluateCapacityGate(limits, symbol, base, global, coin, requested).Success?
            <==> Askable(limits, symbol, base, global, coin, requested)
  {
    hide Decimal, Format, Terminating, Less, Add, Neg, Val, IsText, FromInt, PercentOf;
    if Decimal(requested).Success? {
      LessVal(Decimal(requested).value, FromInt(0));
      IntVal(0);
    }
    if Askable(limits, symbol, base, global, coin, requested) {
      CapacityPassesExactly(limits, symbol, base, global, coin, requested);
    }
  }

  /** A blocked capacity gate names the first of its four limits that fails, and the slots left are never negative. */
  lemma CapacityReasonIsFirst(limits: Limits, symbol: string, base: string, global: Buckets, coin: Buckets,
      requested: string)
    requires Askable(limits, symbol, base, global, coin, requested)
    ensures EvaluateCapacityGate(limits, symbol, base, global, coin, requested).Success?
    ensures var r := EvaluateCapacityGate(limits, symbol, base, global, coin, requested).value;
            && Decimal(r.remainingGlobal).Success? && Decimal(r.remainingCoin).Success?
            && var wide, narrow := Amount(r.remainingGlobal) >= Amount(requested),
                                   Amount(r.remainingCoin) >= Amount(requested);
               && (r.reason == Some("GLOBAL_CAPACITY_EXCEEDED") <==> !wide)
               && (r.reason == Some("COIN_CAPACITY_EXCEEDED") <==> wide && !narrow)
               && (r.reason == Some("GLOBAL_SLOT_UNAVAILABLE") <==> wide && narrow && global.tranches >= limits.maxOpen)
               && (r.reason == Some("COIN_SLOT_UNAVAILABLE") <==>
                     wide && narrow && global.tranches < limits.maxOpen && coin.tranches >= limits.maxPerCoin)
               && r.globalSlots == (if global.tranches < limits.maxOpen then limits.maxOpen - global.tranches else 0)
               && r.coinSlots == (if coin.tranches < limits.maxPerCoin then limits.maxPerCoin - coin.tranches else 0)
  {
    hide Decimal, Format, Terminating, Less, Add, Neg, Val, BucketTotal, CapText, Used, IsText, FromInt, CapacityReason;
    CapacityPassesExactly(limits, symbol, base, global, coin, requested);
    CapFacts(base, limits.maxCapitalPct);
    CapFacts(base, limits.coinPct[symbol]);
    BucketTotalFacts(global);
    BucketTotalFacts(coin);
    var globalLeft := Add(Decimal(CapText(base, limits.maxCapitalPct).value).value, Neg(BucketTotal(global).value));
    var coinLeft := Add(Decimal(CapText(base, limits.coinPct[symbol]).value).value, Neg(BucketTotal(coin).value));
    LeftFacts(Decimal(CapText(base, limits.maxCapitalPct).value).value, BucketTotal(global).value);
    LeftFacts(Decimal(CapText(base, limits.coinPct[symbol]).value).value, BucketTotal(coin).value);
    LessVal(Decimal(requested).value, FromInt(0));
    IntVal(0);
    ReasonIsFirst(globalLeft, coinLeft, Decimal(requested).value, limits.maxOpen - global.tranches,
                  limits.maxPerCoin - coin.tranches);
  }

  lemma ReasonIsFirst(global: Fraction, coin: Fraction, requested: Fraction, globalSlots: int, coinSlots: int)
    ensures var r, wide, narrow := CapacityReason(global, coin, requested, globalSlots, coinSlots),
                                   Val(global) >= Val(requested), Val(coin) >= Val(requested);
            && (r == Some("GLOBAL_CAPACITY_EXCEEDED") <==> !wide)
            && (r == Some("COIN_CAPACITY_EXCEEDED") <==> wide && !narrow)
            && (r == Some("GLOBAL_SLOT_UNAVAILABLE") <==> wide && narrow && globalSlots <= 0)
            && (r == Some("COIN_SLOT_UNAVAILABLE") <==> wide && narrow && globalSlots > 0 && coinSlots <= 0)
  {
    hide Less, Val;
    LessVal(global, requested);
    LessVal(coin, requested);
  }
}
