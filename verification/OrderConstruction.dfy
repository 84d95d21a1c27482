/** Research V2 grants, tick-grid prices, risk-based sizing and order construction, in exact arithmetic. */
module OrderConstruction {
  import opened Prelude
  import opened RealArithmetic

  datatype Venue = Venue(tick: real, qtyStep: real, minQty: real, minNotional: real, maxQty: Option<real>)

  datatype StopProfile =
    | AtrOnly(distanceAtr: real, floorFraction: real, ceilingFraction: real)
    | Hybrid(bufferAtr: real, minAtr: real, minFraction: real, maxAtr: real, maxFraction: real)

  datatype Profile = Profile(
    totalMarginMax: real, coinMarginCap: real, grossNotionalMax: real, stopRiskMax: real, maxOpenPending: int,
    maxPerCoin: int, nominalMargin: real, riskPerTradeMax: real, minTranche: real, leverage: real, stressCost: real,
    stop: StopProfile, maker: real, taker: real, netTpMin: real)

  datatype Exposure = Exposure(account: real, margin: real, coinMargin: real, gross: real, stopRisk: real,
      openPending: int, coinOpenPending: int)

  datatype Reason =
    | MaxOpenPendingReached | MaxCoinOpenPendingReached | TotalMarginCapReached | PerCoinMarginCapReached
    | GrossNotionalCapReached | TotalStopRiskCapReached
    | StopReferenceUnavailable | InvalidStopGeometry | InvalidFinalExecutableGeometry
    | FinalStopDistanceBelowMinimum | FinalStopDistanceExceedsMaximum
    | InvalidRiskDenominator | QtyBelowMinimum | NotionalBelowMinimum | MinimumTrancheNotMet
    | TotalMarginCapAfterRounding | PerCoinMarginCapAfterRounding | GrossNotionalCapAfterRounding
    | TotalStopRiskCapAfterRounding | PerTradeRiskCapAfterRounding | NetTpFloorNotMet

  datatype Fault = ReferenceNotProtective | StructuralStopBeyondMaximum | DivisionByZero

  // ---------- the portfolio grant ----------

  datatype Grant = Grant(refusal: Option<Reason>, account: real, freeMargin: real, remainingCoin: real,
      remainingGross: real, remainingStopRisk: real, globalSlots: int, coinSlots: int)

  function Fraction(part: real, whole: real): real {
    part * whole
  }

  function RemainingOf(p: Profile, s: Exposure): Grant {
    Grant(None, s.account,
          Fraction(p.totalMarginMax, s.account) - s.margin, Fraction(p.coinMarginCap, s.account) - s.coinMargin,
          Fraction(p.grossNotionalMax, s.account) - s.gross, Fraction(p.stopRiskMax, s.account) - s.stopRisk,
          p.maxOpenPending - s.openPending, p.maxPerCoin - s.coinOpenPending)
  }

  function FirstRefusal(g: Grant): Option<Reason> {
    if g.globalSlots <= 0 then Some(MaxOpenPendingReached)
    else if g.coinSlots <= 0 then Some(MaxCoinOpenPendingReached)
    else if g.freeMargin <= 0.0 then Some(TotalMarginCapReached)
    else if g.remainingCoin <= 0.0 then Some(PerCoinMarginCapReached)
    else if g.remainingGross <= 0.0 then Some(GrossNotionalCapReached)
    else if g.remainingStopRisk <= 0.0 then Some(TotalStopRiskCapReached)
    else None
  }

  function EvaluateGrant(p: Profile, s: Exposure): Grant {
    var g := RemainingOf(p, s);
    match FirstRefusal(g)
    case None => g
    case Some(reason) =>
      Grant(Some(reason), s.account, Larger(g.freeMargin, 0.0), Larger(g.remainingCoin, 0.0),
            Larger(g.remainingGross, 0.0), Larger(g.remainingStopRisk, 0.0),
            AtLeastZero(g.globalSlots), AtLeastZero(g.coinSlots))
  }

  // ---------- prices on the tick grid ----------

  function FloorToStep(value: real, step: real): real
    requires step != 0.0
  {
    (value / step).Floor as real * step
  }

  function CeilToStep(value: real, step: real): real
    requires step != 0.0
  {
    (-((-(value / step)).Floor)) as real * step
  }

  predicate IsLong(direction: string) {
    direction == "LONG"
  }

  function Outward(direction: string, value: real, tick: real): real
    requires tick != 0.0
  {
    if IsLong(direction) then FloorToStep(value, tick) else CeilToStep(value, tick)
  }

  function EntryPrice(direction: string, reference: real, atr: real, tick: real): real
    requires tick != 0.0
  {
    Outward(direction, if IsLong(direction) then reference - 0.10 * atr else reference + 0.10 * atr, tick)
  }

  function RiskDistance(direction: string, entry: real, stop: real): real {
    if IsLong(direction) then entry - stop else stop - entry
  }

  function Away(direction: string, entry: real, distance: real): real {
    if IsLong(direction) then entry - distance else entry + distance
  }

  function MinDistance(entry: real, atr: real, stop: StopProfile): real {
    match stop
    case AtrOnly(_, low, _) => Fraction(entry, low)
    case Hybrid(_, minAtr, minFraction, _, _) => Larger(Fraction(atr, minAtr), Fraction(entry, minFraction))
  }

  function MaxDistance(entry: real, atr: real, stop: StopProfile): real {
    match stop
    case AtrOnly(_, _, high) => Fraction(entry, high)
    case Hybrid(_, _, _, maxAtr, maxFraction) => Smaller(Fraction(atr, maxAtr), Fraction(entry, maxFraction))
  }

  function StopPrice(direction: string, entry: real, atr: real, tick: real, stop: StopProfile,
      structural: Option<real>): Result<Option<real>, Fault>
    requires tick != 0.0
  {
    match stop
    case AtrOnly(distanceAtr, _, _) =>
      var distance := Smaller(Larger(Fraction(atr, distanceAtr), MinDistance(entry, atr, stop)),
                              MaxDistance(entry, atr, stop));
      Success(Some(Outward(direction, Away(direction, entry, distance), tick)))
    case Hybrid(bufferAtr, _, _, _, _) =>
      if structural.None? then Success(None)
      else if direction == "LONG" && structural.value >= entry then Failure(ReferenceNotProtective)
      else if direction == "SHORT" && structural.value <= entry then Failure(ReferenceNotProtective)
      else
        var raw := Away(direction, structural.value, Fraction(bufferAtr, atr));
        var distance := RiskDistance(direction, entry, raw);
        if distance <= 0.0 then Failure(ReferenceNotProtective)
        else if distance > MaxDistance(entry, atr, stop) then Failure(StructuralStopBeyondMaximum)
        else Success(Some(Outward(direction, Away(direction, entry, Larger(distance, MinDistance(entry, atr, stop))),
                                  tick)))
  }

  function TpPrice(direction: string, entry: real, risk: real, tick: real): real
    requires tick != 0.0
  {
    if IsLong(direction) then CeilToStep(entry + 2.0 * risk, tick) else FloorToStep(entry - 2.0 * risk, tick)
  }

  function FinalStopRejection(direction: string, entry: real, stop: real, atr: real,
      profile: StopProfile): Option<Reason> {
    var distance := RiskDistance(direction, entry, stop);
    if distance <= 0.0 then Some(InvalidFinalExecutableGeometry)
    else if distance < MinDistance(entry, atr, profile) then Some(FinalStopDistanceBelowMinimum)
    else if distance > MaxDistance(entry, atr, profile) then Some(FinalStopDistanceExceedsMaximum)
    else None
  }

  // ---------- sizing ----------

  datatype Constraint = NominalMargin | PerTradeRisk | FreeMargin | CoinCap | GrossExposure | PortfolioStopRisk

  datatype Sized = Sized(binding: Constraint, target: real, quantity: real, notional: real, margin: real,
      stopRisk: real, stopFraction: real)

  datatype Sizing = Rejected(reason: Reason) | Faulted(fault: Fault) | Passed(sized: Sized)

  /** The least of six amounts, and the first constraint that attains it. */
  function Least(nominal: real, perTrade: real, free: real, coin: real, gross: real, stopRisk: real):
    (real, Constraint)
  {
    var target := Smaller(nominal, Smaller(perTrade, Smaller(free, Smaller(coin, Smaller(gross, stopRisk)))));
    (target, if nominal == target then NominalMargin else if perTrade == target then PerTradeRisk
             else if free == target then FreeMargin
             else if coin == target then CoinCap else if gross == target then GrossExposure else PortfolioStopRisk)
  }

  function Violation(p: Profile, g: Grant, margin: real, notional: real, stopRisk: real): Option<Reason> {
    if margin > g.freeMargin then Some(TotalMarginCapAfterRounding)
    else if margin > g.remainingCoin then Some(PerCoinMarginCapAfterRounding)
    else if notional > g.remainingGross then Some(GrossNotionalCapAfterRounding)
    else if stopRisk > g.remainingStopRisk then Some(TotalStopRiskCapAfterRounding)
    else if stopRisk > Fraction(g.account, p.riskPerTradeMax) then Some(PerTradeRiskCapAfterRounding)
    else None
  }

  function Quantity(target: real, entry: real, venue: Venue): real
    requires entry != 0.0 && venue.qtyStep != 0.0
  {
    FloorToStep(target / entry, venue.qtyStep)
  }

  function Capped(quantity: real, venue: Venue): real
    requires venue.qtyStep != 0.0
  {
    if venue.maxQty.Some? && quantity > venue.maxQty.value then FloorToStep(venue.maxQty.value, venue.qtyStep)
    else quantity
  }

  function TargetOf(p: Profile, g: Grant, denominator: real): (real, Constraint)
    requires denominator != 0.0
  {
    Least(Fraction(Fraction(g.account, p.nominalMargin), p.leverage),
          Fraction(g.account, p.riskPerTradeMax) / denominator,
          Fraction(g.freeMargin, p.leverage), Fraction(g.remainingCoin, p.leverage),
          g.remainingGross, g.remainingStopRisk / denominator)
  }

  function RiskBasedSizing(p: Profile, g: Grant, venue: Venue, entry: real, stopDistance: real): Sizing {
    if entry == 0.0 then Faulted(DivisionByZero)
    else
      var stopFraction := stopDistance / entry;
      var denominator := stopFraction + p.stressCost;
      if denominator <= 0.0 then Rejected(InvalidRiskDenominator)
      else if venue.qtyStep == 0.0 then Faulted(DivisionByZero)
      else
        var (target, binding) := TargetOf(p, g, denominator);
        var floored := Quantity(target, entry, venue);
        if floored < venue.minQty then Rejected(QtyBelowMinimum)
        else
          var quantity := Capped(floored, venue);
          var notional := Fraction(quantity, entry);
          if notional < venue.minNotional then Rejected(NotionalBelowMinimum)
          else if p.leverage == 0.0 then Faulted(DivisionByZero)
          else
            var margin, stopRisk := notional / p.leverage, Fraction(notional, denominator);
            if margin < p.minTranche then Rejected(MinimumTrancheNotMet)
            else match Violation(p, g, margin, notional, stopRisk)
              case Some(reason) => Rejected(reason)
              case None => Passed(Sized(binding, target, quantity, notional, margin, stopRisk, stopFraction))
  }

  // ---------- economics and construction ----------

  datatype Economics = Economics(risk: real, reward: real, grossR: real, netTp: real, netFraction: real)

  function Magnitude(x: real): real {
    if x < 0.0 then -x else x
  }

  function EconomicsOf(p: Profile, entry: real, stop: real, tp: real, quantity: real): Option<Economics> {
    var risk, reward, notional := Magnitude(entry - stop), Magnitude(tp - entry), Fraction(entry, quantity);
    if risk == 0.0 || notional == 0.0 then None
    else
      var net := Fraction(reward, quantity) - Fraction(notional, p.maker) - Fraction(Fraction(tp, quantity), p.taker);
      Some(Economics(risk, reward, reward / risk, net, net / notional))
  }

  datatype Outcome =
    | Reject(reason: Reason)
    | Raised(fault: Fault)
    | Constructed(direction: string, entry: real, stop: real, tp: real, sized: Sized, economics: Economics)

  datatype Market = Market(direction: string, reference: real, atr: real, structural: Option<real>)

  function Construct(p: Profile, g: Grant, venue: Venue, m: Market): Outcome {
    if g.refusal.Some? then Reject(g.refusal.value)
    else if venue.tick == 0.0 then Raised(DivisionByZero)
    else
      var entry := EntryPrice(m.direction, m.reference, m.atr, venue.tick);
      match StopPrice(m.direction, entry, m.atr, venue.tick, p.stop, m.structural)
      case Failure(fault) => Raised(fault)
      case Success(None) => Reject(StopReferenceUnavailable)
      case Success(Some(stop)) => ConstructWithStop(p, g, venue, m, entry, stop)
  }

  function ConstructWithStop(p: Profile, g: Grant, venue: Venue, m: Market, entry: real, stop: real): Outcome
    requires venue.tick != 0.0
  {
    var risk := RiskDistance(m.direction, entry, stop);
    if risk <= 0.0 then Reject(InvalidStopGeometry)
    else match FinalStopRejection(m.direction, entry, stop, m.atr, p.stop)
      case Some(reason) => Reject(reason)
      case None =>
        var tp := TpPrice(m.direction, entry, risk, venue.tick);
        if (m.direction == "LONG" && !(stop < entry < tp)) || (m.direction == "SHORT" && !(tp < entry < stop))
        then Reject(InvalidFinalExecutableGeometry)
        else match RiskBasedSizing(p, g, venue, entry, risk)
          case Rejected(reason) => Reject(reason)
          case Faulted(fault) => Raised(fault)
          case Passed(sized) =>
            match EconomicsOf(p, entry, stop, tp, sized.quantity)
            case None => Raised(DivisionByZero)
            case Some(e) =>
              if e.netFraction >= p.netTpMin then Constructed(m.direction, entry, stop, tp, sized, e)
              else Reject(NetTpFloorNotMet)
  }

  // ---------- the grid ----------

  ghost predicate IsMultiple(x: real, step: real, k: int) {
    x == k as real * step
  }

  ghost predicate OnGrid(x: real, step: real) {
    exists k :: IsMultiple(x, step, k)
  }

  lemma FloorBounds(value: real, step: real)
    requires step > 0.0
    ensures FloorToStep(value, step) <= value && OnGrid(FloorToStep(value, step), step)
  {
    var k := (value / step).Floor;
    assert IsMultiple(FloorToStep(value, step), step, k);
    QuotientTimes(value, step);
    ScaleOrder(k as real, value / step, step);
  }

  lemma CeilBounds(value: real, step: real)
    requires step > 0.0
    ensures CeilToStep(value, step) >= value && OnGrid(CeilToStep(value, step), step)
  {
    var k := -((-(value / step)).Floor);
    assert IsMultiple(CeilToStep(value, step), step, k);
    QuotientTimes(value, step);
    ScaleOrder(value / step, k as real, step);
  }

  lemma GridStays(value: real, step: real)
    requires step > 0.0 && OnGrid(value, step)
    ensures FloorToStep(value, step) == value && CeilToStep(value, step) == value
  {
    var k :| IsMultiple(value, step, k);
    TimesQuotient(k as real, step);
    assert value / step == k as real;
    assert (value / step).Floor == k && (-(value / step)).Floor == -k;
  }

  lemma GridCombination(a: real, b: real, step: real, m: int, n: int)
    requires OnGrid(a, step) && OnGrid(b, step)
    ensures OnGrid(m as real * a + n as real * b, step)
  {
    var i :| IsMultiple(a, step, i);
    var j :| IsMultiple(b, step, j);
    IntProduct(m, i);
    IntProduct(n, j);
    Associate(m as real, i as real, step);
    Associate(n as real, j as real, step);
    Distribute((n * j) as real, (m * i) as real, step);
    assert IsMultiple(m as real * a + n as real * b, step, m * i + n * j);
  }

  lemma OutwardBounds(direction: string, value: real, tick: real)
    requires tick > 0.0
    ensures OnGrid(Outward(direction, value, tick), tick)
    ensures IsLong(direction) ==> Outward(direction, value, tick) <= value
    ensures !IsLong(direction) ==> Outward(direction, value, tick) >= value
  {
    hide FloorToStep, CeilToStep, OnGrid;
    FloorBounds(value, tick);
    CeilBounds(value, tick);
  }

  /** Rounding the target is a no-op: the reward is exactly twice the risk, on the far side of the entry. */
  lemma TargetIsTwiceTheRisk(direction: string, entry: real, stop: real, tick: real)
    requires tick > 0.0 && OnGrid(entry, tick) && OnGrid(stop, tick)
    ensures var risk := RiskDistance(direction, entry, stop);
            TpPrice(direction, entry, risk, tick)
              == (if IsLong(direction) then entry + 2.0 * risk else entry - 2.0 * risk)
            && OnGrid(TpPrice(direction, entry, risk, tick), tick)
  {
    hide FloorToStep, CeilToStep, OnGrid;
    var raw := 3.0 * entry + (-2.0) * stop;
    GridCombination(entry, stop, tick, 3, -2);
    GridStays(raw, tick);
    var risk := RiskDistance(direction, entry, stop);
    assert raw == if IsLong(direction) then entry + 2.0 * risk else entry - 2.0 * risk;
  }

  // ---------- stop distances ----------

  /** The fractions of an ATR-only profile are ordered; a hybrid profile needs nothing for its minimum. */
  predicate OrderedFractions(stop: StopProfile) {
    stop.AtrOnly? ==> 0.0 <= stop.floorFraction <= stop.ceilingFraction
  }

  lemma FractionOrder(entry: real, low: real, high: real)
    requires 0.0 <= low <= high
    ensures entry >= 0.0 ==> Fraction(entry, low) <= Fraction(entry, high)
    ensures entry <= 0.0 ==> Fraction(entry, low) <= 0.0 && Fraction(entry, high) <= 0.0
  {
    Distribute(low, high, entry);
  }

  lemma OutwardWidens(direction: string, entry: real, distance: real, tick: real)
    requires tick > 0.0
    ensures RiskDistance(direction, entry, Outward(direction, Away(direction, entry, distance), tick)) >= distance
  {
    hide Outward;
    OutwardBounds(direction, Away(direction, entry, distance), tick);
  }

  /** A stop that passes the geometry check of the risk distance is never below its profile's minimum distance. */
  lemma StopMeetsMinimum(direction: string, entry: real, atr: real, tick: real, stop: StopProfile,
      structural: Option<real>)
    requires tick > 0.0 && OrderedFractions(stop)
    ensures var r := StopPrice(direction, entry, atr, tick, stop, structural);
            r.Success? && r.value.Some? ==>
              OnGrid(r.value.value, tick)
              && (RiskDistance(direction, entry, r.value.value) > 0.0 ==>
                  RiskDistance(direction, entry, r.value.value) >= MinDistance(entry, atr, stop))
  {
    hide Outward, Fraction, OnGrid;
    match stop {
      case AtrOnly(distanceAtr, low, high) =>
        var distance := Smaller(Larger(Fraction(atr, distanceAtr), MinDistance(entry, atr, stop)),
                                MaxDistance(entry, atr, stop));
        FractionOrder(entry, low, high);
        OutwardWidens(direction, entry, distance, tick);
        OutwardBounds(direction, Away(direction, entry, distance), tick);
      case Hybrid(bufferAtr, _, _, _, _) =>
        if structural.Some? {
          var raw := Away(direction, structural.value, Fraction(bufferAtr, atr));
          var distance := Larger(RiskDistance(direction, entry, raw), MinDistance(entry, atr, stop));
          OutwardWidens(direction, entry, distance, tick);
          OutwardBounds(direction, Away(direction, entry, distance), tick);
        }
    }
  }

  /** Fractions of the price that bound the stop from above are not negative. */
  predicate CeilingNotNegative(stop: StopProfile) {
    match stop
    case AtrOnly(_, _, high) => high >= 0.0
    case Hybrid(_, _, _, _, high) => high >= 0.0
  }

  /** An accepted stop leaves the entry price positive. */
  lemma AcceptedStopNeedsPositiveEntry(direction: string, entry: real, stop: real, atr: real, profile: StopProfile)
    requires CeilingNotNegative(profile) && FinalStopRejection(direction, entry, stop, atr, profile).None?
    ensures entry > 0.0
  {
    hide RiskDistance;
    var high := match profile case AtrOnly(_, _, h) => h case Hybrid(_, _, _, _, h) => h;
    if entry <= 0.0 {
      NotPositive(entry, high);
    }
  }

  lemma NotPositive(entry: real, high: real)
    requires entry <= 0.0 && high >= 0.0
    ensures Fraction(entry, high) <= 0.0
  {
  }

  // ---------- sizing never needs its own re-check ----------

  lemma LeastBounds(a: real, b: real, c: real, d: real, e: real, f: real)
    ensures var t := Least(a, b, c, d, e, f).0; t <= a && t <= b && t <= c && t <= d && t <= e && t <= f
    ensures var t := Least(a, b, c, d, e, f).0; t == a || t == b || t == c || t == d || t == e || t == f
  {
  }

  lemma QuantityBelowTarget(target: real, entry: real, venue: Venue)
    requires entry > 0.0 && venue.qtyStep > 0.0
    ensures Fraction(Capped(Quantity(target, entry, venue), venue), entry) <= target
  {
    hide FloorToStep;
    var floored := Quantity(target, entry, venue);
    FloorBounds(target / entry, venue.qtyStep);
    if venue.maxQty.Some? {
      FloorBounds(venue.maxQty.value, venue.qtyStep);
    }
    var quantity := Capped(floored, venue);
    assert quantity <= target / entry;
    ScaleOrder(quantity, target / entry, entry);
    QuotientTimes(target, entry);
  }

  lemma QuotientBelow(n: real, cap: real, d: real)
    requires d > 0.0
    ensures n <= Fraction(cap, d) ==> n / d <= cap
    ensures n <= cap / d ==> Fraction(n, d) <= cap
  {
    TimesQuotient(cap, d);
    QuotientOrder(n, cap * d, d);
    QuotientTimes(cap, d);
    ScaleOrder(n, cap / d, d);
  }

  /** With positive leverage, step and entry, the amounts after rounding respect every remaining cap. */
  lemma NoViolationAfterRounding(p: Profile, g: Grant, venue: Venue, entry: real, denominator: real)
    requires p.leverage > 0.0 && venue.qtyStep > 0.0 && entry > 0.0 && denominator > 0.0
    ensures var notional := Fraction(Capped(Quantity(TargetOf(p, g, denominator).0, entry, venue), venue), entry);
            Violation(p, g, notional / p.leverage, notional, Fraction(notional, denominator)).None?
  {
    hide Least, Quantity, Capped, Fraction;
    var target := TargetOf(p, g, denominator).0;
    LeastBounds(Fraction(Fraction(g.account, p.nominalMargin), p.leverage),
                Fraction(g.account, p.riskPerTradeMax) / denominator,
                Fraction(g.freeMargin, p.leverage), Fraction(g.remainingCoin, p.leverage), g.remainingGross,
                g.remainingStopRisk / denominator);
    QuantityBelowTarget(target, entry, venue);
    var notional := Fraction(Capped(Quantity(target, entry, venue), venue), entry);
    QuotientBelow(notional, g.freeMargin, p.leverage);
    QuotientBelow(notional, g.remainingCoin, p.leverage);
    QuotientBelow(notional, g.remainingStopRisk, denominator);
    QuotientBelow(notional, Fraction(g.account, p.riskPerTradeMax), denominator);
  }

  predicate RoundingRejection(r: Reason) {
    r.TotalMarginCapAfterRounding? || r.PerCoinMarginCapAfterRounding? || r.GrossNotionalCapAfterRounding?
    || r.TotalStopRiskCapAfterRounding? || r.PerTradeRiskCapAfterRounding?
  }

  /** Unreachable reasons: the minimum stop distance, the geometry after
      the target, and the re-checks after rounding. */
  predicate Unreachable(r: Reason) {
    r.FinalStopDistanceBelowMinimum? || r.InvalidFinalExecutableGeometry? || RoundingRejection(r)
  }

  /** The actual amounts stay within what the grant left and within the risk of one trade. */
  predicate InsideGrant(p: Profile, g: Grant, sized: Sized) {
    && sized.margin <= g.freeMargin && sized.margin <= g.remainingCoin && sized.notional <= g.remainingGross
    && sized.stopRisk <= g.remainingStopRisk && sized.stopRisk <= Fraction(g.account, p.riskPerTradeMax)
  }

  /** A whole number of lots, not above the venue's maximum, and worth the venue's minimum. */
  ghost predicate LotOk(venue: Venue, sized: Sized) {
    && OnGrid(sized.quantity, venue.qtyStep) && (venue.maxQty.Some? ==> sized.quantity <= venue.maxQty.value)
    && sized.notional >= venue.minNotional
  }

  lemma CappedIsALot(target: real, entry: real, venue: Venue)
    requires entry != 0.0 && venue.qtyStep > 0.0
    ensures var quantity := Capped(Quantity(target, entry, venue), venue);
            OnGrid(quantity, venue.qtyStep) && (venue.maxQty.Some? ==> quantity <= venue.maxQty.value)
  {
    hide FloorToStep, OnGrid;
    FloorBounds(target / entry, venue.qtyStep);
    if venue.maxQty.Some? {
      FloorBounds(venue.maxQty.value, venue.qtyStep);
    }
  }

  /** All five re-checks after rounding are unreachable, and a passed sizing is a proper lot inside the grant. */
  lemma SizingIsSafe(p: Profile, g: Grant, venue: Venue, entry: real, stopDistance: real)
    requires p.leverage > 0.0 && venue.qtyStep > 0.0 && entry > 0.0
    ensures var r := RiskBasedSizing(p, g, venue, entry, stopDistance);
            && (r.Rejected? ==> !Unreachable(r.reason))
            && (r.Passed? ==>
                  && InsideGrant(p, g, r.sized) && LotOk(venue, r.sized)
                  && r.sized.notional == Fraction(r.sized.quantity, entry) && r.sized.notional <= r.sized.target
                  && r.sized.margin >= p.minTranche)
  {
    hide TargetOf, Quantity, Capped, Fraction, OnGrid;
    var denominator := stopDistance / entry + p.stressCost;
    if denominator > 0.0 {
      NoViolationAfterRounding(p, g, venue, entry, denominator);
      QuantityBelowTarget(TargetOf(p, g, denominator).0, entry, venue);
      CappedIsALot(TargetOf(p, g, denominator).0, entry, venue);
    }
  }

  // ---------- the venue's minimum quantity after capping ----------

  /** The venue's maximum, rounded down to a lot, still reaches its minimum. */
  predicate MaximumReachesMinimum(venue: Venue)
    requires venue.qtyStep != 0.0
  {
    venue.maxQty.Some? ==> FloorToStep(venue.maxQty.value, venue.qtyStep) >= venue.minQty
  }

  lemma LotsBelowTheFloor(x: real, value: real, step: real)
    requires step > 0.0 && OnGrid(x, step) && x <= value
    ensures x <= FloorToStep(value, step)
  {
    var k :| IsMultiple(x, step, k);
    QuotientTimes(value, step);
    ScaleOrder(k as real, value / step, step);
    assert k <= (value / step).Floor;
    ScaleOrder(k as real, (value / step).Floor as real, step);
  }

  lemma CappedMinimum(target: real, entry: real, venue: Venue)
    requires entry != 0.0 && venue.qtyStep > 0.0 && Quantity(target, entry, venue) >= venue.minQty
    ensures Capped(Quantity(target, entry, venue), venue) >= venue.minQty <==> MaximumReachesMinimum(venue)
  {
    hide FloorToStep, OnGrid;
    var floored := Quantity(target, entry, venue);
    FloorBounds(target / entry, venue.qtyStep);
    if venue.maxQty.Some? && floored <= venue.maxQty.value {
      LotsBelowTheFloor(floored, venue.maxQty.value, venue.qtyStep);
    }
  }

  /** The minimum is not checked again after capping: a passed quantity
      meets it exactly when the venue's maximum does. */
  lemma MinimumHoldsExactly(p: Profile, g: Grant, venue: Venue, entry: real, stopDistance: real)
    requires venue.qtyStep > 0.0 && RiskBasedSizing(p, g, venue, entry, stopDistance).Passed?
    ensures RiskBasedSizing(p, g, venue, entry, stopDistance).sized.quantity >= venue.minQty
            <==> MaximumReachesMinimum(venue)
  {
    hide TargetOf, Quantity, Capped, Fraction, MaximumReachesMinimum;
    CappedMinimum(TargetOf(p, g, stopDistance / entry + p.stressCost).0, entry, venue);
  }

  /** Such a venue passes an order below its minimum: lots of one, at
      least 1.2 and at most 1.5, and a target of five. */
  lemma SomePassedQuantityIsTooSmall()
    ensures var p := Profile(1.0, 1.0, 1.0, 1.0, 1, 1, 1.0, 1.0, 0.0, 1.0, 0.0, AtrOnly(1.0, 0.0, 1.0), 0.0, 0.0, 0.0);
            var g := Grant(None, 100.0, 100.0, 100.0, 5.0, 100.0, 1, 1);
            var r := RiskBasedSizing(p, g, Venue(0.1, 1.0, 1.2, 0.0, Some(1.5)), 1.0, 1.0);
            r.Passed? && r.sized.target == 5.0 && r.sized.quantity == 1.0
  {
    assert (5.0 / 1.0).Floor == 5 && (1.5 / 1.0).Floor == 1;
  }

  // ---------- constructed orders ----------

  /** What a usable profile and venue satisfy. */
  predicate WellFormed(p: Profile, venue: Venue) {
    venue.tick > 0.0 && venue.qtyStep > 0.0 && p.leverage > 0.0 && OrderedFractions(p.stop)
      && CeilingNotNegative(p.stop)
  }

  ghost predicate GoodGeometry(p: Profile, venue: Venue, m: Market, o: Outcome)
    requires o.Constructed?
  {
    var risk := RiskDistance(m.direction, o.entry, o.stop);
    && OnGrid(o.entry, venue.tick) && OnGrid(o.stop, venue.tick) && OnGrid(o.tp, venue.tick)
    && (if IsLong(m.direction) then o.stop < o.entry < o.tp else o.tp < o.entry < o.stop)
    && o.entry > 0.0
    && MinDistance(o.entry, m.atr, p.stop) <= risk <= MaxDistance(o.entry, m.atr, p.stop)
    && Magnitude(o.tp - o.entry) == 2.0 * Magnitude(o.entry - o.stop)
    && o.economics.risk == risk && o.economics.reward == 2.0 * risk && o.economics.grossR == 2.0
    && o.economics.netFraction >= p.netTpMin
  }

  lemma EconomicsOfDouble(p: Profile, entry: real, stop: real, tp: real, quantity: real)
    requires Magnitude(tp - entry) == 2.0 * Magnitude(entry - stop) && EconomicsOf(p, entry, stop, tp, quantity).Some?
    ensures var e := EconomicsOf(p, entry, stop, tp, quantity).value;
            e.risk == Magnitude(entry - stop) && e.reward == 2.0 * e.risk && e.grossR == 2.0
  {
    hide Fraction;
    TimesQuotient(2.0, Magnitude(entry - stop));
  }

  lemma StopIsFinal(p: Profile, g: Grant, venue: Venue, m: Market, entry: real, stop: real)
    requires WellFormed(p, venue) && OnGrid(entry, venue.tick) && OnGrid(stop, venue.tick)
    requires var risk := RiskDistance(m.direction, entry, stop);
             risk > 0.0 ==> risk >= MinDistance(entry, m.atr, p.stop)
    ensures var o := ConstructWithStop(p, g, venue, m, entry, stop);
            && (o.Reject? ==> !Unreachable(o.reason))
            && (o.Constructed? ==> GoodGeometry(p, venue, m, o) && o.entry == entry && o.stop == stop
                                   && InsideGrant(p, g, o.sized) && LotOk(venue, o.sized))
  {
    hide RiskBasedSizing, EconomicsOf, TpPrice, OnGrid, MinDistance, MaxDistance, Fraction;
    var risk := RiskDistance(m.direction, entry, stop);
    var tp := TpPrice(m.direction, entry, risk, venue.tick);
    TargetIsTwiceTheRisk(m.direction, entry, stop, venue.tick);
    if risk > 0.0 && FinalStopRejection(m.direction, entry, stop, m.atr, p.stop).None? {
      AcceptedStopNeedsPositiveEntry(m.direction, entry, stop, m.atr, p.stop);
      SizingIsSafe(p, g, venue, entry, risk);
      var sizing := RiskBasedSizing(p, g, venue, entry, risk);
      if sizing.Passed? && EconomicsOf(p, entry, stop, tp, sizing.sized.quantity).Some? {
        EconomicsOfDouble(p, entry, stop, tp, sizing.sized.quantity);
      }
    }
  }

  lemma GrantReasonsAreReachable(p: Profile, s: Exposure)
    ensures var g := EvaluateGrant(p, s); g.refusal.Some? ==> !Unreachable(g.refusal.value)
    ensures EvaluateGrant(p, s).refusal.None? ==>
            EvaluateGrant(p, s) == RemainingOf(p, s) && FirstRefusal(RemainingOf(p, s)).None?
  {
  }

  /** Every constructed order has grid prices in the right order, a stop within bounds and a reward of two risks,
      and stays inside the grant; the rejections that exact arithmetic rules out never occur. */
  lemma ConstructedOrdersAreGood(p: Profile, s: Exposure, venue: Venue, m: Market)
    requires WellFormed(p, venue)
    ensures var g := EvaluateGrant(p, s);
            var o := Construct(p, g, venue, m);
            && (o.Reject? ==> !Unreachable(o.reason))
            && (o.Constructed? ==> g.refusal.None? && GoodGeometry(p, venue, m, o)
                                   && InsideGrant(p, g, o.sized) && LotOk(venue, o.sized))
  {
    hide ConstructWithStop, StopPrice, Outward, EvaluateGrant, GoodGeometry, Fraction, Unreachable, OnGrid, MinDistance;
    var g := EvaluateGrant(p, s);
    GrantReasonsAreReachable(p, s);
    StopReferenceIsReachable();
    var entry := EntryPrice(m.direction, m.reference, m.atr, venue.tick);
    var passive := if IsLong(m.direction) then m.reference - 0.10 * m.atr else m.reference + 0.10 * m.atr;
    OutwardBounds(m.direction, passive, venue.tick);
    StopMeetsMinimum(m.direction, entry, m.atr, venue.tick, p.stop, m.structural);
    var stop := StopPrice(m.direction, entry, m.atr, venue.tick, p.stop, m.structural);
    if stop.Success? && stop.value.Some? {
      StopIsFinal(p, g, venue, m, entry, stop.value.value);
    }
  }

  lemma StopReferenceIsReachable()
    ensures !Unreachable(StopReferenceUnavailable)
  {
  }

  // ---------- entry, binding constraint and net target ----------

  lemma WithinOneStep(value: real, step: real)
    requires step > 0.0
    ensures value - step < FloorToStep(value, step) && CeilToStep(value, step) < value + step
  {
    QuotientTimes(value, step);
    var q := value / step;
    StepsAround(q, value, step);
    CeilUnits(value, step, q);
  }

  lemma CeilUnits(value: real, step: real, q: real)
    requires step > 0.0 && q == value / step
    ensures CeilToStep(value, step) == (-((-q).Floor)) as real * step
  {
    assert -(value / step) == -q;
  }

  lemma StepsAround(q: real, value: real, step: real)
    requires step > 0.0 && q * step == value
    ensures value - step < q.Floor as real * step && (-((-q).Floor)) as real * step < value + step
  {
    NegatedProduct(q, step);
    StepUp(q, q.Floor as real, step, value);
    StepUp(-q, (-q).Floor as real, step, -value);
    NegatedProduct((-q).Floor as real, step);
  }

  lemma NegatedProduct(a: real, b: real)
    ensures (-a) * b == -(a * b)
  {
  }

  lemma StepUp(q: real, k: real, step: real, value: real)
    requires step > 0.0 && q < k + 1.0 && q * step == value
    ensures value - step < k * step
  {
    Distribute(1.0, k, step);
    ScaleOrder(k + 1.0, q, step);
  }

  /** The entry is on the grid, a tenth of the ATR away from the reference
      on the passive side, by less than one more tick. */
  lemma EntryIsPassive(direction: string, reference: real, atr: real, tick: real)
    requires tick > 0.0
    ensures var entry := EntryPrice(direction, reference, atr, tick);
            && OnGrid(entry, tick)
            && (IsLong(direction) ==> reference - atr / 10.0 - tick < entry <= reference - atr / 10.0)
            && (!IsLong(direction) ==> reference + atr / 10.0 <= entry < reference + atr / 10.0 + tick)
  {
    hide FloorToStep, CeilToStep, OnGrid;
    var raw := if IsLong(direction) then reference - 0.10 * atr else reference + 0.10 * atr;
    OutwardBounds(direction, raw, tick);
    WithinOneStep(raw, tick);
  }

  /** The amount that a constraint allows. */
  function Allowance(p: Profile, g: Grant, denominator: real, c: Constraint): real
    requires denominator != 0.0
  {
    match c
    case NominalMargin => Fraction(Fraction(g.account, p.nominalMargin), p.leverage)
    case PerTradeRisk => Fraction(g.account, p.riskPerTradeMax) / denominator
    case FreeMargin => Fraction(g.freeMargin, p.leverage)
    case CoinCap => Fraction(g.remainingCoin, p.leverage)
    case GrossExposure => g.remainingGross
    case PortfolioStopRisk => g.remainingStopRisk / denominator
  }

  /** The target is the least allowance, and the binding constraint is one that attains it. */
  lemma BindingAttainsTheTarget(p: Profile, g: Grant, denominator: real, c: Constraint)
    requires denominator != 0.0
    ensures var (target, binding) := TargetOf(p, g, denominator);
            target == Allowance(p, g, denominator, binding) && target <= Allowance(p, g, denominator, c)
  {
    hide Fraction;
  }

  lemma NetScales(reward: real, entry: real, tp: real, maker: real, taker: real, q: real)
    requires entry != 0.0 && q != 0.0
    ensures entry * q != 0.0
    ensures (reward * q - entry * q * maker - tp * q * taker) / (entry * q)
            == (reward - entry * maker - tp * taker) / entry
  {
    var unit := reward - entry * maker - tp * taker;
    NetFactors(reward, entry, tp, maker, taker, q);
    ProductNotZero(entry, q);
    var r := unit / entry;
    QuotientTimes(unit, entry);
    Associate(r, entry, q);
    TimesQuotient(r, entry * q);
  }

  lemma NetFactors(reward: real, entry: real, tp: real, maker: real, taker: real, q: real)
    ensures reward * q - entry * q * maker - tp * q * taker == (reward - entry * maker - tp * taker) * q
  {
    assert entry * q * maker == entry * maker * q;
    assert tp * q * taker == tp * taker * q;
    Distribute(entry * maker, reward, q);
    Distribute(tp * taker, reward - entry * maker, q);
  }

  lemma ProductNotZero(a: real, b: real)
    requires a != 0.0 && b != 0.0
    ensures a * b != 0.0
  {
    TimesQuotient(a, b);
  }

  /** The net target fraction depends on the prices and the cost rates only, never on the quantity. */
  lemma NetFractionIgnoresQuantity(p: Profile, entry: real, stop: real, tp: real, quantity: real)
    requires EconomicsOf(p, entry, stop, tp, quantity).Some?
    ensures entry != 0.0
    ensures EconomicsOf(p, entry, stop, tp, quantity).value.netFraction
            == (Magnitude(tp - entry) - entry * p.maker - tp * p.taker) / entry
  {
    if entry != 0.0 && quantity != 0.0 {
      NetScales(Magnitude(tp - entry), entry, tp, p.maker, p.taker, quantity);
    }
  }

  // ---------- runs of orders over several coins ----------

  datatype Totals = Totals(account: real, margin: real, gross: real, stopRisk: real, openPending: int,
                           coinMargin: map<string, real>, coinOpenPending: map<string, int>)

  function MarginOf(t: Totals, coin: string): real {
    if coin in t.coinMargin then t.coinMargin[coin] else 0.0
  }

  function CountOf(t: Totals, coin: string): int {
    if coin in t.coinOpenPending then t.coinOpenPending[coin] else 0
  }

  function ExposureOf(t: Totals, coin: string): Exposure {
    Exposure(t.account, t.margin, MarginOf(t, coin), t.gross, t.stopRisk, t.openPending, CountOf(t, coin))
  }

  datatype Attempt = Attempt(coin: string, venue: Venue, market: Market)

  /** An order that is constructed adds its actual margin, notional and stop risk; any other outcome changes nothing. */
  function Place(p: Profile, t: Totals, a: Attempt): Totals {
    match Construct(p, EvaluateGrant(p, ExposureOf(t, a.coin)), a.venue, a.market)
    case Constructed(_, _, _, _, sized, _) =>
      Totals(t.account, t.margin + sized.margin, t.gross + sized.notional, t.stopRisk + sized.stopRisk,
             t.openPending + 1,
             t.coinMargin[a.coin := MarginOf(t, a.coin) + sized.margin],
             t.coinOpenPending[a.coin := CountOf(t, a.coin) + 1])
    case _ => t
  }

  function PlaceAll(p: Profile, t: Totals, attempts: seq<Attempt>): Totals {
    if attempts == [] then t else Place(p, PlaceAll(p, t, attempts[..|attempts| - 1]), attempts[|attempts| - 1])
  }

  /** Every cap and slot limit of the profile holds. */
  ghost predicate WithinCaps(p: Profile, t: Totals) {
    && t.margin <= Fraction(p.totalMarginMax, t.account) && t.gross <= Fraction(p.grossNotionalMax, t.account)
    && t.stopRisk <= Fraction(p.stopRiskMax, t.account) && t.openPending <= p.maxOpenPending
    && (forall c :: c in t.coinMargin ==> t.coinMargin[c] <= Fraction(p.coinMarginCap, t.account))
    && (forall c :: c in t.coinOpenPending ==> t.coinOpenPending[c] <= p.maxPerCoin)
  }

  lemma PlaceKeepsCaps(p: Profile, t: Totals, a: Attempt)
    requires WellFormed(p, a.venue) && WithinCaps(p, t)
    ensures WithinCaps(p, Place(p, t, a)) && Place(p, t, a).account == t.account
  {
    hide Construct, GoodGeometry, Fraction, EvaluateGrant;
    GrantReasonsAreReachable(p, ExposureOf(t, a.coin));
    ConstructedOrdersAreGood(p, ExposureOf(t, a.coin), a.venue, a.market);
  }

  /** Over any run of attempts, on any coins and venues, every portfolio cap and slot limit keeps holding. */
  lemma {:induction false} RunKeepsCaps(p: Profile, t: Totals, attempts: seq<Attempt>)
    requires WithinCaps(p, t) && forall a :: a in attempts ==> WellFormed(p, a.venue)
    ensures WithinCaps(p, PlaceAll(p, t, attempts))
  {
    hide WithinCaps, Place;
    if attempts != [] {
      var earlier := attempts[..|attempts| - 1];
      assert forall a :: a in earlier ==> a in attempts;
      RunKeepsCaps(p, t, earlier);
      assert attempts[|attempts| - 1] in attempts;
      PlaceKeepsCaps(p, PlaceAll(p, t, earlier), attempts[|attempts| - 1]);
    }
  }
}
