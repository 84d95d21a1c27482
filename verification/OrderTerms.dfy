/** When an order is constructed, and at which prices and quantity, in terms of the profile, the exposure and the
    market. */
module OrderTerms {
  import opened Prelude
  import opened RealArithmetic
  import opened OrderConstruction

  /** A product, kept folded in the proofs. */
  function Times(a: real, b: real): real {
    a * b
  }

  // ---------- prices ----------

  /** How far a price lies on the losing side of another one. */
  function Beyond(direction: string, start: real, price: real): real {
    if direction == "LONG" then start - price else price - start
  }

  /** On the grid, and beyond the price it was wanted at by less than one tick. */
  ghost predicate Placed(direction: string, wanted: real, price: real, tick: real) {
    OnGrid(price, tick) && 0.0 <= Beyond(direction, wanted, price) < tick
  }

  lemma GridPointIsUnique(x: real, y: real, value: real, step: real)
    requires step > 0.0 && OnGrid(x, step) && OnGrid(y, step)
    requires value - step < x <= value && value - step < y <= value
    ensures x == y
  {
    var i :| IsMultiple(x, step, i);
    var j :| IsMultiple(y, step, j);
    if i < j {
      Apart(x, y, step, i, j);
    } else if j < i {
      Apart(y, x, step, j, i);
    }
  }

  lemma Apart(x: real, y: real, step: real, i: int, j: int)
    requires i < j && step > 0.0 && IsMultiple(x, step, i) && IsMultiple(y, step, j)
    ensures y - x >= step
  {
    Distribute(i as real, j as real, step);
    ScaleOrder(1.0, j as real - i as real, step);
  }

  /** Rounding outward is being placed. */
  lemma OutwardIsPlaced(direction: string, wanted: real, price: real, tick: real)
    requires tick > 0.0
    ensures Outward(direction, wanted, tick) == price <==> Placed(direction, wanted, price, tick)
  {
    hide OnGrid, FloorToStep, CeilToStep;
    OutwardBounds(direction, wanted, tick);
    WithinOneStep(wanted, tick);
    var rounded := Outward(direction, wanted, tick);
    if Placed(direction, wanted, price, tick) {
      if direction == "LONG" {
        GridPointIsUnique(rounded, price, wanted, tick);
      } else {
        NegativeGrid(rounded, tick);
        NegativeGrid(price, tick);
        GridPointIsUnique(-rounded, -price, -wanted, tick);
      }
    }
  }

  lemma NegativeGrid(x: real, step: real)
    requires OnGrid(x, step)
    ensures OnGrid(-x, step)
  {
    var k :| IsMultiple(x, step, k);
    NegatedProduct(k as real, step);
    assert IsMultiple(-x, step, -k);
  }

  /** The entry: a tenth of the ATR beyond the reference, on the passive side. */
  ghost predicate EntryAt(m: Market, tick: real, entry: real) {
    Placed(m.direction, if m.direction == "LONG" then m.reference - m.atr / 10.0 else m.reference + m.atr / 10.0,
           entry, tick)
  }

  lemma EntryIsExact(m: Market, tick: real, entry: real)
    requires tick > 0.0
    ensures EntryPrice(m.direction, m.reference, m.atr, tick) == entry <==> EntryAt(m, tick, entry)
  {
    hide Outward, Placed;
    var wanted := if m.direction == "LONG" then m.reference - 0.10 * m.atr else m.reference + 0.10 * m.atr;
    OutwardIsPlaced(m.direction, wanted, entry, tick);
    assert 0.10 * m.atr == m.atr / 10.0;
  }

  // ---------- the stop ----------

  /** A distance kept between a floor and a ceiling; the ceiling has the last word. */
  function Clamped(x: real, low: real, high: real): real {
    if high <= x || high <= low then high else if x <= low then low else x
  }

  function Greatest(a: real, b: real, c: real): real {
    if a >= b && a >= c then a else if b >= c then b else c
  }

  /** How far a stop of the profile is wanted from the entry, if it can be placed at all. */
  function WantedDistance(stop: StopProfile, m: Market, entry: real): Option<real> {
    if stop.AtrOnly? then
      Some(Clamped(Times(m.atr, stop.distanceAtr), Times(entry, stop.floorFraction),
                   Times(entry, stop.ceilingFraction)))
    else if m.structural.None? then None
    else
      var gap := Beyond(m.direction, entry, m.structural.value);
      var distance := gap + Times(stop.bufferAtr, m.atr);
      if Exposed(m.direction, gap, distance) then None
      else if distance > Times(m.atr, stop.maxAtr) || distance > Times(entry, stop.maxFraction) then None
      else Some(Greatest(distance, Times(m.atr, stop.minAtr), Times(entry, stop.minFraction)))
  }

  /** A structural reference, or the stop beyond it, that is not on the losing side of the entry. */
  predicate Exposed(direction: string, gap: real, distance: real) {
    (gap <= 0.0 && (direction == "LONG" || direction == "SHORT")) || distance <= 0.0
  }

  /** On the grid, at the wanted distance from the entry or less than one tick further. */
  ghost predicate StopAt(stop: StopProfile, m: Market, tick: real, entry: real, price: real) {
    var wanted := WantedDistance(stop, m, entry);
    wanted.Some? && OnGrid(price, tick) && 0.0 <= Beyond(m.direction, entry, price) - wanted.value < tick
  }

  function StopOf(stop: StopProfile, m: Market, tick: real, entry: real): Result<Option<real>, Fault>
    requires tick != 0.0
  {
    StopPrice(m.direction, entry, m.atr, tick, stop, m.structural)
  }

  lemma AwayIsPlaced(direction: string, entry: real, distance: real, price: real, tick: real)
    requires tick > 0.0
    ensures Outward(direction, Away(direction, entry, distance), tick) == price
            <==> OnGrid(price, tick) && 0.0 <= Beyond(direction, entry, price) - distance < tick
  {
    hide Outward, OnGrid;
    OutwardIsPlaced(direction, Away(direction, entry, distance), price, tick);
  }

  /** The stop that is computed is the one described. */
  lemma StopIsExact(stop: StopProfile, m: Market, tick: real, entry: real, price: real)
    requires tick > 0.0
    ensures StopOf(stop, m, tick, entry) == Success(Some(price)) <==> StopAt(stop, m, tick, entry, price)
  {
    hide Outward, OnGrid, Fraction, Times, Clamped, Greatest;
    if stop.AtrOnly? {
      FractionIs(m.atr, stop.distanceAtr);
      FractionIs(entry, stop.floorFraction);
      FractionIs(entry, stop.ceilingFraction);
      ClampIs(Fraction(m.atr, stop.distanceAtr), Fraction(entry, stop.floorFraction),
              Fraction(entry, stop.ceilingFraction));
      AwayIsPlaced(m.direction, entry, WantedDistance(stop, m, entry).value, price, tick);
    } else if m.structural.Some? {
      FractionIs(stop.bufferAtr, m.atr);
      FractionIs(m.atr, stop.minAtr);
      FractionIs(entry, stop.minFraction);
      FractionIs(m.atr, stop.maxAtr);
      FractionIs(entry, stop.maxFraction);
      var distance := Beyond(m.direction, entry, m.structural.value) + Fraction(stop.bufferAtr, m.atr);
      GreatestIs(distance, Fraction(m.atr, stop.minAtr), Fraction(entry, stop.minFraction));
      AwayIsPlaced(m.direction, entry,
                   Greatest(distance, Fraction(m.atr, stop.minAtr), Fraction(entry, stop.minFraction)), price, tick);
    }
  }

  lemma FractionIs(part: real, whole: real)
    ensures Fraction(part, whole) == Times(part, whole)
  {
  }

  lemma ClampIs(x: real, low: real, high: real)
    ensures Smaller(Larger(x, low), high) == Clamped(x, low, high)
    ensures low <= high ==>
              if x < low then Clamped(x, low, high) == low
              else if x > high then Clamped(x, low, high) == high else Clamped(x, low, high) == x
  {
  }

  lemma GreatestIs(a: real, b: real, c: real)
    ensures Larger(a, Larger(b, c)) == Greatest(a, b, c)
  {
  }

  /** The operative family: the ATR multiple when it lies between floor and ceiling, else the one it passes. */
  lemma AtrStopDistance(stop: StopProfile, m: Market, tick: real, entry: real)
    requires tick > 0.0 && stop.AtrOnly? && Times(entry, stop.floorFraction) <= Times(entry, stop.ceilingFraction)
    ensures var r := StopOf(stop, m, tick, entry);
            var raw := Times(m.atr, stop.distanceAtr);
            var low, high := Times(entry, stop.floorFraction), Times(entry, stop.ceilingFraction);
            r.Success? && r.value.Some?
            && var distance := Beyond(m.direction, entry, r.value.value);
               && (low <= raw <= high ==> raw <= distance < raw + tick)
               && (raw < low ==> low <= distance < low + tick)
               && (raw > high ==> high <= distance < high + tick)
  {
    hide Outward, OnGrid, Fraction, Times, Clamped, Smaller, Larger, Beyond;
    var r := StopOf(stop, m, tick, entry);
    ClampIs(Times(m.atr, stop.distanceAtr), Times(entry, stop.floorFraction), Times(entry, stop.ceilingFraction));
    StopIsExact(stop, m, tick, entry, r.value.value);
  }

  /** Why no hybrid stop is placed, and that a placed one lies at least the buffer beyond the structural reference. */
  lemma HybridStopRefusals(stop: StopProfile, m: Market, tick: real, entry: real)
    requires tick > 0.0 && stop.Hybrid?
    ensures var r := StopOf(stop, m, tick, entry);
            && (r == Success(None) <==> m.structural.None?)
            && (m.structural.Some? ==>
                  var gap := Beyond(m.direction, entry, m.structural.value);
                  var distance := gap + Times(stop.bufferAtr, m.atr);
                  && (r == Failure(ReferenceNotProtective) <==> Exposed(m.direction, gap, distance))
                  && (r == Failure(StructuralStopBeyondMaximum) <==>
                        !Exposed(m.direction, gap, distance)
                        && (distance > Times(m.atr, stop.maxAtr) || distance > Times(entry, stop.maxFraction)))
                  && (r.Success? ==>
                        r.value.Some?
                        && Beyond(m.direction, m.structural.value, r.value.value) >= Times(stop.bufferAtr, m.atr)))
  {
    hide Outward, OnGrid, Fraction, Times;
    var r := StopOf(stop, m, tick, entry);
    FractionIs(stop.bufferAtr, m.atr);
    FractionIs(m.atr, stop.maxAtr);
    FractionIs(entry, stop.maxFraction);
    if r.Success? && r.value.Some? {
      StopIsExact(stop, m, tick, entry, r.value.value);
    }
  }

  // ---------- the quantity ----------

  /** Every slot and every amount of the portfolio has something left. */
  predicate GrantOpen(p: Profile, s: Exposure) {
    && s.openPending < p.maxOpenPending && s.coinOpenPending < p.maxPerCoin
    && s.margin < Times(p.totalMarginMax, s.account) && s.coinMargin < Times(p.coinMarginCap, s.account)
    && s.gross < Times(p.grossNotionalMax, s.account) && s.stopRisk < Times(p.stopRiskMax, s.account)
  }

  lemma GrantIsExact(p: Profile, s: Exposure)
    ensures EvaluateGrant(p, s).refusal.None? <==> GrantOpen(p, s)
    ensures GrantOpen(p, s) ==>
              EvaluateGrant(p, s)
              == Grant(None, s.account,
                       Times(p.totalMarginMax, s.account) - s.margin, Times(p.coinMarginCap, s.account) - s.coinMargin,
                       Times(p.grossNotionalMax, s.account) - s.gross, Times(p.stopRiskMax, s.account) - s.stopRisk,
                       p.maxOpenPending - s.openPending, p.maxPerCoin - s.coinOpenPending)
  {
    hide Fraction, Times;
    FractionIs(p.totalMarginMax, s.account);
    FractionIs(p.coinMarginCap, s.account);
    FractionIs(p.grossNotionalMax, s.account);
    FractionIs(p.stopRiskMax, s.account);
  }

  /** A blocked grant names the first limit that is used up. */
  lemma RefusalIsFirst(p: Profile, s: Exposure)
    ensures var r := EvaluateGrant(p, s).refusal;
            var slots, coinSlots := s.openPending < p.maxOpenPending, s.coinOpenPending < p.maxPerCoin;
            var margin, coinMargin := s.margin < Times(p.totalMarginMax, s.account),
                                      s.coinMargin < Times(p.coinMarginCap, s.account);
            var gross := s.gross < Times(p.grossNotionalMax, s.account);
            && (r == Some(MaxOpenPendingReached) <==> !slots)
            && (r == Some(MaxCoinOpenPendingReached) <==> slots && !coinSlots)
            && (r == Some(TotalMarginCapReached) <==> slots && coinSlots && !margin)
            && (r == Some(PerCoinMarginCapReached) <==> slots && coinSlots && margin && !coinMargin)
            && (r == Some(GrossNotionalCapReached) <==> slots && coinSlots && margin && coinMargin && !gross)
            && (r == Some(TotalStopRiskCapReached) <==>
                  slots && coinSlots && margin && coinMargin && gross && s.stopRisk >= Times(p.stopRiskMax, s.account))
  {
    hide Fraction, Times;
    FractionIs(p.totalMarginMax, s.account);
    FractionIs(p.coinMarginCap, s.account);
    FractionIs(p.grossNotionalMax, s.account);
    FractionIs(p.stopRiskMax, s.account);
  }

  /** A position of this size, losing `loss` per unit of its size at its stop, fits the trade and the portfolio. */
  predicate Affordable(p: Profile, s: Exposure, loss: real, size: real) {
    && size <= Times(Times(s.account, p.nominalMargin), p.leverage)
    && Times(size, loss) <= Times(s.account, p.riskPerTradeMax)
    && size <= Times(Times(p.totalMarginMax, s.account) - s.margin, p.leverage)
    && size <= Times(Times(p.coinMarginCap, s.account) - s.coinMargin, p.leverage)
    && size <= Times(p.grossNotionalMax, s.account) - s.gross
    && Times(size, loss) <= Times(p.stopRiskMax, s.account) - s.stopRisk
  }

  lemma BelowQuotient(n: real, cap: real, d: real)
    requires d > 0.0
    ensures n <= cap / d <==> Times(n, d) <= cap
  {
    QuotientTimes(cap, d);
    ScaleOrder(n, cap / d, d);
  }

  /** The target is the greatest affordable size. */
  lemma TargetIsGreatest(p: Profile, s: Exposure, loss: real, size: real)
    requires GrantOpen(p, s) && loss > 0.0
    ensures size <= TargetOf(p, EvaluateGrant(p, s), loss).0 <==> Affordable(p, s, loss, size)
  {
    hide Fraction, Times, EvaluateGrant, Least;
    GrantIsExact(p, s);
    var g := EvaluateGrant(p, s);
    FractionIs(s.account, p.nominalMargin);
    FractionIs(Fraction(s.account, p.nominalMargin), p.leverage);
    FractionIs(s.account, p.riskPerTradeMax);
    FractionIs(g.freeMargin, p.leverage);
    FractionIs(g.remainingCoin, p.leverage);
    BelowQuotient(size, Fraction(s.account, p.riskPerTradeMax), loss);
    BelowQuotient(size, g.remainingStopRisk, loss);
    LeastBounds(Fraction(Fraction(g.account, p.nominalMargin), p.leverage),
                Fraction(g.account, p.riskPerTradeMax) / loss, Fraction(g.freeMargin, p.leverage),
                Fraction(g.remainingCoin, p.leverage), g.remainingGross, g.remainingStopRisk / loss);
  }

  /** The most whole lots whose value is affordable. */
  ghost predicate IsLot(p: Profile, s: Exposure, venue: Venue, entry: real, loss: real, lot: real) {
    && OnGrid(lot, venue.qtyStep)
    && Affordable(p, s, loss, Times(lot, entry)) && !Affordable(p, s, loss, Times(lot + venue.qtyStep, entry))
  }

  lemma FloorIsExact(value: real, step: real, x: real)
    requires step > 0.0
    ensures FloorToStep(value, step) == x <==> OnGrid(x, step) && x <= value < x + step
  {
    hide FloorToStep, CeilToStep, OnGrid;
    FloorBounds(value, step);
    WithinOneStep(value, step);
    if OnGrid(x, step) && x <= value < x + step {
      GridPointIsUnique(FloorToStep(value, step), x, value, step);
    }
  }

  lemma LotIsExact(p: Profile, s: Exposure, venue: Venue, entry: real, loss: real, lot: real)
    requires GrantOpen(p, s) && loss > 0.0 && entry > 0.0 && venue.qtyStep > 0.0
    ensures Quantity(TargetOf(p, EvaluateGrant(p, s), loss).0, entry, venue) == lot
            <==> IsLot(p, s, venue, entry, loss, lot)
  {
    hide Times, EvaluateGrant, TargetOf, FloorToStep, OnGrid, Affordable, GrantOpen;
    var target := TargetOf(p, EvaluateGrant(p, s), loss).0;
    FloorIsExact(target / entry, venue.qtyStep, lot);
    BelowQuotient(lot, target, entry);
    BelowQuotient(lot + venue.qtyStep, target, entry);
    TargetIsGreatest(p, s, loss, Times(lot, entry));
    TargetIsGreatest(p, s, loss, Times(lot + venue.qtyStep, entry));
  }

  /** Above the venue's maximum, the most whole lots within it. */
  ghost predicate CappedTo(venue: Venue, lot: real, quantity: real) {
    if venue.maxQty.Some? && lot > venue.maxQty.value then
      OnGrid(quantity, venue.qtyStep) && quantity <= venue.maxQty.value < quantity + venue.qtyStep
    else quantity == lot
  }

  lemma CapIsExact(venue: Venue, lot: real, quantity: real)
    requires venue.qtyStep > 0.0
    ensures Capped(lot, venue) == quantity <==> CappedTo(venue, lot, quantity)
  {
    hide FloorToStep, OnGrid;
    if venue.maxQty.Some? {
      FloorIsExact(venue.maxQty.value, venue.qtyStep, quantity);
    }
  }

  /** The quantity of an order: the lot, at least the venue's minimum, capped, and worth opening. */
  ghost predicate QuantityAt(p: Profile, s: Exposure, venue: Venue, entry: real, loss: real, quantity: real)
    requires p.leverage != 0.0
  {
    && (exists lot :: IsLot(p, s, venue, entry, loss, lot) && lot >= venue.minQty && CappedTo(venue, lot, quantity))
    && Times(quantity, entry) >= venue.minNotional && Times(quantity, entry) / p.leverage >= p.minTranche
  }

  lemma SizingIsExact(p: Profile, s: Exposure, venue: Venue, entry: real, distance: real, quantity: real)
    requires WellFormed(p, venue) && GrantOpen(p, s) && entry > 0.0
    ensures var r := RiskBasedSizing(p, EvaluateGrant(p, s), venue, entry, distance);
            var loss := distance / entry + p.stressCost;
            && (r.Passed? && r.sized.quantity == quantity <==>
                  loss > 0.0 && QuantityAt(p, s, venue, entry, loss, quantity))
            && (r.Passed? ==>
                  r.sized.notional == Times(r.sized.quantity, entry)
                  && r.sized.margin == Times(r.sized.quantity, entry) / p.leverage
                  && r.sized.stopRisk == Times(r.sized.notional, loss) && r.sized.stopFraction == distance / entry
                  && r.sized.target == TargetOf(p, EvaluateGrant(p, s), loss).0
                  && r.sized.binding == TargetOf(p, EvaluateGrant(p, s), loss).1)
  {
    hide Times, Fraction, EvaluateGrant, TargetOf, Quantity, Capped, IsLot, CappedTo, Violation, GrantOpen;
    var g, loss := EvaluateGrant(p, s), distance / entry + p.stressCost;
    if loss > 0.0 {
      var lot := Quantity(TargetOf(p, g, loss).0, entry, venue);
      LotIsExact(p, s, venue, entry, loss, lot);
      CapIsExact(venue, lot, quantity);
      NoViolationAfterRounding(p, g, venue, entry, loss);
      FractionIs(Capped(lot, venue), entry);
      FractionIs(Fraction(Capped(lot, venue), entry), loss);
      if other :| IsLot(p, s, venue, entry, loss, other) && other >= venue.minQty && CappedTo(venue, other, quantity) {
        LotIsExact(p, s, venue, entry, loss, other);
      }
    }
  }

  /** Why a sizing is rejected: no positive loss, too few lots, too little value, too little margin, in this order. */
  lemma SizingRefusals(p: Profile, s: Exposure, venue: Venue, entry: real, distance: real, lot: real, quantity: real)
    requires WellFormed(p, venue) && GrantOpen(p, s) && entry > 0.0
    ensures var r := RiskBasedSizing(p, EvaluateGrant(p, s), venue, entry, distance);
            var loss := distance / entry + p.stressCost;
            && (r == Rejected(InvalidRiskDenominator) <==> loss <= 0.0)
            && (loss > 0.0 && IsLot(p, s, venue, entry, loss, lot) && CappedTo(venue, lot, quantity) ==>
                  var value := Times(quantity, entry);
                  && (r == Rejected(QtyBelowMinimum) <==> lot < venue.minQty)
                  && (r == Rejected(NotionalBelowMinimum) <==> lot >= venue.minQty && value < venue.minNotional)
                  && (r == Rejected(MinimumTrancheNotMet) <==>
                        lot >= venue.minQty && value >= venue.minNotional && value / p.leverage < p.minTranche))
  {
    hide Times, Fraction, EvaluateGrant, TargetOf, Quantity, Capped, IsLot, CappedTo, Violation, GrantOpen;
    var g, loss := EvaluateGrant(p, s), distance / entry + p.stressCost;
    if loss > 0.0 {
      LotIsExact(p, s, venue, entry, loss, lot);
      CapIsExact(venue, lot, quantity);
      NoViolationAfterRounding(p, g, venue, entry, loss);
      FractionIs(quantity, entry);
    }
  }

  // ---------- the whole order ----------

  /** The stop is not further away than the profile allows. */
  predicate WithinCeiling(stop: StopProfile, atr: real, entry: real, distance: real) {
    if stop.AtrOnly? then distance <= Times(entry, stop.ceilingFraction)
    else distance <= Times(atr, stop.maxAtr) && distance <= Times(entry, stop.maxFraction)
  }

  lemma CeilingIsExact(stop: StopProfile, m: Market, tick: real, entry: real, price: real)
    requires tick > 0.0 && OrderedFractions(stop) && StopAt(stop, m, tick, entry, price)
    requires Beyond(m.direction, entry, price) > 0.0
    ensures FinalStopRejection(m.direction, entry, price, m.atr, stop).None?
            <==> WithinCeiling(stop, m.atr, entry, Beyond(m.direction, entry, price))
  {
    hide Fraction, Times, StopAt;
    StopIsExact(stop, m, tick, entry, price);
    StopMeetsMinimum(m.direction, entry, m.atr, tick, stop, m.structural);
    if stop.AtrOnly? {
      FractionIs(entry, stop.ceilingFraction);
    } else {
      FractionIs(m.atr, stop.maxAtr);
      FractionIs(entry, stop.maxFraction);
    }
  }

  /** The target: two risks on the winning side. */
  function TargetPrice(direction: string, entry: real, distance: real): real {
    if direction == "LONG" then entry + 2.0 * distance else entry - 2.0 * distance
  }

  /** The reward of two risks, less the fees of entry and exit, per unit of the entry's value. */
  function NetReward(p: Profile, direction: string, entry: real, distance: real): real
    requires entry != 0.0
  {
    (2.0 * distance - Times(entry, p.maker) - Times(TargetPrice(direction, entry, distance), p.taker)) / entry
  }

  /** An order that may be placed: open limits, prices and quantity as described, and enough left after fees. */
  ghost predicate IsOrder(p: Profile, s: Exposure, venue: Venue, m: Market, entry: real, stop: real, quantity: real)
    requires WellFormed(p, venue)
  {
    var distance := Beyond(m.direction, entry, stop);
    && GrantOpen(p, s)
    && EntryAt(m, venue.tick, entry) && StopAt(p.stop, m, venue.tick, entry, stop)
    && distance > 0.0 && WithinCeiling(p.stop, m.atr, entry, distance) && entry > 0.0
    && distance / entry + p.stressCost > 0.0
    && QuantityAt(p, s, venue, entry, distance / entry + p.stressCost, quantity)
    && quantity != 0.0
    && NetReward(p, m.direction, entry, distance) >= p.netTpMin
  }

  lemma NetIsExact(p: Profile, direction: string, entry: real, stop: real, quantity: real)
    requires entry > 0.0 && Beyond(direction, entry, stop) > 0.0
    ensures var distance := Beyond(direction, entry, stop);
            var e := EconomicsOf(p, entry, stop, TargetPrice(direction, entry, distance), quantity);
            (e.Some? <==> quantity != 0.0)
            && (e.Some? ==> e.value.netFraction == NetReward(p, direction, entry, distance))
  {
    hide EconomicsOf;
    var distance := Beyond(direction, entry, stop);
    var tp := TargetPrice(direction, entry, distance);
    assert Magnitude(tp - entry) == 2.0 * distance;
    EconomicsExist(p, entry, stop, tp, quantity);
    if quantity != 0.0 {
      NetFractionIgnoresQuantity(p, entry, stop, tp, quantity);
    }
  }

  lemma EconomicsExist(p: Profile, entry: real, stop: real, tp: real, quantity: real)
    requires entry != 0.0 && entry != stop
    ensures EconomicsOf(p, entry, stop, tp, quantity).Some? <==> quantity != 0.0
  {
    if quantity != 0.0 {
      ProductNotZero(entry, quantity);
    }
  }

  /** With prices given, construction succeeds exactly for the quantity described. */
  lemma WithStopIsExact(p: Profile, s: Exposure, venue: Venue, m: Market, entry: real, stop: real, quantity: real)
    requires WellFormed(p, venue) && GrantOpen(p, s)
    requires EntryAt(m, venue.tick, entry) && StopAt(p.stop, m, venue.tick, entry, stop)
    ensures var o := ConstructWithStop(p, EvaluateGrant(p, s), venue, m, entry, stop);
            && (o.Constructed? && o.sized.quantity == quantity <==> IsOrder(p, s, venue, m, entry, stop, quantity))
            && (o.Constructed? ==> o.entry == entry && o.stop == stop
                                   && o.tp == TargetPrice(m.direction, entry, Beyond(m.direction, entry, stop)))
  {
    hide Times, EvaluateGrant, RiskBasedSizing, EconomicsOf, TpPrice, FinalStopRejection, QuantityAt, GrantOpen, OnGrid,
         NetReward, WantedDistance, WithinCeiling;
    var distance := Beyond(m.direction, entry, stop);
    var g, tp := EvaluateGrant(p, s), TargetPrice(m.direction, entry, distance);
    TargetIsTwiceTheRisk(m.direction, entry, stop, venue.tick);
    if distance > 0.0 {
      CeilingIsExact(p.stop, m, venue.tick, entry, stop);
      if FinalStopRejection(m.direction, entry, stop, m.atr, p.stop).None? {
        AcceptedStopNeedsPositiveEntry(m.direction, entry, stop, m.atr, p.stop);
        SizingIsExact(p, s, venue, entry, distance, quantity);
        var sizing := RiskBasedSizing(p, g, venue, entry, distance);
        if sizing.Passed? {
          NetIsExact(p, m.direction, entry, stop, sizing.sized.quantity);
        }
      }
    }
  }

  /** An order is constructed exactly when there is one to place, and it is that order. */
  lemma ConstructsExactly(p: Profile, s: Exposure, venue: Venue, m: Market, entry: real, stop: real, quantity: real)
    requires WellFormed(p, venue)
    ensures var o := Construct(p, EvaluateGrant(p, s), venue, m);
            o.Constructed? && o.entry == entry && o.stop == stop && o.sized.quantity == quantity
            <==> IsOrder(p, s, venue, m, entry, stop, quantity)
  {
    hide Times, EvaluateGrant, ConstructWithStop, QuantityAt, GrantOpen, NetReward, WantedDistance, WithinCeiling,
         EntryAt, StopAt, StopPrice, EntryPrice;
    GrantIsExact(p, s);
    EntryIsExact(m, venue.tick, entry);
    StopIsExact(p.stop, m, venue.tick, entry, stop);
    var e := EntryPrice(m.direction, m.reference, m.atr, venue.tick);
    var r := StopOf(p.stop, m, venue.tick, e);
    if GrantOpen(p, s) && r.Success? && r.value.Some? {
      EntryIsExact(m, venue.tick, e);
      StopIsExact(p.stop, m, venue.tick, e, r.value.value);
      WithStopIsExact(p, s, venue, m, e, r.value.value, quantity);
    }
  }

  lemma NetAmount(p: Profile, entry: real, stop: real, tp: real, quantity: real)
    ensures var e := EconomicsOf(p, entry, stop, tp, quantity);
            e.Some? ==> e.value.netTp == Times(e.value.netFraction, Times(quantity, entry))
  {
    hide Magnitude;
    var e := EconomicsOf(p, entry, stop, tp, quantity);
    if e.Some? {
      QuotientTimes(e.value.netTp, Fraction(entry, quantity));
    }
  }

  /** The amounts that a constructed order reports. */
  lemma OrderFigures(p: Profile, s: Exposure, venue: Venue, m: Market, size: real)
    requires WellFormed(p, venue) && Construct(p, EvaluateGrant(p, s), venue, m).Constructed?
    ensures var o := Construct(p, EvaluateGrant(p, s), venue, m);
            var distance := Beyond(m.direction, o.entry, o.stop);
            && o.direction == m.direction && o.entry > 0.0
            && o.tp == TargetPrice(m.direction, o.entry, distance)
            && var loss := distance / o.entry + p.stressCost;
               && (size <= o.sized.target <==> Affordable(p, s, loss, size))
               && o.sized.notional == Times(o.sized.quantity, o.entry)
               && o.sized.margin == Times(o.sized.quantity, o.entry) / p.leverage
               && o.sized.stopRisk == Times(o.sized.notional, loss) && o.sized.stopFraction == distance / o.entry
               && o.economics.netFraction == NetReward(p, m.direction, o.entry, distance)
               && o.economics.netTp == Times(o.economics.netFraction, o.sized.notional)
  {
    hide Times, EvaluateGrant, RiskBasedSizing, EconomicsOf, FinalStopRejection, QuantityAt, GrantOpen, NetReward,
         EntryAt, StopAt, StopPrice, EntryPrice, WithinCeiling, Affordable, TargetOf, TpPrice, WantedDistance;
    var o := Construct(p, EvaluateGrant(p, s), venue, m);
    var distance := Beyond(m.direction, o.entry, o.stop);
    ConstructsExactly(p, s, venue, m, o.entry, o.stop, o.sized.quantity);
    WithStopIsExact(p, s, venue, m, o.entry, o.stop, o.sized.quantity);
    SizingIsExact(p, s, venue, o.entry, distance, o.sized.quantity);
    NetIsExact(p, m.direction, o.entry, o.stop, o.sized.quantity);
    NetAmount(p, o.entry, o.stop, o.tp, o.sized.quantity);
    TargetIsGreatest(p, s, distance / o.entry + p.stressCost, size);
  }

  // ---------- runs ----------

  /** An order that was placed, and the coin it was placed on. */
  datatype Placement = Placement(coin: string, sized: Sized)

  /** The orders that a run of attempts placed, in order. */
  function Placements(p: Profile, t: Totals, attempts: seq<Attempt>): seq<Placement> {
    if attempts == [] then []
    else
      var earlier, a := attempts[..|attempts| - 1], attempts[|attempts| - 1];
      var o := Construct(p, EvaluateGrant(p, ExposureOf(PlaceAll(p, t, earlier), a.coin)), a.venue, a.market);
      Placements(p, t, earlier) + if o.Constructed? then [Placement(a.coin, o.sized)] else []
  }

  /** What the placements add up to, on every coin or on one. */
  function Added(placed: seq<Placement>, coin: Option<string>, part: Sized -> real): real {
    if placed == [] then 0.0
    else
      var last := placed[|placed| - 1];
      Added(placed[..|placed| - 1], coin, part)
      + if coin.None? || coin.value == last.coin then part(last.sized) else 0.0
  }

  function Number(placed: seq<Placement>, coin: string): nat {
    if placed == [] then 0
    else Number(placed[..|placed| - 1], coin) + if placed[|placed| - 1].coin == coin then 1 else 0
  }

  lemma AddedLast(placed: seq<Placement>, last: Placement, coin: Option<string>, part: Sized -> real)
    ensures Added(placed + [last], coin, part)
            == Added(placed, coin, part) + if coin.None? || coin.value == last.coin then part(last.sized) else 0.0
  {
    assert (placed + [last])[..|placed|] == placed;
  }

  lemma NumberLast(placed: seq<Placement>, last: Placement, coin: string)
    ensures Number(placed + [last], coin) == Number(placed, coin) + if last.coin == coin then 1 else 0
  {
    assert (placed + [last])[..|placed|] == placed;
  }

  const MARGIN: Sized -> real := (s: Sized) => s.margin

  const NOTIONAL: Sized -> real := (s: Sized) => s.notional

  const STOP_RISK: Sized -> real := (s: Sized) => s.stopRisk

  /** The exposure after a run is the exposure before it and what its placed orders add, in total and on every coin. */
  lemma {:induction false} RunAddsUp(p: Profile, t: Totals, attempts: seq<Attempt>, coin: string)
    ensures var after, placed := PlaceAll(p, t, attempts), Placements(p, t, attempts);
            && after.account == t.account && after.openPending == t.openPending + |placed|
            && after.margin == t.margin + Added(placed, None, MARGIN)
            && after.gross == t.gross + Added(placed, None, NOTIONAL)
            && after.stopRisk == t.stopRisk + Added(placed, None, STOP_RISK)
            && MarginOf(after, coin) == MarginOf(t, coin) + Added(placed, Some(coin), MARGIN)
            && CountOf(after, coin) == CountOf(t, coin) + Number(placed, coin)
  {
    hide Construct, EvaluateGrant, Added, Number, MarginOf, CountOf;
    if attempts == [] {
      NothingAdded(coin);
    } else {
      var earlier, a := attempts[..|attempts| - 1], attempts[|attempts| - 1];
      RunAddsUp(p, t, earlier, coin);
      var before, placed := PlaceAll(p, t, earlier), Placements(p, t, earlier);
      var o := Construct(p, EvaluateGrant(p, ExposureOf(before, a.coin)), a.venue, a.market);
      PlacedOnCoin(p, before, a, coin);
      if o.Constructed? {
        AddedLast(placed, Placement(a.coin, o.sized), None, MARGIN);
        AddedLast(placed, Placement(a.coin, o.sized), None, NOTIONAL);
        AddedLast(placed, Placement(a.coin, o.sized), None, STOP_RISK);
        AddedLast(placed, Placement(a.coin, o.sized), Some(coin), MARGIN);
        NumberLast(placed, Placement(a.coin, o.sized), coin);
      } else {
        assert placed + [] == placed;
      }
    }
  }

  lemma NothingAdded(coin: string)
    ensures Added([], None, MARGIN) == Added([], None, NOTIONAL) == Added([], None, STOP_RISK) == 0.0
    ensures Added([], Some(coin), MARGIN) == 0.0 && Number([], coin) == 0
  {
  }

  lemma PlacedOnCoin(p: Profile, t: Totals, a: Attempt, coin: string)
    ensures var o, after := Construct(p, EvaluateGrant(p, ExposureOf(t, a.coin)), a.venue, a.market), Place(p, t, a);
            && (!o.Constructed? ==> after == t)
            && (o.Constructed? ==>
                  MarginOf(after, coin) == MarginOf(t, coin) + (if coin == a.coin then o.sized.margin else 0.0)
                  && CountOf(after, coin) == CountOf(t, coin) + if coin == a.coin then 1 else 0)
  {
    hide Construct, EvaluateGrant;
  }
}
