/** Closing a linear perpetual trade: P&L, prorated fees, funding, and the drawdown of an equity series. */
module FuturesAccounting {
  import opened Prelude
  import opened RealArithmetic
  import opened Sorting

  datatype Direction = Long | Short | Flat

  datatype Action = OpenLong | CloseLong | OpenShort | CloseShort | OtherAction

  datatype Fill = Fill(
    tradeId: string, symbol: string, direction: Direction, action: Action, quantity: real, price: real, fee: real,
    feeAsset: string, occurredAt: int, settlementAsset: string, contractSize: real, source: string)

  datatype Funding = Funding(eventId: string, tradeId: string, symbol: string, direction: Direction, amount: real,
      asset: string)

  datatype Closed = Closed(
    direction: Direction, symbol: string, quantity: real, entryVwap: real, exitVwap: real, gross: real, entryFee: real,
    exitFee: real, otherFees: real, funding: real, net: real, openedAt: int, closedAt: int, settlementAsset: string,
    contractSize: real, source: string)

  datatype AccountingError =
    | LeverageNotPositive | OtherFeesNegative | FillAttribution | FillsRequired | MixedDirections | DirectionInvalid
    | DirectionsDiffer | EntryAction | ExitAction | MixedSymbols | MixedSettlementAssets | FeeAssetConversion
    | MixedContractSizes | ContractSizeNotPositive | ExitQuantityRequired | ExitExceedsEntry | NonPositiveFill
    | NegativeFee | DuplicateFunding | FundingAttribution | MixedSources

  // ---------- sums over fills ----------

  function Quantity(fills: seq<Fill>): real {
    if fills == [] then 0.0 else fills[0].quantity + Quantity(fills[1..])
  }

  function Turnover(f: Fill): real {
    f.quantity * f.price
  }

  function Value(fills: seq<Fill>): real {
    if fills == [] then 0.0 else Turnover(fills[0]) + Value(fills[1..])
  }

  function Fees(fills: seq<Fill>): real {
    if fills == [] then 0.0 else fills[0].fee + Fees(fills[1..])
  }

  function Earliest(fills: seq<Fill>): int
    requires fills != []
  {
    if |fills| == 1 then fills[0].occurredAt
    else var rest := Earliest(fills[1..]); if fills[0].occurredAt <= rest then fills[0].occurredAt else rest
  }

  function Latest(fills: seq<Fill>): int
    requires fills != []
  {
    if |fills| == 1 then fills[0].occurredAt
    else var rest := Latest(fills[1..]); if fills[0].occurredAt >= rest then fills[0].occurredAt else rest
  }

  predicate PositiveFill(f: Fill) {
    f.price > 0.0 && f.quantity > 0.0
  }

  function Vwap(fills: seq<Fill>): Result<real, AccountingError> {
    if fills == [] then Failure(FillsRequired)
    else if exists f | f in fills :: !PositiveFill(f) then Failure(NonPositiveFill)
    else if Quantity(fills) <= 0.0 then Failure(NonPositiveFill)
    else Success(Value(fills) / Quantity(fills))
  }

  function Scale(a: real, b: real): real {
    a * b
  }

  /** Signed so that a favorable move is positive. */
  function GrossPnl(direction: Direction, quantity: real, entryVwap: real, exitVwap: real, contractSize: real): real {
    Scale(Scale(if direction == Long then exitVwap - entryVwap else entryVwap - exitVwap, quantity), contractSize)
  }

  // ---------- checks shared by all fills of a trade ----------

  function DirectionOf(fills: seq<Fill>): Result<Direction, AccountingError> {
    if fills == [] then Failure(FillsRequired)
    else if exists f | f in fills :: f.direction != fills[0].direction then Failure(MixedDirections)
    else if fills[0].direction == Flat then Failure(DirectionInvalid)
    else Success(fills[0].direction)
  }

  function EntryActionOf(d: Direction): Action {
    if d == Long then OpenLong else OpenShort
  }

  function ExitActionOf(d: Direction): Action {
    if d == Long then CloseLong else CloseShort
  }

  /** The first of the checks on attribution, actions, assets and sizes that fails. */
  function FillFault(tradeId: string, entry: seq<Fill>, exit: seq<Fill>): Option<AccountingError> {
    var all := entry + exit;
    if exists f | f in all :: f.tradeId != tradeId then Some(FillAttribution)
    else match DirectionOf(entry)
      case Failure(e) => Some(e)
      case Success(d) =>
        match DirectionOf(exit)
        case Failure(e) => Some(e)
        case Success(x) =>
          var first := entry[0];
          if x != d then Some(DirectionsDiffer)
          else if exists f | f in entry :: f.action != EntryActionOf(d) then Some(EntryAction)
          else if exists f | f in exit :: f.action != ExitActionOf(d) then Some(ExitAction)
          else if exists f | f in all :: f.symbol != first.symbol then Some(MixedSymbols)
          else if exists f | f in all :: f.settlementAsset != first.settlementAsset then Some(MixedSettlementAssets)
          else if exists f | f in all :: f.feeAsset != first.settlementAsset then Some(FeeAssetConversion)
          else if exists f | f in all :: f.contractSize != first.contractSize then Some(MixedContractSizes)
          else if first.contractSize <= 0.0 then Some(ContractSizeNotPositive)
          else None
  }

  function QuantityFault(entry: seq<Fill>, exit: seq<Fill>): Option<AccountingError> {
    if Quantity(exit) <= 0.0 then Some(ExitQuantityRequired)
    else if Quantity(exit) > Quantity(entry) then Some(ExitExceedsEntry)
    else match Vwap(entry)
      case Failure(e) => Some(e)
      case Success(_) =>
        match Vwap(exit)
        case Failure(e) => Some(e)
        case Success(_) => if exists f | f in entry + exit :: f.fee < 0.0 then Some(NegativeFee) else None
  }

  // ---------- funding ----------

  datatype Attribution = Attribution(tradeId: string, symbol: string, asset: string, direction: Direction)

  predicate Attributed(e: Funding, trade: Attribution) {
    e.tradeId == trade.tradeId && e.symbol == trade.symbol && e.asset == trade.asset && e.direction == trade.direction
  }

  /** `_funding_amount` over the events not yet seen. */
  function FundingFrom(events: seq<Funding>, seen: set<string>, trade: Attribution): Result<real, AccountingError> {
    if events == [] then Success(0.0)
    else if events[0].eventId in seen then Failure(DuplicateFunding)
    else if !Attributed(events[0], trade) then Failure(FundingAttribution)
    else match FundingFrom(events[1..], seen + {events[0].eventId}, trade)
      case Success(rest) => Success(events[0].amount + rest)
      case Failure(e) => Failure(e)
  }

  function FundingSum(events: seq<Funding>): real {
    if events == [] then 0.0 else events[0].amount + FundingSum(events[1..])
  }

  method FundingAmount(events: seq<Funding>, trade: Attribution) returns (r: Result<real, AccountingError>)
    ensures r == FundingFrom(events, {}, trade)
  {
    hide Attributed;
    var amount := 0.0;
    var seen: set<string> := {};
    for i := 0 to |events|
      invariant FundingFrom(events, {}, trade) == match FundingFrom(events[i..], seen, trade)
                                                 case Success(rest) => Success(amount + rest)
                                                 case Failure(e) => Failure(e)
    {
      assert events[i..][1..] == events[i + 1..];
      var event := events[i];
      if event.eventId in seen {
        return Failure(DuplicateFunding);
      }
      if !Attributed(event, trade) {
        return Failure(FundingAttribution);
      }
      seen := seen + {event.eventId};
      amount := amount + event.amount;
    }
    assert events[|events|..] == [];
    r := Success(amount);
  }

  ghost predicate CleanFunding(events: seq<Funding>, seen: set<string>, trade: Attribution) {
    && (forall e :: e in events ==> Attributed(e, trade) && e.eventId !in seen)
    && Distinct((e: Funding) => e.eventId, events)
  }

  /** Funding is accepted exactly when every event belongs to the trade
      and none is repeated, and is then the plain sum. */
  lemma {:induction false} FundingIffClean(events: seq<Funding>, seen: set<string>, trade: Attribution)
    ensures FundingFrom(events, seen, trade).Success? <==> CleanFunding(events, seen, trade)
    ensures CleanFunding(events, seen, trade) ==> FundingFrom(events, seen, trade) == Success(FundingSum(events))
  {
    hide Attributed;
    if events != [] {
      var first, rest := events[0], events[1..];
      assert events == [first] + rest;
      FundingIffClean(rest, seen + {first.eventId}, trade);
      CleanSplit(events, seen, trade);
    }
  }

  lemma CleanSplit(events: seq<Funding>, seen: set<string>, trade: Attribution)
    requires events != []
    ensures CleanFunding(events, seen, trade)
            <==>
              Attributed(events[0], trade) && events[0].eventId !in seen
              && CleanFunding(events[1..], seen + {events[0].eventId}, trade)
  {
    hide Attributed, Distinct;
    assert events == [events[0]] + events[1..];
    DistinctCons((e: Funding) => e.eventId, events[0], events[1..]);
  }

  // ---------- closing a trade ----------

  function AttributionOf(tradeId: string, entry: seq<Fill>): Attribution
    requires entry != []
  {
    Attribution(tradeId, entry[0].symbol, entry[0].settlementAsset, entry[0].direction)
  }

  function ProratedFee(entry: seq<Fill>, exit: seq<Fill>): real
    requires Quantity(entry) != 0.0
  {
    Scale(Fees(entry), Quantity(exit) / Quantity(entry))
  }

  function CloseTrade(tradeId: string, entry: seq<Fill>, exit: seq<Fill>, events: seq<Funding>, leverage: real,
      otherFees: real): Result<Closed, AccountingError>
  {
    if leverage <= 0.0 then Failure(LeverageNotPositive)
    else if otherFees < 0.0 then Failure(OtherFeesNegative)
    else match FillFault(tradeId, entry, exit)
      case Some(e) => Failure(e)
      case None =>
        match QuantityFault(entry, exit)
        case Some(e) => Failure(e)
        case None =>
          match FundingFrom(events, {}, AttributionOf(tradeId, entry))
          case Failure(e) => Failure(e)
          case Success(funding) =>
            var entryVwap, exitVwap := Vwap(entry).value, Vwap(exit).value;
            var gross := GrossPnl(entry[0].direction, Quantity(exit), entryVwap, exitVwap, entry[0].contractSize);
            var entryFee, exitFee := ProratedFee(entry, exit), Fees(exit);
            if exists f | f in entry + exit :: f.source != entry[0].source then Failure(MixedSources)
            else Success(Closed(entry[0].direction, entry[0].symbol, Quantity(exit), entryVwap, exitVwap, gross,
                                entryFee, exitFee, otherFees, funding,
                                gross - entryFee - exitFee - otherFees + funding, Earliest(entry), Latest(exit),
                                entry[0].settlementAsset, entry[0].contractSize, entry[0].source))
  }

  /** Everything that the fills of one trade and one side must share with its first entry fill. */
  predicate Fits(f: Fill, tradeId: string, like: Fill, action: Action) {
    && f.tradeId == tradeId && f.direction == like.direction && f.action == action && f.symbol == like.symbol
    && f.settlementAsset == like.settlementAsset && f.feeAsset == like.settlementAsset
    && f.contractSize == like.contractSize
    && f.source == like.source && PositiveFill(f) && f.fee >= 0.0
  }

  ghost predicate Acceptable(tradeId: string, entry: seq<Fill>, exit: seq<Fill>, events: seq<Funding>, leverage: real,
      otherFees: real) {
    && leverage > 0.0 && otherFees >= 0.0 && entry != [] && exit != []
    && var like := entry[0];
       like.direction != Flat && like.contractSize > 0.0
       && (forall f :: f in entry ==> Fits(f, tradeId, like, EntryActionOf(like.direction)))
       && (forall f :: f in exit ==> Fits(f, tradeId, like, ExitActionOf(like.direction)))
       && Quantity(exit) <= Quantity(entry)
       && CleanFunding(events, {}, AttributionOf(tradeId, entry))
  }

  lemma {:induction false} PositiveTotals(fills: seq<Fill>)
    requires forall f :: f in fills ==> PositiveFill(f)
    ensures Quantity(fills) >= 0.0 && Value(fills) >= 0.0
    ensures fills != [] ==> Quantity(fills) > 0.0 && Value(fills) > 0.0
  {
    if fills != [] {
      assert fills == [fills[0]] + fills[1..];
      assert PositiveFill(fills[0]);
      PositiveTurnover(fills[0].quantity, fills[0].price);
      PositiveTotals(fills[1..]);
    }
  }

  lemma PositiveTurnover(quantity: real, price: real)
    requires quantity > 0.0 && price > 0.0
    ensures quantity * price > 0.0
  {
  }

  lemma FillsAccepted(tradeId: string, entry: seq<Fill>, exit: seq<Fill>)
    ensures FillFault(tradeId, entry, exit).None? <==>
              entry != [] && exit != [] && entry[0].direction != Flat && entry[0].contractSize > 0.0
              && (forall f :: f in entry ==> SameTrade(f, tradeId, entry[0], EntryActionOf(entry[0].direction)))
              && (forall f :: f in exit ==> SameTrade(f, tradeId, entry[0], ExitActionOf(entry[0].direction)))
  {
    assert forall f :: f in entry + exit <==> f in entry || f in exit;
    if entry != [] && exit != [] {
      assert entry[0] in entry && exit[0] in exit;
    }
  }

  predicate SameTrade(f: Fill, tradeId: string, like: Fill, action: Action) {
    && f.tradeId == tradeId && f.direction == like.direction && f.action == action && f.symbol == like.symbol
    && f.settlementAsset == like.settlementAsset && f.feeAsset == like.settlementAsset
    && f.contractSize == like.contractSize
  }

  lemma QuantitiesAccepted(entry: seq<Fill>, exit: seq<Fill>)
    requires entry != [] && exit != []
    ensures QuantityFault(entry, exit).None? <==>
              (forall f :: f in entry + exit ==> PositiveFill(f) && f.fee >= 0.0) && Quantity(exit) <= Quantity(entry)
    ensures QuantityFault(entry, exit).None? ==> Quantity(entry) > 0.0 && Quantity(exit) > 0.0
  {
    hide Quantity, Value, PositiveFill;
    assert forall f :: f in entry + exit <==> f in entry || f in exit;
    if (forall f :: f in entry + exit ==> PositiveFill(f)) {
      PositiveTotals(entry);
      PositiveTotals(exit);
    }
  }

  /** A close is accepted exactly when the fills and the funding belong
      together, are positive, and the exit is not larger. */
  lemma AcceptedIffAcceptable(tradeId: string, entry: seq<Fill>, exit: seq<Fill>, events: seq<Funding>, leverage: real,
      otherFees: real)
    ensures CloseTrade(tradeId, entry, exit, events, leverage, otherFees).Success?
            <==> Acceptable(tradeId, entry, exit, events, leverage, otherFees)
  {
    hide FillFault, QuantityFault, FundingFrom, Vwap, GrossPnl, CleanFunding, PositiveFill, Quantity;
    FillsAccepted(tradeId, entry, exit);
    assert forall f :: f in entry + exit <==> f in entry || f in exit;
    if entry != [] && exit != [] {
      QuantitiesAccepted(entry, exit);
      FundingIffClean(events, {}, AttributionOf(tradeId, entry));
      SourcesAccepted(tradeId, entry, exit);
    }
  }

  lemma SourcesAccepted(tradeId: string, entry: seq<Fill>, exit: seq<Fill>)
    requires entry != []
    ensures (forall f :: f in entry + exit ==> PositiveFill(f) && f.fee >= 0.0)
            && (forall f :: f in entry + exit ==> f.source == entry[0].source)
            && (forall f :: f in entry ==> SameTrade(f, tradeId, entry[0], EntryActionOf(entry[0].direction)))
            && (forall f :: f in exit ==> SameTrade(f, tradeId, entry[0], ExitActionOf(entry[0].direction)))
            <==> (forall f :: f in entry ==> Fits(f, tradeId, entry[0], EntryActionOf(entry[0].direction)))
                 && (forall f :: f in exit ==> Fits(f, tradeId, entry[0], ExitActionOf(entry[0].direction)))
  {
    hide PositiveFill;
    assert forall f :: f in entry + exit <==> f in entry || f in exit;
  }

  // ---------- prices and times of a close ----------

  lemma TurnoverInRange(f: Fill, low: real, high: real)
    requires PositiveFill(f) && low <= f.price <= high
    ensures Scale(low, f.quantity) <= Turnover(f) <= Scale(high, f.quantity)
  {
    ScaleOrder(low, f.price, f.quantity);
    ScaleOrder(f.price, high, f.quantity);
  }

  lemma {:induction false} ValueInRange(fills: seq<Fill>, low: real, high: real)
    requires forall f :: f in fills ==> PositiveFill(f) && low <= f.price <= high
    ensures Scale(low, Quantity(fills)) <= Value(fills) <= Scale(high, Quantity(fills))
  {
    hide Scale, Turnover;
    if fills == [] {
      ScaleOfZero(low);
      ScaleOfZero(high);
    } else {
      assert fills == [fills[0]] + fills[1..];
      ValueInRange(fills[1..], low, high);
      assert PositiveFill(fills[0]);
      TurnoverInRange(fills[0], low, high);
      ScaleAdds(low, fills[0].quantity, Quantity(fills[1..]));
      ScaleAdds(high, fills[0].quantity, Quantity(fills[1..]));
    }
  }

  /** A VWAP lies between the lowest and the highest fill price. */
  lemma VwapInRange(fills: seq<Fill>, low: real, high: real)
    requires Vwap(fills).Success? && forall f :: f in fills ==> low <= f.price <= high
    ensures low <= Vwap(fills).value <= high
  {
    hide Quantity, Value;
    forall f | f in fills
      ensures PositiveFill(f)
    {
    }
    ValueInRange(fills, low, high);
    var q := Quantity(fills);
    QuotientTimes(Value(fills), q);
    ScaleOrder(low, Value(fills) / q, q);
    ScaleOrder(Value(fills) / q, high, q);
  }

  lemma {:induction false} EarliestAndLatest(fills: seq<Fill>)
    requires fills != []
    ensures (exists f :: f in fills && f.occurredAt == Earliest(fills))
            && (exists f :: f in fills && f.occurredAt == Latest(fills))
    ensures forall f :: f in fills ==> Earliest(fills) <= f.occurredAt <= Latest(fills)
  {
    assert fills[0] in fills;
    if |fills| > 1 {
      EarliestAndLatest(fills[1..]);
      assert fills == [fills[0]] + fills[1..];
      var e :| e in fills[1..] && e.occurredAt == Earliest(fills[1..]);
      var l :| l in fills[1..] && l.occurredAt == Latest(fills[1..]);
      assert e in fills && l in fills;
    }
  }

  /** A trade is opened at its first entry fill and closed at its last exit fill. */
  lemma CloseTimes(tradeId: string, entry: seq<Fill>, exit: seq<Fill>, events: seq<Funding>, leverage: real,
      otherFees: real)
    requires CloseTrade(tradeId, entry, exit, events, leverage, otherFees).Success?
    ensures var c := CloseTrade(tradeId, entry, exit, events, leverage, otherFees).value;
            && (forall f :: f in entry ==> c.openedAt <= f.occurredAt)
            && (exists f :: f in entry && f.occurredAt == c.openedAt)
            && (forall f :: f in exit ==> f.occurredAt <= c.closedAt)
            && (exists f :: f in exit && f.occurredAt == c.closedAt)
  {
    hide QuantityFault, FundingFrom, Vwap, GrossPnl, Earliest, Latest, Quantity, Fees;
    FillsAccepted(tradeId, entry, exit);
    EarliestAndLatest(entry);
    EarliestAndLatest(exit);
  }

  // ---------- partial closes add up ----------

  /** One partial close: its exit fills, its funding and its other fees. */
  datatype Part = Part(exit: seq<Fill>, events: seq<Funding>, otherFees: real)

  function Exits(parts: seq<Part>): seq<Fill> {
    if parts == [] then [] else parts[0].exit + Exits(parts[1..])
  }

  function Events(parts: seq<Part>): seq<Funding> {
    if parts == [] then [] else parts[0].events + Events(parts[1..])
  }

  function OtherFees(parts: seq<Part>): real {
    if parts == [] then 0.0 else parts[0].otherFees + OtherFees(parts[1..])
  }

  /** The money figures of a close. */
  datatype Money = Money(gross: real, entryFee: real, exitFee: real, otherFees: real, funding: real, net: real)

  function MoneyOf(c: Closed): Money {
    Money(c.gross, c.entryFee, c.exitFee, c.otherFees, c.funding, c.net)
  }

  function Plus(a: Money, b: Money): Money {
    Money(a.gross + b.gross, a.entryFee + b.entryFee, a.exitFee + b.exitFee, a.otherFees + b.otherFees,
          a.funding + b.funding, a.net + b.net)
  }

  const NO_MONEY := Money(0.0, 0.0, 0.0, 0.0, 0.0, 0.0)

  /** The sum of the closes of all parts. */
  function SumOfCloses(tradeId: string, entry: seq<Fill>, parts: seq<Part>, leverage: real): Money {
    if parts == [] then NO_MONEY
    else
      var close := CloseTrade(tradeId, entry, parts[0].exit, parts[0].events, leverage, parts[0].otherFees);
      var rest := SumOfCloses(tradeId, entry, parts[1..], leverage);
      if close.Success? then Plus(MoneyOf(close.value), rest) else rest
  }

  lemma {:induction false} FillTotalsOfConcat(a: seq<Fill>, b: seq<Fill>)
    ensures Quantity(a + b) == Quantity(a) + Quantity(b) && Value(a + b) == Value(a) + Value(b)
            && Fees(a + b) == Fees(a) + Fees(b)
  {
    if a == [] {
      assert a + b == b;
    } else {
      assert (a + b)[1..] == a[1..] + b;
      FillTotalsOfConcat(a[1..], b);
    }
  }

  lemma {:induction false} FundingOfConcat(a: seq<Funding>, b: seq<Funding>)
    ensures FundingSum(a + b) == FundingSum(a) + FundingSum(b)
  {
    if a == [] {
      assert a + b == b;
    } else {
      assert (a + b)[1..] == a[1..] + b;
      FundingOfConcat(a[1..], b);
    }
  }

  /** The money of a close, as a linear function of what was exited. */
  function Linear(entry: seq<Fill>, quantity: real, value: real, fees: real, otherFees: real, funding: real): Money
    requires entry != [] && Quantity(entry) != 0.0
  {
    var move := value - Scale(Value(entry) / Quantity(entry), quantity);
    var gross := Scale(if entry[0].direction == Long then move else -move, entry[0].contractSize);
    var entryFee := Scale(Fees(entry) / Quantity(entry), quantity);
    Money(gross, entryFee, fees, otherFees, funding, gross - entryFee - fees - otherFees + funding)
  }

  lemma GrossIsLinear(entryVwap: real, value: real, quantity: real)
    requires quantity != 0.0
    ensures Scale(value / quantity - entryVwap, quantity) == value - Scale(entryVwap, quantity)
    ensures Scale(entryVwap - value / quantity, quantity) == -(value - Scale(entryVwap, quantity))
  {
    QuotientTimes(value, quantity);
    Distribute(entryVwap, value / quantity, quantity);
    Distribute(value / quantity, entryVwap, quantity);
  }

  lemma ProrationIsLinear(fees: real, part: real, whole: real)
    requires whole != 0.0
    ensures Scale(fees, part / whole) == Scale(fees / whole, part)
  {
    QuotientTimes(part, whole);
    QuotientTimes(fees, whole);
    Associate(fees / whole, whole, part / whole);
    assert whole * (part / whole) == part;
  }

  lemma CloseIsLinear(tradeId: string, entry: seq<Fill>, exit: seq<Fill>, events: seq<Funding>, leverage: real,
      otherFees: real)
    requires CloseTrade(tradeId, entry, exit, events, leverage, otherFees).Success?
    ensures entry != [] && Quantity(entry) > 0.0
    ensures MoneyOf(CloseTrade(tradeId, entry, exit, events, leverage, otherFees).value)
            == Linear(entry, Quantity(exit), Value(exit), Fees(exit), otherFees, FundingSum(events))
  {
    hide FillFault, QuantityFault, FundingFrom, CleanFunding, PositiveFill, Quantity, Value, Fees, Scale;
    FillsAccepted(tradeId, entry, exit);
    QuantitiesAccepted(entry, exit);
    VwapsOf(entry, exit);
    FundingIffClean(events, {}, AttributionOf(tradeId, entry));
    GrossIsLinear(Value(entry) / Quantity(entry), Value(exit), Quantity(exit));
    ProrationIsLinear(Fees(entry), Quantity(exit), Quantity(entry));
  }

  lemma VwapsOf(entry: seq<Fill>, exit: seq<Fill>)
    requires QuantityFault(entry, exit).None?
    ensures Quantity(entry) > 0.0 && Quantity(exit) > 0.0
    ensures Vwap(entry) == Success(Value(entry) / Quantity(entry))
            && Vwap(exit) == Success(Value(exit) / Quantity(exit))
  {
    hide Quantity, Value, PositiveFill;
  }

  lemma LinearAddsUp(entry: seq<Fill>, q: real, v: real, f: real, o: real, u: real, q1: real, v1: real, f1: real,
      o1: real, u1: real)
    requires entry != [] && Quantity(entry) != 0.0
    ensures Linear(entry, q + q1, v + v1, f + f1, o + o1, u + u1)
            == Plus(Linear(entry, q, v, f, o, u), Linear(entry, q1, v1, f1, o1, u1))
  {
    hide Quantity, Value, Fees;
    var vwap, rate, size := Value(entry) / Quantity(entry), Fees(entry) / Quantity(entry), entry[0].contractSize;
    ScaleAdds(vwap, q, q1);
    ScaleAdds(rate, q, q1);
    var m, m1 := v - Scale(vwap, q), v1 - Scale(vwap, q1);
    ScaleAddsLeft(m, m1, size);
    ScaleAddsLeft(-m, -m1, size);
  }

  lemma ScaleAdds(a: real, b: real, c: real)
    ensures Scale(a, b + c) == Scale(a, b) + Scale(a, c)
  {
  }

  lemma ScaleAddsLeft(a: real, b: real, c: real)
    ensures Scale(a + b, c) == Scale(a, c) + Scale(b, c)
  {
  }

  /** Totals over all parts, each part's own figures added. */
  lemma {:induction false} PartsAreLinear(tradeId: string, entry: seq<Fill>, parts: seq<Part>, leverage: real)
    requires entry != [] && Quantity(entry) > 0.0
    requires forall p :: p in parts ==> CloseTrade(tradeId, entry, p.exit, p.events, leverage, p.otherFees).Success?
    ensures SumOfCloses(tradeId, entry, parts, leverage)
            == Linear(entry, Quantity(Exits(parts)), Value(Exits(parts)), Fees(Exits(parts)), OtherFees(parts),
                      FundingSum(Events(parts)))
  {
    hide CloseTrade, Quantity, Value, Fees, FundingSum, Linear;
    if parts == [] {
      LinearOfNothing(entry);
    } else {
      var first, rest := parts[0], parts[1..];
      assert parts == [first] + rest;
      PartsAreLinear(tradeId, entry, rest, leverage);
      CloseIsLinear(tradeId, entry, first.exit, first.events, leverage, first.otherFees);
      FillTotalsOfConcat(first.exit, Exits(rest));
      FundingOfConcat(first.events, Events(rest));
      LinearAddsUp(entry, Quantity(first.exit), Value(first.exit), Fees(first.exit), first.otherFees,
                   FundingSum(first.events), Quantity(Exits(rest)), Value(Exits(rest)), Fees(Exits(rest)),
                   OtherFees(rest), FundingSum(Events(rest)));
    }
  }

  lemma LinearOfNothing(entry: seq<Fill>)
    requires entry != [] && Quantity(entry) != 0.0
    ensures Linear(entry, Quantity([]), Value([]), Fees([]), OtherFees([]), FundingSum([])) == NO_MONEY
  {
    var vwap, rate, size := Value(entry) / Quantity(entry), Fees(entry) / Quantity(entry), entry[0].contractSize;
    ScaleOfZero(vwap);
    ScaleOfZero(rate);
    ScaleOfZero(size);
  }

  lemma ScaleOfZero(a: real)
    ensures Scale(a, 0.0) == 0.0 && Scale(0.0, a) == 0.0
  {
  }

  // ---------- the parts of an accepted close are accepted ----------

  lemma {:induction false} PartIsInside(parts: seq<Part>, p: Part)
    requires p in parts
    ensures forall f :: f in p.exit ==> f in Exits(parts)
    ensures forall e :: e in p.events ==> e in Events(parts)
    ensures Distinct((e: Funding) => e.eventId, Events(parts)) ==> Distinct((e: Funding) => e.eventId, p.events)
  {
    var first, rest := parts[0], parts[1..];
    if p != first {
      PartIsInside(rest, p);
    }
    DistinctHalves(first.events, Events(rest));
  }

  lemma DistinctHalves(a: seq<Funding>, b: seq<Funding>)
    ensures Distinct((e: Funding) => e.eventId, a + b) ==>
            Distinct((e: Funding) => e.eventId, a) && Distinct((e: Funding) => e.eventId, b)
  {
    var id := (e: Funding) => e.eventId;
    if Distinct(id, a + b) {
      forall i, j | 0 <= i < j < |a|
        ensures id(a[i]) != id(a[j])
      {
        assert id((a + b)[i]) != id((a + b)[j]);
      }
      forall i, j | 0 <= i < j < |b|
        ensures id(b[i]) != id(b[j])
      {
        assert id((a + b)[|a| + i]) != id((a + b)[|a| + j]);
      }
    }
  }

  lemma {:induction false} PartQuantity(parts: seq<Part>, p: Part)
    requires p in parts && forall f :: f in Exits(parts) ==> PositiveFill(f)
    ensures Quantity(p.exit) <= Quantity(Exits(parts))
  {
    hide Quantity, PositiveFill;
    var first, rest := parts[0], parts[1..];
    assert forall f :: f in first.exit ==> f in Exits(parts);
    assert forall f :: f in Exits(rest) ==> f in Exits(parts);
    FillTotalsOfConcat(first.exit, Exits(rest));
    PositiveTotals(first.exit);
    PositiveTotals(Exits(rest));
    if p != first {
      PartQuantity(rest, p);
    }
  }

  lemma PartIsAcceptable(tradeId: string, entry: seq<Fill>, parts: seq<Part>, p: Part, leverage: real)
    requires Acceptable(tradeId, entry, Exits(parts), Events(parts), leverage, OtherFees(parts))
    requires p in parts && p.exit != [] && p.otherFees >= 0.0
    ensures Acceptable(tradeId, entry, p.exit, p.events, leverage, p.otherFees)
  {
    hide Quantity, Attributed, Exits, Events;
    PartIsInside(parts, p);
    PartQuantity(parts, p);
  }

  /** Additivity: however the exit fills of an accepted close are split, with funding and other fees split along,
      every part closes and gross, fees, funding and net add up to those of the whole. */
  lemma PartialClosesAddUp(tradeId: string, entry: seq<Fill>, parts: seq<Part>, leverage: real)
    requires CloseTrade(tradeId, entry, Exits(parts), Events(parts), leverage, OtherFees(parts)).Success?
    requires forall p :: p in parts ==> p.exit != [] && p.otherFees >= 0.0
    ensures forall p :: p in parts ==> CloseTrade(tradeId, entry, p.exit, p.events, leverage, p.otherFees).Success?
    ensures SumOfCloses(tradeId, entry, parts, leverage)
            == MoneyOf(CloseTrade(tradeId, entry, Exits(parts), Events(parts), leverage, OtherFees(parts)).value)
  {
    hide CloseTrade, Acceptable, Linear, SumOfCloses, Exits, Events, OtherFees, Quantity, Value, Fees, FundingSum,
         MoneyOf;
    AcceptedIffAcceptable(tradeId, entry, Exits(parts), Events(parts), leverage, OtherFees(parts));
    forall p | p in parts
      ensures CloseTrade(tradeId, entry, p.exit, p.events, leverage, p.otherFees).Success?
    {
      PartIsAcceptable(tradeId, entry, parts, p, leverage);
      AcceptedIffAcceptable(tradeId, entry, p.exit, p.events, leverage, p.otherFees);
    }
    CloseIsLinear(tradeId, entry, Exits(parts), Events(parts), leverage, OtherFees(parts));
    PartsAreLinear(tradeId, entry, parts, leverage);
  }

  // ---------- the order of fills and funding events does not matter ----------

  lemma TotalsOfOneFill(f: Fill)
    ensures Quantity([f]) == f.quantity && Value([f]) == Turnover(f) && Fees([f]) == f.fee
  {
  }

  lemma FundingOfOne(e: Funding)
    ensures FundingSum([e]) == e.amount
  {
  }

  lemma FillTotalsWithout(fills: seq<Fill>, k: nat)
    requires k < |fills|
    ensures Quantity(fills) == fills[k].quantity + Quantity(Without(fills, k))
    ensures Value(fills) == Turnover(fills[k]) + Value(Without(fills, k))
    ensures Fees(fills) == fills[k].fee + Fees(Without(fills, k))
  {
    hide Quantity, Value, Fees;
    var before, after := fills[..k], fills[k + 1..];
    assert fills == before + ([fills[k]] + after);
    TotalsOfOneFill(fills[k]);
    FillTotalsOfConcat([fills[k]], after);
    FillTotalsOfConcat(before, [fills[k]] + after);
    FillTotalsOfConcat(before, after);
  }

  lemma {:induction false} FillTotalsOfPermutation(a: seq<Fill>, b: seq<Fill>)
    requires multiset(a) == multiset(b)
    ensures Quantity(a) == Quantity(b) && Value(a) == Value(b) && Fees(a) == Fees(b)
    decreases |a|
  {
    hide Quantity, Value, Fees, Without;
    MembersOfPermutation(a, b);
    if a == [] {
      assert b == [];
    } else {
      assert a[0] in b;
      var k :| 0 <= k < |b| && b[k] == a[0];
      RemoveOne(a, 0);
      RemoveOne(b, k);
      FillTotalsOfPermutation(Without(a, 0), Without(b, k));
      FillTotalsWithout(a, 0);
      FillTotalsWithout(b, k);
    }
  }

  lemma FundingWithout(events: seq<Funding>, k: nat)
    requires k < |events|
    ensures FundingSum(events) == events[k].amount + FundingSum(Without(events, k))
  {
    hide FundingSum;
    var before, after := events[..k], events[k + 1..];
    assert events == before + ([events[k]] + after);
    FundingOfOne(events[k]);
    FundingOfConcat([events[k]], after);
    FundingOfConcat(before, [events[k]] + after);
    FundingOfConcat(before, after);
  }

  lemma {:induction false} FundingOfPermutation(a: seq<Funding>, b: seq<Funding>)
    requires multiset(a) == multiset(b)
    ensures FundingSum(a) == FundingSum(b)
    decreases |a|
  {
    hide FundingSum, Without;
    MembersOfPermutation(a, b);
    if a == [] {
      assert b == [];
    } else {
      assert a[0] in b;
      var k :| 0 <= k < |b| && b[k] == a[0];
      RemoveOne(a, 0);
      RemoveOne(b, k);
      FundingOfPermutation(Without(a, 0), Without(b, k));
      FundingWithout(a, 0);
      FundingWithout(b, k);
    }
  }

  lemma AcceptableAnyOrder(tradeId: string, entry: seq<Fill>, exit: seq<Fill>, other: seq<Fill>, events: seq<Funding>,
      others: seq<Funding>, leverage: real, otherFees: real)
    requires multiset(exit) == multiset(other) && multiset(events) == multiset(others)
    requires Acceptable(tradeId, entry, exit, events, leverage, otherFees)
    ensures Acceptable(tradeId, entry, other, others, leverage, otherFees)
  {
    hide Quantity, Attributed, Fits;
    MembersOfPermutation(exit, other);
    MembersOfPermutation(events, others);
    FillTotalsOfPermutation(exit, other);
    DistinctAfterPermutation((e: Funding) => e.eventId, others, events);
  }

  /** Additivity for any split: the parts may take the exit fills and the funding events in any order. */
  lemma AnySplitAddsUp(tradeId: string, entry: seq<Fill>, exit: seq<Fill>, events: seq<Funding>, parts: seq<Part>,
      leverage: real, otherFees: real)
    requires CloseTrade(tradeId, entry, exit, events, leverage, otherFees).Success?
    requires multiset(exit) == multiset(Exits(parts)) && multiset(events) == multiset(Events(parts))
             && otherFees == OtherFees(parts)
    requires forall p :: p in parts ==> p.exit != [] && p.otherFees >= 0.0
    ensures forall p :: p in parts ==> CloseTrade(tradeId, entry, p.exit, p.events, leverage, p.otherFees).Success?
    ensures SumOfCloses(tradeId, entry, parts, leverage)
            == MoneyOf(CloseTrade(tradeId, entry, exit, events, leverage, otherFees).value)
  {
    hide CloseTrade, Acceptable, Linear, SumOfCloses, Exits, Events, OtherFees, Quantity, Value, Fees, FundingSum,
         MoneyOf;
    AcceptedIffAcceptable(tradeId, entry, exit, events, leverage, otherFees);
    AcceptableAnyOrder(tradeId, entry, exit, Exits(parts), events, Events(parts), leverage, otherFees);
    AcceptedIffAcceptable(tradeId, entry, Exits(parts), Events(parts), leverage, otherFees);
    FillTotalsOfPermutation(exit, Exits(parts));
    FundingOfPermutation(events, Events(parts));
    CloseIsLinear(tradeId, entry, exit, events, leverage, otherFees);
    CloseIsLinear(tradeId, entry, Exits(parts), Events(parts), leverage, otherFees);
    PartialClosesAddUp(tradeId, entry, parts, leverage);
  }

  /** A full close nets to the signed cash flow minus all fees plus funding. */
  lemma FullCloseIsCashFlow(tradeId: string, entry: seq<Fill>, exit: seq<Fill>, events: seq<Funding>, leverage: real,
      otherFees: real)
    requires CloseTrade(tradeId, entry, exit, events, leverage, otherFees).Success? && Quantity(exit) == Quantity(entry)
    ensures entry != []
    ensures var c := CloseTrade(tradeId, entry, exit, events, leverage, otherFees).value;
            var flow := if entry[0].direction == Long then Value(exit) - Value(entry) else Value(entry) - Value(exit);
            c.gross == Scale(flow, entry[0].contractSize) && c.entryFee == Fees(entry)
            && c.net == Scale(flow, entry[0].contractSize) - Fees(entry) - Fees(exit) - otherFees + FundingSum(events)
  {
    hide CloseTrade, Quantity, Value, Fees, Scale, FundingSum;
    CloseIsLinear(tradeId, entry, exit, events, leverage, otherFees);
    ScaleBack(Value(entry), Quantity(entry));
    ScaleBack(Fees(entry), Quantity(entry));
    var move := Value(exit) - Value(entry);
    assert -move == Value(entry) - Value(exit);
  }

  lemma ScaleBack(a: real, q: real)
    requires q != 0.0
    ensures Scale(a / q, q) == a
  {
    QuotientTimes(a, q);
  }

  // ---------- drawdown ----------

  datatype Snapshot = Snapshot(equity: real, peak: real, drawdown: real, percent: real, maxDrawdown: real)

  function DrawdownSnapshot(equity: real, previousPeak: Option<real>, previousMax: real): Snapshot {
    var peak := Larger(equity, previousPeak.GetOr(equity));
    var drawdown := peak - equity;
    Snapshot(equity, peak, drawdown,
             if peak == 0.0 then 0.0 else drawdown / peak * 100.0, Larger(previousMax, drawdown))
  }

  /** The snapshots of an equity series, each built from the one before. */
  function LastSnapshot(equities: seq<real>): Snapshot
    requires equities != []
  {
    var last := equities[|equities| - 1];
    if |equities| == 1 then DrawdownSnapshot(last, None, 0.0)
    else
      var previous := LastSnapshot(equities[..|equities| - 1]);
      DrawdownSnapshot(last, Some(previous.peak), previous.maxDrawdown)
  }

  ghost predicate Loss(equities: seq<real>, i: int, j: int, amount: real) {
    0 <= i <= j < |equities| && equities[i] - equities[j] == amount
  }

  lemma {:induction false} PeakIsMaximum(equities: seq<real>)
    requires equities != []
    ensures LastSnapshot(equities).peak in equities && forall e :: e in equities ==> e <= LastSnapshot(equities).peak
  {
    if |equities| > 1 {
      var earlier, last := equities[..|equities| - 1], equities[|equities| - 1];
      assert equities == earlier + [last];
      PeakIsMaximum(earlier);
    }
  }

  /** The streaming maximum drawdown is the maximum over all i <= j of equity[i] - equity[j]. */
  lemma {:induction false} MaxDrawdownIsGreatestLoss(equities: seq<real>)
    requires equities != []
    ensures exists i, j :: Loss(equities, i, j, LastSnapshot(equities).maxDrawdown)
    ensures forall i, j :: 0 <= i <= j < |equities| ==> equities[i] - equities[j] <= LastSnapshot(equities).maxDrawdown
  {
    var last := |equities| - 1;
    PeakIsMaximum(equities);
    var snapshot := LastSnapshot(equities);
    if last == 0 {
      assert Loss(equities, 0, 0, snapshot.maxDrawdown);
    } else {
      var earlier := equities[..last];
      MaxDrawdownIsGreatestLoss(earlier);
      if snapshot.maxDrawdown == LastSnapshot(earlier).maxDrawdown {
        var i, j :| Loss(earlier, i, j, snapshot.maxDrawdown);
        assert Loss(equities, i, j, snapshot.maxDrawdown);
      } else {
        var k :| 0 <= k < |equities| && equities[k] == snapshot.peak;
        assert Loss(equities, k, last, snapshot.maxDrawdown);
      }
      forall i, j | 0 <= i <= j < |equities|
        ensures equities[i] - equities[j] <= snapshot.maxDrawdown
      {
        if j == last {
          assert equities[i] in equities;
        } else {
          assert earlier[i] - earlier[j] <= LastSnapshot(earlier).maxDrawdown;
        }
      }
    }
  }

  /** The last snapshot: the drawdown is what the last equity lacks of the greatest so far, in percent of it. */
  lemma LastDrawdown(equities: seq<real>)
    requires equities != []
    ensures var s, last := LastSnapshot(equities), equities[|equities| - 1];
            && s.equity == last && s.peak in equities && (forall e :: e in equities ==> e <= s.peak)
            && s.drawdown == s.peak - last && s.maxDrawdown >= s.drawdown >= 0.0
            && (s.peak != 0.0 ==> s.percent * s.peak == 100.0 * s.drawdown) && (s.peak == 0.0 ==> s.percent == 0.0)
  {
    hide Larger;
    PeakIsMaximum(equities);
    SnapshotOfLast(equities);
    var s := LastSnapshot(equities);
    assert equities[|equities| - 1] in equities;
    PercentOfPeak(s.drawdown, s.peak);
  }

  lemma SnapshotOfLast(equities: seq<real>)
    requires equities != []
    ensures var s, last := LastSnapshot(equities), equities[|equities| - 1];
            && s.equity == last && s.drawdown == s.peak - last && s.maxDrawdown >= s.drawdown
            && s.percent == if s.peak == 0.0 then 0.0 else s.drawdown / s.peak * 100.0
  {
  }

  lemma PercentOfPeak(drawdown: real, peak: real)
    ensures peak != 0.0 ==> drawdown / peak * 100.0 * peak == 100.0 * drawdown
  {
    if peak != 0.0 {
      QuotientTimes(drawdown, peak);
    }
  }

  /** What a close reports beside its money: how much was closed, at which averages, and what all its fills share. */
  lemma CloseReports(tradeId: string, entry: seq<Fill>, exit: seq<Fill>, events: seq<Funding>, leverage: real,
      otherFees: real)
    requires CloseTrade(tradeId, entry, exit, events, leverage, otherFees).Success?
    ensures entry != [] && exit != []
    ensures var c := CloseTrade(tradeId, entry, exit, events, leverage, otherFees).value;
            && c.quantity == Quantity(exit) && c.entryVwap * Quantity(entry) == Value(entry)
            && c.exitVwap * Quantity(exit) == Value(exit) && c.exitFee == Fees(exit) && c.otherFees == otherFees
            && c.funding == FundingSum(events)
            && (c.direction == Long || c.direction == Short)
            && (forall f :: f in entry ==> f.action == if c.direction == Long then OpenLong else OpenShort)
            && (forall f :: f in exit ==> f.action == if c.direction == Long then CloseLong else CloseShort)
            && forall f :: f in entry + exit ==>
                 f.tradeId == tradeId && f.direction == c.direction && f.symbol == c.symbol
                 && f.settlementAsset == c.settlementAsset && f.contractSize == c.contractSize && f.source == c.source
  {
    hide FundingFrom, CleanFunding, PositiveFill, Quantity, Value, Fees, Scale, QuantityFault;
    FillsAccepted(tradeId, entry, exit);
    QuantitiesAccepted(entry, exit);
    VwapsOf(entry, exit);
    QuotientTimes(Value(entry), Quantity(entry));
    QuotientTimes(Value(exit), Quantity(exit));
    FundingIffClean(events, {}, AttributionOf(tradeId, entry));
  }
}
