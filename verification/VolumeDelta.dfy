/** The aggressive volume delta of a merged trade population, in percent, rounded to 36 places half to even. */
module VolumeDelta {
  import opened Prelude
  import opened RealArithmetic
  import opened Rationals
  import opened GridRounding
  import opened RawTradeMerge

  datatype DeltaError = DenominatorZero

  function NotionalSum(trades: seq<Trade>, side: Side): Fraction {
    if trades == [] then FromInt(0)
    else if trades[0].side == side then Add(trades[0].notional, NotionalSum(trades[1..], side))
    else NotionalSum(trades[1..], side)
  }

  function DeltaPct(trades: seq<Trade>): Result<Fraction, DeltaError> {
    var buy, sell := NotionalSum(trades, Buy), NotionalSum(trades, Sell);
    var denominator := Add(buy, sell);
    if denominator.num == 0 then Failure(DenominatorZero)
    else Success(Q36Working(Div(Mul(FromInt(100), Add(buy, Neg(sell))), denominator)))
  }

  ghost predicate PositiveNotionals(trades: seq<Trade>) {
    forall t :: t in trades ==> Val(t.notional) > 0.0
  }

  lemma {:induction false} NotionalSumSign(trades: seq<Trade>, side: Side)
    requires PositiveNotionals(trades)
    ensures Val(NotionalSum(trades, side)) >= 0.0
    ensures Val(NotionalSum(trades, side)) == 0.0 <==> forall t :: t in trades ==> t.side != side
  {
    hide Val, Add;
    ZeroVal();
    if trades != [] {
      assert trades == [trades[0]] + trades[1..];
      NotionalSumSign(trades[1..], side);
    }
  }

  lemma ZeroVal()
    ensures Val(FromInt(0)) == 0.0
  {
  }

  /** Every trade of a merge was accepted with a positive notional. */
  lemma MergedNotionalsArePositive(pages: seq<Page>, interval: Interval, m: Merge)
    requires IsMerge(pages, interval, m)
    ensures PositiveNotionals(m.trades)
  {
    hide AllRows, IsSourced, Val, KeysLess;
    forall t | t in m.trades
      ensures Val(t.notional) > 0.0
    {
      assert TradeOccurs(AllRows(pages, interval), t);
      var s :| Success(Entry(t, s)) in AllRows(pages, interval);
      AcceptedNotional(pages, interval, Entry(t, s));
      ValSign(t.notional);
    }
  }

  lemma AcceptedNotional(pages: seq<Page>, interval: Interval, e: Entry)
    requires Success(e) in AllRows(pages, interval)
    ensures e.trade.notional.num > 0
  {
    hide AllRows, PageRows;
    InAllRows(pages, interval, Success(e));
    var i :| 0 <= i < |pages| && Success(e) in PageRows(pages[i], interval);
    InPageRows(pages[i], interval, Success(e));
  }

  /** The delta is missing exactly when there are no trades. */
  lemma DenominatorZeroIffNoTrades(trades: seq<Trade>)
    requires PositiveNotionals(trades)
    ensures DeltaPct(trades).Failure? <==> trades == []
  {
    hide Val, Add, NotionalSum;
    var buy, sell := NotionalSum(trades, Buy), NotionalSum(trades, Sell);
    NotionalSumSign(trades, Buy);
    NotionalSumSign(trades, Sell);
    ValSign(Add(buy, sell));
    if trades != [] {
      assert trades[0] in trades;
    }
  }

  lemma RatioInRange(b: real, s: real)
    requires b >= 0.0 && s >= 0.0 && b + s > 0.0
    ensures -100.0 <= (100.0 * (b - s)) / (b + s) <= 100.0
  {
    var q := (100.0 * (b - s)) / (b + s);
    QuotientTimes(100.0 * (b - s), b + s);
    ScaleOrder(-100.0, q, b + s);
    ScaleOrder(q, 100.0, b + s);
  }

  lemma HundredOnGrid(sign: int)
    ensures DecimalUnit(WORKING_SCALE).num > 0
    ensures Val(FromInt(100 * sign)) == (100 * sign * Pow10(WORKING_SCALE)) as real * Val(DecimalUnit(WORKING_SCALE))
  {
    hide Val, DecimalUnit, Pow10;
    DecimalUnitVal(WORKING_SCALE);
    var p := Pow10(WORKING_SCALE);
    IntProduct(100 * sign, p);
    QuotientTimes(1.0, p as real);
    Associate((100 * sign) as real, p as real, 1.0 / p as real);
    IntVal(100 * sign);
  }

  /** Multiples of a hundred are not changed by the rounding. */
  lemma HundredStays(sign: int)
    ensures Q36Working(FromInt(100 * sign)) == FromInt(100 * sign)
  {
    hide Val, DecimalUnit, Pow10, Quantize;
    HundredOnGrid(sign);
    QuantizeFixesTheGrid(FromInt(100 * sign), DecimalUnit(WORKING_SCALE), HalfEven, 100 * sign * Pow10(WORKING_SCALE));
  }

  lemma Q36KeepsRange(x: Fraction)
    requires -100.0 <= Val(x) <= 100.0
    ensures -100.0 <= Val(Q36Working(x)) <= 100.0
  {
    hide Val, DecimalUnit, Pow10, Quantize;
    DecimalUnitVal(WORKING_SCALE);
    HundredStays(1);
    HundredStays(-1);
    IntVal(100);
    IntVal(-100);
    QuantizeIsMonotone(FromInt(-100), x, DecimalUnit(WORKING_SCALE), HalfEven);
    QuantizeIsMonotone(x, FromInt(100), DecimalUnit(WORKING_SCALE), HalfEven);
  }

  lemma RawDelta(trades: seq<Trade>) returns (raw: Fraction)
    requires PositiveNotionals(trades) && trades != []
    ensures DeltaPct(trades) == Success(Q36Working(raw))
    ensures var b, s := Val(NotionalSum(trades, Buy)), Val(NotionalSum(trades, Sell));
            b >= 0.0 && s >= 0.0 && b + s > 0.0 && Val(raw) == (100.0 * (b - s)) / (b + s)
  {
    hide Val, Add, NotionalSum, Mul, Div, Neg, Q36Working;
    var buy, sell := NotionalSum(trades, Buy), NotionalSum(trades, Sell);
    NotionalSumSign(trades, Buy);
    NotionalSumSign(trades, Sell);
    ValSign(Add(buy, sell));
    IntVal(100);
    DenominatorZeroIffNoTrades(trades);
    raw := Div(Mul(FromInt(100), Add(buy, Neg(sell))), Add(buy, sell));
  }

  /** The rounded delta of a merged population stays between -100 and 100 percent. */
  lemma DeltaInRange(trades: seq<Trade>)
    requires PositiveNotionals(trades) && trades != []
    ensures DeltaPct(trades).Success? && -100.0 <= Val(DeltaPct(trades).value) <= 100.0
  {
    hide Val, NotionalSum, Q36Working, DeltaPct;
    var raw := RawDelta(trades);
    RatioInRange(Val(NotionalSum(trades, Buy)), Val(NotionalSum(trades, Sell)));
    Q36KeepsRange(raw);
  }

  /** One-sided trading is exactly a hundred percent. */
  lemma OneSidedDelta(trades: seq<Trade>, side: Side)
    requires PositiveNotionals(trades) && trades != [] && forall t :: t in trades ==> t.side == side
    ensures DeltaPct(trades) == Success(FromInt(if side == Buy then 100 else -100))
  {
    hide Val, NotionalSum, Q36Working, DeltaPct;
    var raw := RawDelta(trades);
    var b, s := Val(NotionalSum(trades, Buy)), Val(NotionalSum(trades, Sell));
    NotionalSumSign(trades, Buy);
    NotionalSumSign(trades, Sell);
    var sign := if side == Buy then 1 else -1;
    TimesQuotient((100 * sign) as real, b + s);
    IntVal(100 * sign);
    ValInjective(raw, FromInt(100 * sign));
    HundredStays(sign);
  }

  function Flip(side: Side): Side {
    if side == Buy then Sell else Buy
  }

  function Flipped(trades: seq<Trade>): seq<Trade> {
    if trades == [] then [] else [trades[0].(side := Flip(trades[0].side))] + Flipped(trades[1..])
  }

  lemma {:induction false} FlippedSums(trades: seq<Trade>, side: Side)
    requires PositiveNotionals(trades)
    ensures NotionalSum(Flipped(trades), side) == NotionalSum(trades, Flip(side))
    ensures PositiveNotionals(Flipped(trades)) && |Flipped(trades)| == |trades|
  {
    hide Val, Add;
    if trades != [] {
      assert trades == [trades[0]] + trades[1..];
      FlippedSums(trades[1..], side);
    }
  }

  lemma OppositeRatio(b: real, s: real)
    requires b + s > 0.0
    ensures (100.0 * (s - b)) / (s + b) == -((100.0 * (b - s)) / (b + s))
  {
  }

  /** Exchanging buyers and sellers negates the delta exactly, rounding included. */
  lemma DeltaIsOdd(trades: seq<Trade>)
    requires PositiveNotionals(trades) && trades != []
    ensures DeltaPct(trades).Success?
    ensures DeltaPct(Flipped(trades)) == Success(Neg(DeltaPct(trades).value))
  {
    hide Val, NotionalSum, Q36Working, DeltaPct, Neg, Flipped;
    FlippedSums(trades, Buy);
    FlippedSums(trades, Sell);
    var raw := RawDelta(trades);
    var opposite := RawDelta(Flipped(trades));
    OppositeRatio(Val(NotionalSum(trades, Buy)), Val(NotionalSum(trades, Sell)));
    ValInjective(opposite, Neg(raw));
    Q36IsOdd(raw);
  }

  lemma Q36IsOdd(x: Fraction)
    ensures Q36Working(Neg(x)) == Neg(Q36Working(x))
  {
    hide Val, DecimalUnit, Pow10, Quantize, Neg;
    DecimalUnitVal(WORKING_SCALE);
    QuantizeMirrors(x, DecimalUnit(WORKING_SCALE), HalfEven);
  }

  // ---------- the delta of the pages themselves ----------

  /** The delta of a merge is missing exactly when the pages carry no
      row, and otherwise lies within a hundred percent. */
  lemma MergedDeltaInRange(pages: seq<Page>, interval: Interval, m: Merge)
    requires Consistent(pages, interval) && IsMerge(pages, interval, m)
    ensures DeltaPct(m.trades).Failure? <==> m.trades == []
    ensures m.trades == [] <==> AllRows(pages, interval) == []
    ensures m.trades != [] ==> DeltaPct(m.trades).Success? && -100.0 <= Val(DeltaPct(m.trades).value) <= 100.0
  {
    hide Val, DeltaPct, AllRows, IsSourced, KeysLess, HeadersAgree;
    MergedNotionalsArePositive(pages, interval, m);
    DenominatorZeroIffNoTrades(m.trades);
    if m.trades != [] {
      DeltaInRange(m.trades);
    }
    TradesIffRows(pages, interval, m);
  }

  lemma TradesIffRows(pages: seq<Page>, interval: Interval, m: Merge)
    requires Consistent(pages, interval) && IsMerge(pages, interval, m)
    ensures m.trades == [] <==> AllRows(pages, interval) == []
  {
    hide AllRows, IsSourced, KeysLess, HeadersAgree;
    var rows := AllRows(pages, interval);
    if rows != [] {
      assert rows[0] in rows;
      var e := rows[0].value;
      assert Success(Entry(e.trade, e.source)) in rows;
      assert TradeOccurs(rows, e.trade);
    }
    if m.trades != [] {
      assert TradeOccurs(rows, m.trades[0]);
    }
  }

  /** The same evidence in another arrangement has the same delta. */
  lemma DeltaIgnoresArrangement(pages: seq<Page>, others: seq<Page>, interval: Interval, m: Merge, n: Merge)
    requires SameEvidence(pages, others, interval) && Consistent(pages, interval)
    requires IsMerge(pages, interval, m) && IsMerge(others, interval, n)
    ensures DeltaPct(m.trades) == DeltaPct(n.trades)
  {
    hide Consistent, IsMerge, SameEvidence, DeltaPct;
    UniqueMerge(pages, others, interval, m, n);
  }

  datatype DeltaFault = RawTrades(reason: Reason) | NoDenominator

  /** The observation: pages are merged first, and a merge without trades has no delta. */
  method AggressiveVolumeDelta(pages: seq<Page>, interval: Interval) returns (r: Result<Fraction, DeltaFault>)
    ensures r.Success? <==> Consistent(pages, interval) && AllRows(pages, interval) != []
    ensures r.Success? ==> -100.0 <= Val(r.value) <= 100.0
    ensures r.Success? ==> exists m :: IsMerge(pages, interval, m) && DeltaPct(m.trades) == Success(r.value)
    ensures r.Failure? ==>
              match r.error
              case RawTrades(reason) => Explains(reason, pages, interval)
              case NoDenominator => AllRows(pages, interval) == []
  {
    hide Val, DeltaPct, AllRows, IsMerge, Explains, Consistent;
    var merged := MergePages(pages, interval);
    if merged.Failure? {
      return Failure(RawTrades(merged.error));
    }
    MergedDeltaInRange(pages, interval, merged.value);
    var delta := DeltaPct(merged.value.trades);
    if delta.Failure? {
      return Failure(NoDenominator);
    }
    r := Success(delta.value);
  }

  // ---------- the exact delta ----------

  /** What one side traded. */
  ghost function Traded(trades: seq<Trade>, side: Side): real {
    if trades == [] then 0.0
    else Traded(trades[1..], side) + if trades[0].side == side then Val(trades[0].notional) else 0.0
  }

  lemma {:induction false} TradedIs(trades: seq<Trade>, side: Side)
    ensures Val(NotionalSum(trades, side)) == Traded(trades, side)
  {
    hide Val, Add;
    ZeroVal();
    if trades != [] {
      TradedIs(trades[1..], side);
    }
  }

  /** A million million million million million million parts. */
  const PARTS := 1000000000000000000000000000000000000.0

  lemma PartsAreExact()
    ensures Pow10(WORKING_SCALE) as real == PARTS
  {
    ScalesAreExact();
  }

  /** The delta is a hundred times the surplus of buying over what was traded, to 36 places, half to even. */
  lemma DeltaIsExact(trades: seq<Trade>) returns (k: int)
    requires PositiveNotionals(trades) && trades != []
    ensures DeltaPct(trades).Success? && Val(DeltaPct(trades).value) * PARTS == k as real
    ensures var b, s := Traded(trades, Buy), Traded(trades, Sell);
            b + s > 0.0 && NearestEven((100.0 * (b - s)) / (b + s) * PARTS, k)
  {
    hide Val, NotionalSum, Quantize, DecimalUnit, DeltaPct, Pow10, NearestEven;
    var raw := RawDelta(trades);
    TradedIs(trades, Buy);
    TradedIs(trades, Sell);
    PartsAreExact();
    DecimalUnitVal(WORKING_SCALE);
    k := QuantizeIsCorrectlyRounded(raw, DecimalUnit(WORKING_SCALE), HalfEven);
    InUnits(Val(raw), k, PARTS);
  }

  lemma InUnits(x: real, k: int, p: real)
    requires p > 0.0
    ensures x / (1.0 / p) == x * p && k as real * (1.0 / p) * p == k as real
  {
    QuotientTimes(1.0, p);
    Associate(k as real, 1.0 / p, p);
    Associate(x, p, 1.0 / p);
    TimesQuotient(x * p, 1.0 / p);
  }
}
