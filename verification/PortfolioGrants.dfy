/** The Portfolio's non-reserving grant for one coin, its gates, and the
    division of a coin's free capital into tranches. */
module PortfolioGrants {
  import opened Prelude
  import opened RealArithmetic
  import opened GridRounding

  datatype Health = Live | Reconciling | Stale

  /** Amounts are the exact values of the stored decimal texts, which are never negative. */
  datatype Buckets = Buckets(held: real, reserved: real, filled: real, closing: real, tranches: int)

  datatype Coin = Coin(symbol: string, buckets: Buckets)

  datatype State = State(health: Health, global: Buckets, coins: seq<Coin>)

  datatype GateStatus = Pass | Fail | GateUnavailable

  datatype Policy = Policy(
    minimum: real, globalCap: real, coinCap: real, maxOpen: int, maxPerCoin: int,
    lossBlocked: bool, lossStatus: GateStatus, lossReason: Option<string>,
    lossConfigured: Option<string>, lossCalculated: Option<string>, lossAvailability: string)

  datatype Detail = NoDetail | Amount(value: real) | Slots(count: int) | Words(text: string)

  datatype Gate = Gate(status: GateStatus, reason: string, configured: Detail, calculated: Detail,
      availability: Option<string>)

  datatype GrantStatus = Allowed | Blocked | Unavailable

  datatype Grant = Grant(requested: real, minimum: real, remainingCoin: real, remainingGlobal: real, coinSlots: int,
      globalSlots: int)

  datatype Evaluation = Evaluation(status: GrantStatus, reasons: seq<string>, gates: map<string, Gate>,
      grant: Option<Grant>)

  function Commitment(b: Buckets): real {
    b.held + b.reserved + b.filled + b.closing
  }

  function CapitalFloorOf(x: real): real {
    FloorToUnit(x, CAPITAL_SCALE)
  }

  /** The four numbers the gates look at. */
  datatype Figures = Figures(freeGlobal: real, freeCoin: real, globalSlots: int, coinSlots: int)

  function FiguresOf(policy: Policy, global: Buckets, coin: Buckets): Figures {
    Figures(policy.globalCap - Commitment(global), policy.coinCap - Commitment(coin),
            policy.maxOpen - global.tranches, policy.maxPerCoin - coin.tranches)
  }

  function Candidate(f: Figures): Option<real> {
    if f.freeCoin > 0.0 && f.coinSlots > 0 then Some(CapitalFloorOf(f.freeCoin / f.coinSlots as real)) else None
  }

  function LossStatus(policy: Policy): GateStatus {
    if policy.lossBlocked && policy.lossStatus == Pass then Fail else policy.lossStatus
  }

  function LossReason(policy: Policy): string {
    match policy.lossReason
    case Some(reason) => reason
    case None => if policy.lossBlocked then "DAILY_LOSS_LIMIT_REACHED" else "PASS"
  }

  // ---------- the gate log ----------

  function GateOf(status: GateStatus, reason: string, configured: Detail, calculated: Detail,
      availability: Option<string>): Gate {
    Gate(status, if status != Pass then reason else "PASS", configured, calculated, availability)
  }

  function DetailOf(text: Option<string>): Detail {
    if text.Some? then Words(text.value) else NoDetail
  }

  function Refusal(status: GateStatus, reason: string): seq<string> {
    if status == Pass then [] else [reason]
  }

  /** The `gate_results` dictionary and the `reasons` list that `_record_gate` fills. */
  class GateLog {
    var gates: map<string, Gate>
    var reasons: seq<string>

    constructor ()
      ensures gates == map[] && reasons == []
    {
      gates, reasons := map[], [];
    }

    method Record(gateId: string, status: GateStatus, reason: string, configured: Detail, calculated: Detail,
        availability: Option<string>)
      modifies this
      ensures gates == old(gates)[gateId := GateOf(status, reason, configured, calculated, availability)]
      ensures reasons == old(reasons) + Refusal(status, reason)
    {
      gates := gates[gateId := GateOf(status, reason, configured, calculated, availability)];
      if status == Fail || status == GateUnavailable {
        reasons := reasons + [reason];
      }
    }

    method Note(gateId: string, reason: string)
      modifies this
      ensures gates == old(gates)[gateId := GateOf(GateUnavailable, reason, NoDetail, NoDetail, None)]
      ensures reasons == old(reasons)
    {
      gates := gates[gateId := GateOf(GateUnavailable, reason, NoDetail, NoDetail, None)];
    }
  }

  function When(ok: bool): GateStatus {
    if ok then Pass else Fail
  }

  function LimitGates(policy: Policy, f: Figures): map<string, Gate> {
    map[]
      ["daily_loss" := GateOf(LossStatus(policy), LossReason(policy), DetailOf(policy.lossConfigured),
                              DetailOf(policy.lossCalculated), Some(policy.lossAvailability))]
      ["global_slots" := GateOf(When(f.globalSlots > 0), "MAX_OPEN_POSITIONS_REACHED", Slots(policy.maxOpen),
                                Slots(f.globalSlots), None)]
      ["coin_slots" := GateOf(When(f.coinSlots > 0), "MAX_COIN_POSITIONS_REACHED", Slots(policy.maxPerCoin),
                              Slots(f.coinSlots), None)]
      ["coin_allocation" := GateOf(When(f.freeCoin > 0.0), "COIN_ALLOCATION_REACHED", Amount(policy.coinCap),
                                   Amount(CapitalFloorOf(f.freeCoin)), None)]
  }

  function CapitalGates(policy: Policy, f: Figures): map<string, Gate> {
    match Candidate(f)
    case Some(c) => LimitGates(policy, f)
      ["minimum_tranche_capital" := GateOf(When(c > 0.0 && c >= policy.minimum), "MINIMUM_TRANCHE_CAPITAL_NOT_MET",
                                           Amount(policy.minimum), Amount(c), None)]
      ["global_capital" := GateOf(When(f.freeGlobal >= c), "INSUFFICIENT_GLOBAL_CAPITAL_FOR_TRANCHE",
                                  Amount(CapitalFloorOf(f.freeGlobal)), Amount(c), None)]
    case None => LimitGates(policy, f)
      ["grant_candidate" := GateOf(GateUnavailable, "GRANT_CANDIDATE_UNAVAILABLE", NoDetail, NoDetail, None)]
  }

  function LimitReasons(policy: Policy, f: Figures): seq<string> {
    Refusal(LossStatus(policy), LossReason(policy))
    + Refusal(When(f.globalSlots > 0), "MAX_OPEN_POSITIONS_REACHED")
    + Refusal(When(f.coinSlots > 0), "MAX_COIN_POSITIONS_REACHED")
    + Refusal(When(f.freeCoin > 0.0), "COIN_ALLOCATION_REACHED")
  }

  function CapitalReasons(policy: Policy, f: Figures): seq<string> {
    match Candidate(f)
    case Some(c) =>
      LimitReasons(policy, f) + Refusal(When(c > 0.0 && c >= policy.minimum), "MINIMUM_TRANCHE_CAPITAL_NOT_MET")
      + Refusal(When(f.freeGlobal >= c), "INSUFFICIENT_GLOBAL_CAPITAL_FOR_TRANCHE")
    case None => LimitReasons(policy, f)
  }

  function GrantOf(policy: Policy, f: Figures, candidate: real): Grant {
    Grant(candidate, policy.minimum, CapitalFloorOf(f.freeCoin), CapitalFloorOf(f.freeGlobal), f.coinSlots,
          f.globalSlots)
  }

  function EvaluateFigures(policy: Policy, f: Figures): Evaluation {
    var reasons := CapitalReasons(policy, f);
    if reasons != [] then Evaluation(Blocked, reasons, CapitalGates(policy, f), None)
    else match Candidate(f)
      case None => Evaluation(Unavailable, ["GRANT_CANDIDATE_UNAVAILABLE"], CapitalGates(policy, f), None)
      case Some(c) => Evaluation(Allowed, ["ALLOWED"], CapitalGates(policy, f), Some(GrantOf(policy, f, c)))
  }

  function FirstCoin(coins: seq<Coin>, symbol: string): Option<Coin> {
    if coins == [] then None else if coins[0].symbol == symbol then Some(coins[0]) else FirstCoin(coins[1..], symbol)
  }

  function OnlyGate(id: string, reason: string): map<string, Gate> {
    map[id := GateOf(GateUnavailable, reason, NoDetail, NoDetail, None)]
  }

  function Evaluate(policy: Policy, state: State, symbol: string): Evaluation {
    if state.health != Live then
      Evaluation(Unavailable, ["PORTFOLIO_STATE_UNAVAILABLE"],
                 OnlyGate("portfolio_state", "PORTFOLIO_STATE_UNAVAILABLE"), None)
    else match FirstCoin(state.coins, symbol)
      case None => Evaluation(Unavailable, ["PORTFOLIO_COIN_STATE_UNAVAILABLE"],
                              OnlyGate("coin_state", "PORTFOLIO_COIN_STATE_UNAVAILABLE"), None)
      case Some(coin) => EvaluateFigures(policy, FiguresOf(policy, state.global, coin.buckets))
  }

  // ---------- evaluating step by step ----------

  method FindCoin(state: State, symbol: string) returns (r: Option<Coin>)
    ensures r == FirstCoin(state.coins, symbol)
  {
    for i := 0 to |state.coins|
      invariant FirstCoin(state.coins[i..], symbol) == FirstCoin(state.coins, symbol)
    {
      assert state.coins[i..][1..] == state.coins[i + 1..];
      if state.coins[i].symbol == symbol {
        return Some(state.coins[i]);
      }
    }
    r := None;
  }

  method RecordLimitGates(log: GateLog, policy: Policy, f: Figures)
    requires log.gates == map[] && log.reasons == []
    modifies log
    ensures log.gates == LimitGates(policy, f) && log.reasons == LimitReasons(policy, f)
  {
    hide CapitalFloorOf, GateOf, Refusal, When;
    log.Record("daily_loss", LossStatus(policy), LossReason(policy), DetailOf(policy.lossConfigured),
               DetailOf(policy.lossCalculated),
               Some(policy.lossAvailability));
    log.Record("global_slots", When(f.globalSlots > 0), "MAX_OPEN_POSITIONS_REACHED", Slots(policy.maxOpen),
               Slots(f.globalSlots), None);
    log.Record("coin_slots", When(f.coinSlots > 0), "MAX_COIN_POSITIONS_REACHED", Slots(policy.maxPerCoin),
               Slots(f.coinSlots), None);
    log.Record("coin_allocation", When(f.freeCoin > 0.0), "COIN_ALLOCATION_REACHED", Amount(policy.coinCap),
               Amount(CapitalFloorOf(f.freeCoin)), None);
  }

  method RecordGates(log: GateLog, policy: Policy, f: Figures)
    requires log.gates == map[] && log.reasons == []
    modifies log
    ensures log.gates == CapitalGates(policy, f) && log.reasons == CapitalReasons(policy, f)
  {
    hide CapitalFloorOf, GateOf, Refusal, When, LimitGates, LimitReasons;
    RecordLimitGates(log, policy, f);
    var candidate := Candidate(f);
    if candidate.Some? {
      var c := candidate.value;
      log.Record("minimum_tranche_capital", When(c > 0.0 && c >= policy.minimum), "MINIMUM_TRANCHE_CAPITAL_NOT_MET",
                 Amount(policy.minimum), Amount(c), None);
      log.Record("global_capital", When(f.freeGlobal >= c), "INSUFFICIENT_GLOBAL_CAPITAL_FOR_TRANCHE",
                 Amount(CapitalFloorOf(f.freeGlobal)), Amount(c), None);
    } else {
      log.Note("grant_candidate", "GRANT_CANDIDATE_UNAVAILABLE");
    }
  }

  /** `evaluate_portfolio_grant`, after the approved decision has been validated. */
  method EvaluatePortfolioGrant(policy: Policy, state: State, symbol: string) returns (r: Evaluation)
    ensures r == Evaluate(policy, state, symbol)
  {
    hide CapitalReasons, CapitalGates, GrantOf, FirstCoin, CapitalFloorOf, GateOf;
    var log := new GateLog();
    if state.health != Live {
      log.Note("portfolio_state", "PORTFOLIO_STATE_UNAVAILABLE");
      return Evaluation(Unavailable, ["PORTFOLIO_STATE_UNAVAILABLE"], log.gates, None);
    }
    var coin := FindCoin(state, symbol);
    if coin.None? {
      log.Note("coin_state", "PORTFOLIO_COIN_STATE_UNAVAILABLE");
      return Evaluation(Unavailable, ["PORTFOLIO_COIN_STATE_UNAVAILABLE"], log.gates, None);
    }
    var f := FiguresOf(policy, state.global, coin.value.buckets);
    RecordGates(log, policy, f);
    if log.reasons != [] {
      return Evaluation(Blocked, log.reasons, log.gates, None);
    }
    var candidate := Candidate(f);
    if candidate.None? {
      return Evaluation(Unavailable, ["GRANT_CANDIDATE_UNAVAILABLE"], log.gates, None);
    }
    r := Evaluation(Allowed, ["ALLOWED"], log.gates, Some(GrantOf(policy, f, candidate.value)));
  }

  // ---------- when a grant is allowed ----------

  /** The gates in words: loss gate open, slots left, free coin capital,
      a large enough tranche, enough global capital. */
  predicate Admissible(policy: Policy, f: Figures) {
    && LossStatus(policy) == Pass
    && f.globalSlots > 0 && f.coinSlots > 0 && f.freeCoin > 0.0
    && var c := CapitalFloorOf(f.freeCoin / f.coinSlots as real);
       c > 0.0 && c >= policy.minimum && f.freeGlobal >= c
  }

  lemma NoReasonsIffAdmissible(policy: Policy, f: Figures)
    ensures CapitalReasons(policy, f) == [] <==> Admissible(policy, f)
    ensures CapitalReasons(policy, f) == [] ==> Candidate(f).Some?
  {
    hide CapitalFloorOf;
  }

  /** There are no reasons exactly when every recorded gate passes. */
  lemma EveryGatePassesIffNoReasons(policy: Policy, f: Figures)
    ensures CapitalReasons(policy, f) == []
            <==> forall id :: id in CapitalGates(policy, f) ==> CapitalGates(policy, f)[id].status == Pass
  {
    hide CapitalFloorOf;
    var gates := CapitalGates(policy, f);
    assert "daily_loss" in gates && "global_slots" in gates && "coin_slots" in gates && "coin_allocation" in gates;
    if Candidate(f).Some? {
      assert "minimum_tranche_capital" in gates && "global_capital" in gates;
    } else {
      assert "grant_candidate" in gates;
    }
  }

  /** ALLOWED exactly when the portfolio is live, knows the coin and every gate
      is open; UNAVAILABLE never means a missing candidate. */
  lemma AllowedIffEveryGateIsOpen(policy: Policy, state: State, symbol: string)
    ensures var e, coin := Evaluate(policy, state, symbol), FirstCoin(state.coins, symbol);
            && (e.status == Allowed <==>
                  state.health == Live && coin.Some?
                    && Admissible(policy, FiguresOf(policy, state.global, coin.value.buckets)))
            && (e.status == Unavailable <==> state.health != Live || coin.None?)
            && (e.status == Allowed <==> e.grant.Some?)
  {
    hide CapitalFloorOf, CapitalReasons, Admissible, CapitalGates, GrantOf, Candidate, FirstCoin;
    var coin := FirstCoin(state.coins, symbol);
    if coin.Some? {
      var f := FiguresOf(policy, state.global, coin.value.buckets);
      NoReasonsIffAdmissible(policy, f);
    }
  }

  /** A refusal carries PASS as its primary reason exactly when the loss gate
      is not open and its reason is, or defaults to, PASS. */
  lemma BlockedReasonCanBePass(policy: Policy, f: Figures)
    ensures EvaluateFigures(policy, f).status == Blocked && EvaluateFigures(policy, f).reasons[0] == "PASS"
            <==>
              LossStatus(policy) != Pass
              && (policy.lossReason == Some("PASS") || (policy.lossReason == None && !policy.lossBlocked))
  {
    hide CapitalFloorOf, CapitalGates, GrantOf;
  }

  /** Such a refusal exists: a failing loss gate without a reason of its own blocks an otherwise open coin with PASS. */
  lemma SomeBlockSaysPass()
    ensures var e := EvaluateFigures(Policy(0.0, 1.0, 1.0, 1, 1, false, Fail, None, None, None, ""),
                                     Figures(1.0, 1.0, 1, 1));
            e.status == Blocked && e.reasons[0] == "PASS"
  {
    hide EvaluateFigures;
    BlockedReasonCanBePass(Policy(0.0, 1.0, 1.0, 1, 1, false, Fail, None, None, None, ""), Figures(1.0, 1.0, 1, 1));
  }

  // ---------- the consumer side of a grant ----------

  /** `_validate_capacity` of a submission against the grant's own fields. */
  predicate SubmitAccepted(g: Grant, held: real) {
    held >= 0.0 && g.requested >= 0.0 && g.remainingCoin >= 0.0 && g.remainingGlobal >= 0.0
    && held <= g.requested && held <= g.remainingCoin && held <= g.remainingGlobal
    && g.coinSlots >= 1 && g.globalSlots >= 1
  }

  lemma CandidateBounds(f: Figures)
    requires f.freeCoin > 0.0 && f.coinSlots > 0
    ensures var c := CapitalFloorOf(f.freeCoin / f.coinSlots as real);
            c <= f.freeCoin / f.coinSlots as real <= f.freeCoin && CapitalFloorOf(c) == c
            && c <= CapitalFloorOf(f.freeCoin) <= f.freeCoin
  {
    hide FloorToUnit;
    var share := f.freeCoin / f.coinSlots as real;
    ShareBound(f.freeCoin, f.coinSlots as real);
    CapitalFloor(share);
    CapitalFloor(f.freeCoin);
    CapitalFloorMonotone(share, f.freeCoin);
  }

  lemma ShareBound(free: real, slots: real)
    requires free > 0.0 && slots >= 1.0
    ensures free / slots <= free
  {
    QuotientTimes(free, slots);
    Distribute(1.0, slots, free);
    ProductSign(slots - 1.0, free, (slots - 1.0) * free);
    ScaleOrder(free / slots, free, slots);
  }

  /** Every allowed grant accepts exactly the submissions that do not
      exceed its requested amount, floored fields included. */
  lemma AllowedGrantIsSubmittable(policy: Policy, state: State, symbol: string, held: real)
    requires Evaluate(policy, state, symbol).status == Allowed
    ensures Evaluate(policy, state, symbol).grant.Some?
    ensures SubmitAccepted(Evaluate(policy, state, symbol).grant.value, held)
            <==> 0.0 <= held <= Evaluate(policy, state, symbol).grant.value.requested
  {
    hide CapitalFloorOf, CapitalReasons, CapitalGates, FirstCoin;
    var f := FiguresOf(policy, state.global, FirstCoin(state.coins, symbol).value.buckets);
    NoReasonsIffAdmissible(policy, f);
    CandidateBounds(f);
    GlobalFloor(f.freeGlobal, f.freeCoin / f.coinSlots as real);
  }

  lemma GlobalFloor(free: real, share: real)
    requires free >= CapitalFloorOf(share)
    ensures CapitalFloorOf(free) >= CapitalFloorOf(share)
  {
    hide FloorToUnit;
    CapitalFloor(share);
    CapitalFloorMonotone(CapitalFloorOf(share), free);
  }

  // ---------- tranche division ----------

  /** A granted tranche held in full: committed in the coin and globally, one slot each. */
  function Hold(b: Buckets, amount: real): Buckets {
    b.(held := b.held + amount, tranches := b.tranches + 1)
  }

  lemma HoldMovesFigures(policy: Policy, global: Buckets, coin: Buckets, amount: real)
    ensures var f := FiguresOf(policy, global, coin);
            FiguresOf(policy, Hold(global, amount), Hold(coin, amount))
            == Figures(f.freeGlobal - amount, f.freeCoin - amount, f.globalSlots - 1, f.coinSlots - 1)
  {
  }

  /** The amounts granted one after the other, each held in full, until the coin refuses. */
  function Tranches(policy: Policy, global: Buckets, coin: Buckets, n: nat): seq<real>
    decreases n
  {
    if n == 0 then []
    else
      var e := EvaluateFigures(policy, FiguresOf(policy, global, coin));
      if e.grant.None? then []
      else
        var amount := e.grant.value.requested;
        [amount] + Tranches(policy, Hold(global, amount), Hold(coin, amount), n - 1)
  }

  function SumOf(v: seq<real>): real {
    if v == [] then 0.0 else v[0] + SumOf(v[1..])
  }

  lemma NextShare(free: real, slots: int, amount: real)
    requires free > 0.0 && slots >= 2 && amount <= free / slots as real
    ensures (free - amount) / (slots - 1) as real >= free / slots as real
    ensures free - amount > 0.0
  {
    var s, share := slots as real, free / slots as real;
    QuotientTimes(free, s);
    ProductSign(share, s, free);
    assert (slots - 1) as real == s - 1.0;
    Distribute(1.0, s, share);
    assert share * (s - 1.0) == free - share;
    var next := (free - amount) / (s - 1.0);
    QuotientTimes(free - amount, s - 1.0);
    ScaleOrder(share, next, s - 1.0);
    ProductSign(s - 1.0, share, share * (s - 1.0));
  }

  lemma AllowedAmount(policy: Policy, f: Figures)
    requires Admissible(policy, f)
    ensures var e := EvaluateFigures(policy, f);
            e.grant.Some? && e.grant.value.requested == CapitalFloorOf(f.freeCoin / f.coinSlots as real)
  {
    hide CapitalFloorOf, CapitalReasons, CapitalGates;
    NoReasonsIffAdmissible(policy, f);
  }

  /** After one full booking the next grant is again admissible and at least as large. */
  lemma NextIsAdmissible(policy: Policy, f: Figures)
    requires Admissible(policy, f) && f.coinSlots >= 2 && f.globalSlots >= f.coinSlots && f.freeGlobal >= f.freeCoin
    ensures var c := CapitalFloorOf(f.freeCoin / f.coinSlots as real);
            var g := Figures(f.freeGlobal - c, f.freeCoin - c, f.globalSlots - 1, f.coinSlots - 1);
            Admissible(policy, g) && CapitalFloorOf(g.freeCoin / g.coinSlots as real) >= c
  {
    hide CapitalFloorOf;
    var c := CapitalFloorOf(f.freeCoin / f.coinSlots as real);
    var g := Figures(f.freeGlobal - c, f.freeCoin - c, f.globalSlots - 1, f.coinSlots - 1);
    CandidateBounds(f);
    NextShare(f.freeCoin, f.coinSlots, c);
    FloorGrows(f.freeCoin / f.coinSlots as real, g.freeCoin / g.coinSlots as real);
    CandidateBounds(g);
  }

  lemma FloorGrows(x: real, y: real)
    requires x <= y
    ensures CapitalFloorOf(x) <= CapitalFloorOf(y)
  {
    hide FloorToUnit;
    CapitalFloorMonotone(x, y);
  }

  lemma LastSlot(f: Figures)
    requires f.freeCoin > 0.0 && f.coinSlots == 1
    ensures var c := CapitalFloorOf(f.freeCoin / f.coinSlots as real);
            0.0 <= f.freeCoin - c < 1.0 / Pow10(CAPITAL_SCALE) as real
  {
    hide FloorToUnit, Pow10;
    assert f.freeCoin / 1.0 == f.freeCoin;
    CapitalFloor(f.freeCoin);
  }

  /** Once the first tranche is allowed and global limits do not bind, every slot is funded with non-decreasing amounts,
      the free coin capital is never exceeded, and less than one capital unit is left after the last slot. */
  lemma {:induction false} TranchesDivideTheCoin(policy: Policy, global: Buckets, coin: Buckets)
    requires var f := FiguresOf(policy, global, coin);
             Admissible(policy, f) && f.globalSlots >= f.coinSlots && f.freeGlobal >= f.freeCoin
    ensures var f := FiguresOf(policy, global, coin);
            var amounts := Tranches(policy, global, coin, f.coinSlots);
            && |amounts| == f.coinSlots
            && amounts[0] == CapitalFloorOf(f.freeCoin / f.coinSlots as real)
            && (forall i :: 0 <= i < |amounts| ==> amounts[i] >= policy.minimum && amounts[i] > 0.0)
            && (forall i :: 0 < i < |amounts| ==> amounts[i - 1] <= amounts[i])
            && 0.0 <= f.freeCoin - SumOf(amounts) < 1.0 / Pow10(CAPITAL_SCALE) as real
    decreases FiguresOf(policy, global, coin).coinSlots
  {
    hide CapitalFloorOf, EvaluateFigures, Pow10, Commitment;
    var f := FiguresOf(policy, global, coin);
    AllowedAmount(policy, f);
    var c := CapitalFloorOf(f.freeCoin / f.coinSlots as real);
    HoldMovesFigures(policy, global, coin, c);
    var rest := Tranches(policy, Hold(global, c), Hold(coin, c), f.coinSlots - 1);
    assert Tranches(policy, global, coin, f.coinSlots) == [c] + rest;
    assert ([c] + rest)[1..] == rest;
    if f.coinSlots == 1 {
      LastSlot(f);
    } else {
      NextIsAdmissible(policy, f);
      TranchesDivideTheCoin(policy, Hold(global, c), Hold(coin, c));
    }
  }
}
