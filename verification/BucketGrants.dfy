/** When the portfolio grants a tranche and how much, in terms of the four buckets of committed capital. */
module BucketGrants {
  import opened Prelude
  import opened RealArithmetic
  import opened GridRounding
  import opened PortfolioGrants

  /** What a cap leaves beside held, reserved, filled and closing capital. */
  function Free(cap: real, b: Buckets): real {
    cap - b.held - b.reserved - b.filled - b.closing
  }

  lemma FiguresAreFree(policy: Policy, global: Buckets, coin: Buckets)
    ensures FiguresOf(policy, global, coin)
            == Figures(Free(policy.globalCap, global), Free(policy.coinCap, coin),
                       policy.maxOpen - global.tranches, policy.maxPerCoin - coin.tranches)
  {
  }

  // ---------- capital units ----------

  /** A million of a million parts. */
  const UNITS := 1000000000000.0

  ghost predicate IsUnits(x: real, k: int) {
    x * UNITS == k as real
  }

  /** The most whole units of 10^-12 within an amount. */
  ghost predicate IsCapitalFloor(x: real, amount: real) {
    (exists k :: IsUnits(x, k)) && x <= amount && (amount - x) * UNITS < 1.0
  }

  lemma UnitsAreExact()
    ensures Pow10(CAPITAL_SCALE) as real == UNITS
  {
    ScalesAreExact();
  }

  lemma FloorAtIs(x: real, u: real)
    requires u > 0.0
    ensures FloorAt(x, u) * u == (x * u).Floor as real
  {
    QuotientTimes((x * u).Floor as real, u);
  }

  lemma CapitalFloorIsExact(amount: real, x: real)
    ensures CapitalFloorOf(amount) == x <==> IsCapitalFloor(x, amount)
  {
    hide FloorAt, Pow10;
    UnitsAreExact();
    FloorAtIs(amount, UNITS);
    var k := (amount * UNITS).Floor;
    var floor := CapitalFloorOf(amount);
    assert IsUnits(floor, k);
    ScaleOrder(floor, amount, UNITS);
    Distribute(floor, amount, UNITS);
    if IsCapitalFloor(x, amount) {
      var j :| IsUnits(x, j);
      ScaleOrder(x, amount, UNITS);
      Distribute(x, amount, UNITS);
      assert j == k;
      ScaleOrder(x, floor, UNITS);
    }
  }

  // ---------- the grant ----------

  /** The first coin with the symbol. */
  ghost predicate IsFirst(coins: seq<Coin>, symbol: string, i: nat) {
    i < |coins| && coins[i].symbol == symbol && forall j :: 0 <= j < i ==> coins[j].symbol != symbol
  }

  lemma {:induction false} FirstCoinIsExact(coins: seq<Coin>, symbol: string, i: nat)
    requires IsFirst(coins, symbol, i)
    ensures FirstCoin(coins, symbol) == Some(coins[i])
  {
    if i > 0 {
      assert coins[0].symbol != symbol;
      FirstCoinIsExact(coins[1..], symbol, i - 1);
    }
  }

  lemma {:induction false} NoCoinIsExact(coins: seq<Coin>, symbol: string)
    ensures FirstCoin(coins, symbol).None? <==> forall c :: c in coins ==> c.symbol != symbol
  {
    if coins != [] && coins[0].symbol != symbol {
      NoCoinIsExact(coins[1..], symbol);
      assert forall c :: c in coins <==> c == coins[0] || c in coins[1..];
    }
  }

  /** A tranche that may be granted: an equal share of the coin's free capital, in whole units, for each free slot. */
  ghost predicate IsTranche(policy: Policy, global: Buckets, coin: Buckets, amount: real) {
    var free, slots := Free(policy.coinCap, coin), policy.maxPerCoin - coin.tranches;
    && policy.lossStatus == Pass && !policy.lossBlocked
    && global.tranches < policy.maxOpen && slots > 0 && free > 0.0
    && IsCapitalFloor(amount, free / slots as real)
    && amount > 0.0 && amount >= policy.minimum && amount <= Free(policy.globalCap, global)
  }

  lemma TrancheIsExact(policy: Policy, global: Buckets, coin: Buckets, amount: real)
    ensures var e := EvaluateFigures(policy, FiguresOf(policy, global, coin));
            (e.grant.Some? && e.grant.value.requested == amount <==> IsTranche(policy, global, coin, amount))
            && (e.grant.Some? <==> e.status == Allowed)
            && (e.grant.Some? ==>
                  && e.grant.value.minimum == policy.minimum
                  && e.grant.value.remainingCoin == CapitalFloorOf(Free(policy.coinCap, coin))
                  && e.grant.value.remainingGlobal == CapitalFloorOf(Free(policy.globalCap, global))
                  && e.grant.value.coinSlots == policy.maxPerCoin - coin.tranches
                  && e.grant.value.globalSlots == policy.maxOpen - global.tranches)
  {
    hide CapitalFloorOf, CapitalReasons, CapitalGates, IsCapitalFloor, Free, FiguresOf;
    FiguresAreFree(policy, global, coin);
    var f := FiguresOf(policy, global, coin);
    NoReasonsIffAdmissible(policy, f);
    if f.freeCoin > 0.0 && f.coinSlots > 0 {
      CapitalFloorIsExact(f.freeCoin / f.coinSlots as real, amount);
    }
  }

  /** A grant is given exactly to a live portfolio that knows the coin, for exactly the tranche of its buckets. */
  lemma GrantsExactly(policy: Policy, state: State, symbol: string, amount: real)
    ensures var e := Evaluate(policy, state, symbol);
            e.status == Allowed && e.grant.Some? && e.grant.value.requested == amount
            <==> state.health == Live
                 && exists i: nat :: IsFirst(state.coins, symbol, i)
                                && IsTranche(policy, state.global, state.coins[i].buckets, amount)
  {
    hide EvaluateFigures, IsTranche, FiguresOf, FirstCoin;
    var coin := FirstCoin(state.coins, symbol);
    if coin.Some? {
      TrancheIsExact(policy, state.global, coin.value.buckets, amount);
    }
    if i: nat :| IsFirst(state.coins, symbol, i) && IsTranche(policy, state.global, state.coins[i].buckets, amount) {
      FirstCoinIsExact(state.coins, symbol, i);
    }
    if coin.Some? {
      var i := FoundCoin(state.coins, symbol);
    }
  }

  lemma {:induction false} FoundCoin(coins: seq<Coin>, symbol: string) returns (i: nat)
    requires FirstCoin(coins, symbol).Some?
    ensures IsFirst(coins, symbol, i) && FirstCoin(coins, symbol) == Some(coins[i])
  {
    i := 0;
    if coins[0].symbol != symbol {
      i := FoundCoin(coins[1..], symbol);
      i := i + 1;
    }
  }

  /** Committed capital and a granted tranche together stay within both caps, and so do the slots. */
  lemma AllowedStaysInside(policy: Policy, state: State, symbol: string, i: nat)
    requires Evaluate(policy, state, symbol).status == Allowed && IsFirst(state.coins, symbol, i)
    ensures Evaluate(policy, state, symbol).grant.Some?
    ensures var amount, coin := Evaluate(policy, state, symbol).grant.value.requested, state.coins[i].buckets;
            && amount + coin.held + coin.reserved + coin.filled + coin.closing <= policy.coinCap
            && amount + state.global.held + state.global.reserved + state.global.filled + state.global.closing
               <= policy.globalCap
            && coin.tranches + 1 <= policy.maxPerCoin && state.global.tranches + 1 <= policy.maxOpen
  {
    hide EvaluateFigures, FiguresOf, FirstCoin;
    var coin := state.coins[i].buckets;
    FirstCoinIsExact(state.coins, symbol, i);
    TrancheIsExact(policy, state.global, coin, 0.0);
    var amount := Evaluate(policy, state, symbol).grant.value.requested;
    TrancheIsExact(policy, state.global, coin, amount);
    ShareBound(Free(policy.coinCap, coin), (policy.maxPerCoin - coin.tranches) as real);
  }

  /** One tranche for each free slot uses up the coin's free capital to within one unit per slot. */
  lemma TranchesUseTheCoin(policy: Policy, global: Buckets, coin: Buckets, amount: real)
    requires IsTranche(policy, global, coin, amount)
    ensures var left, slots := Free(policy.coinCap, coin) - amount * (policy.maxPerCoin - coin.tranches) as real,
                               (policy.maxPerCoin - coin.tranches) as real;
            0.0 <= left && left * UNITS < slots
  {
    hide Free;
    ShareLeft(Free(policy.coinCap, coin), (policy.maxPerCoin - coin.tranches) as real, amount);
  }

  lemma ShareLeft(free: real, slots: real, amount: real)
    requires slots > 0.0 && amount <= free / slots && (free / slots - amount) * UNITS < 1.0
    ensures 0.0 <= free - amount * slots && (free - amount * slots) * UNITS < slots
  {
    var rest := free / slots - amount;
    QuotientTimes(free, slots);
    Distribute(amount, free / slots, slots);
    NonNegativeProduct(rest, slots);
    Distribute(0.0, rest * UNITS, slots);
    ScaleOrder(1.0, rest * UNITS, slots);
    UnitsCommute(rest, slots);
  }

  lemma UnitsCommute(rest: real, slots: real)
    ensures rest * slots * UNITS == rest * UNITS * slots
  {
  }

  // ---------- the recorded gates ----------

  /** A gate that passes says PASS; any other one gives its reason. */
  predicate Shows(gate: Gate, passes: bool, reason: string, configured: Detail, calculated: Detail) {
    && gate.status == (if passes then Pass else Fail) && gate.reason == (if passes then "PASS" else reason)
    && gate.configured == configured && gate.calculated == calculated && gate.availability == None
  }

  /** The loss gate: a block fails it, unless its status is worse, and its reason is the given one or a default. */
  predicate ShowsLoss(gate: Gate, policy: Policy) {
    var status := if policy.lossBlocked && policy.lossStatus == Pass then Fail else policy.lossStatus;
    var default := if policy.lossBlocked then "DAILY_LOSS_LIMIT_REACHED" else "PASS";
    && gate.status == status
    && gate.reason == (if status == Pass then "PASS" else policy.lossReason.GetOr(default))
    && gate.configured == (if policy.lossConfigured.Some? then Words(policy.lossConfigured.value) else NoDetail)
    && gate.calculated == (if policy.lossCalculated.Some? then Words(policy.lossCalculated.value) else NoDetail)
    && gate.availability == Some(policy.lossAvailability)
  }

  /** Which gates a live portfolio records for a coin, what each compares, and the order of the refusals. */
  lemma GatesInWords(policy: Policy, global: Buckets, coin: Buckets)
    ensures var e := EvaluateFigures(policy, FiguresOf(policy, global, coin));
            var free, slots := Free(policy.coinCap, coin), policy.maxPerCoin - coin.tranches;
            var share := if slots != 0 then free / slots as real else 0.0;
            && e.gates.Keys == (if free > 0.0 && slots > 0
                                then {"daily_loss", "global_slots", "coin_slots", "coin_allocation",
                                      "minimum_tranche_capital", "global_capital"}
                                else {"daily_loss", "global_slots", "coin_slots", "coin_allocation", "grant_candidate"})
            && ShowsLoss(e.gates["daily_loss"], policy)
            && Shows(e.gates["global_slots"], global.tranches < policy.maxOpen, "MAX_OPEN_POSITIONS_REACHED",
                     Slots(policy.maxOpen), Slots(policy.maxOpen - global.tranches))
            && Shows(e.gates["coin_slots"], slots > 0, "MAX_COIN_POSITIONS_REACHED", Slots(policy.maxPerCoin),
                     Slots(slots))
            && Shows(e.gates["coin_allocation"], free > 0.0, "COIN_ALLOCATION_REACHED", Amount(policy.coinCap),
                     Amount(CapitalFloorOf(free)))
            && (free > 0.0 && slots > 0 ==>
                  var c := CapitalFloorOf(share);
                  && Shows(e.gates["minimum_tranche_capital"], c > 0.0 && c >= policy.minimum,
                           "MINIMUM_TRANCHE_CAPITAL_NOT_MET", Amount(policy.minimum), Amount(c))
                  && Shows(e.gates["global_capital"], c <= Free(policy.globalCap, global),
                           "INSUFFICIENT_GLOBAL_CAPITAL_FOR_TRANCHE",
                           Amount(CapitalFloorOf(Free(policy.globalCap, global))), Amount(c)))
  {
    hide CapitalFloorOf, Free, FiguresOf, EvaluateFigures, CapitalGates, LimitGates, Shows, ShowsLoss;
    FiguresAreFree(policy, global, coin);
    var f := FiguresOf(policy, global, coin);
    GatesOf(policy, f);
    LimitGatesAre(policy, f);
    CapitalGatesAre(policy, f);
  }

  lemma LimitGatesAre(policy: Policy, f: Figures)
    ensures var gates := LimitGates(policy, f);
            && gates.Keys == {"daily_loss", "global_slots", "coin_slots", "coin_allocation"}
            && ShowsLoss(gates["daily_loss"], policy)
            && Shows(gates["global_slots"], f.globalSlots > 0, "MAX_OPEN_POSITIONS_REACHED", Slots(policy.maxOpen),
                     Slots(f.globalSlots))
            && Shows(gates["coin_slots"], f.coinSlots > 0, "MAX_COIN_POSITIONS_REACHED", Slots(policy.maxPerCoin),
                     Slots(f.coinSlots))
            && Shows(gates["coin_allocation"], f.freeCoin > 0.0, "COIN_ALLOCATION_REACHED", Amount(policy.coinCap),
                     Amount(CapitalFloorOf(f.freeCoin)))
  {
    hide CapitalFloorOf;
  }

  lemma CapitalGatesAre(policy: Policy, f: Figures)
    ensures var gates, limits := CapitalGates(policy, f), LimitGates(policy, f);
            && gates.Keys == limits.Keys + (if f.freeCoin > 0.0 && f.coinSlots > 0
                                            then {"minimum_tranche_capital", "global_capital"} else {"grant_candidate"})
            && (forall id :: id in limits ==> gates[id] == limits[id])
            && (f.freeCoin > 0.0 && f.coinSlots > 0 ==>
                  var c := CapitalFloorOf(f.freeCoin / f.coinSlots as real);
                  && Shows(gates["minimum_tranche_capital"], c > 0.0 && c >= policy.minimum,
                           "MINIMUM_TRANCHE_CAPITAL_NOT_MET", Amount(policy.minimum), Amount(c))
                  && Shows(gates["global_capital"], c <= f.freeGlobal, "INSUFFICIENT_GLOBAL_CAPITAL_FOR_TRANCHE",
                           Amount(CapitalFloorOf(f.freeGlobal)), Amount(c)))
  {
    hide CapitalFloorOf, LimitGates, GateOf;
    LimitKeys(policy, f);
    if f.freeCoin > 0.0 && f.coinSlots > 0 {
      var c := CapitalFloorOf(f.freeCoin / f.coinSlots as real);
      GateShows(c > 0.0 && c >= policy.minimum, "MINIMUM_TRANCHE_CAPITAL_NOT_MET", Amount(policy.minimum), Amount(c));
      GateShows(f.freeGlobal >= c, "INSUFFICIENT_GLOBAL_CAPITAL_FOR_TRANCHE", Amount(CapitalFloorOf(f.freeGlobal)),
                Amount(c));
    }
  }

  lemma LimitKeys(policy: Policy, f: Figures)
    ensures LimitGates(policy, f).Keys == {"daily_loss", "global_slots", "coin_slots", "coin_allocation"}
  {
    hide CapitalFloorOf, GateOf, When;
  }

  lemma GateShows(passes: bool, reason: string, configured: Detail, calculated: Detail)
    ensures Shows(GateOf(When(passes), reason, configured, calculated, None), passes, reason, configured, calculated)
  {
  }

  lemma GatesOf(policy: Policy, f: Figures)
    ensures EvaluateFigures(policy, f).gates == CapitalGates(policy, f)
  {
    hide CapitalGates, CapitalReasons, CapitalFloorOf;
    NoReasonsIffAdmissible(policy, f);
  }

  // ---------- only the sum of the buckets matters ----------

  predicate SameTotal(a: Buckets, b: Buckets) {
    a.held + a.reserved + a.filled + a.closing == b.held + b.reserved + b.filled + b.closing && a.tranches == b.tranches
  }

  /** The same portfolio with capital moved between buckets. */
  ghost predicate Moved(a: State, b: State) {
    && a.health == b.health && SameTotal(a.global, b.global) && |a.coins| == |b.coins|
    && forall i :: 0 <= i < |a.coins| ==>
         a.coins[i].symbol == b.coins[i].symbol && SameTotal(a.coins[i].buckets, b.coins[i].buckets)
  }

  lemma {:induction false} MovedCoins(a: seq<Coin>, b: seq<Coin>, symbol: string)
    requires |a| == |b|
    requires forall i :: 0 <= i < |a| ==> a[i].symbol == b[i].symbol && SameTotal(a[i].buckets, b[i].buckets)
    ensures var c, d := FirstCoin(a, symbol), FirstCoin(b, symbol);
            c.Some? == d.Some? && (c.Some? ==> SameTotal(c.value.buckets, d.value.buckets))
  {
    hide SameTotal;
    if a != [] && a[0].symbol != symbol {
      assert forall i :: 0 <= i < |a[1..]| ==> a[1..][i] == a[i + 1] && b[1..][i] == b[i + 1];
      MovedCoins(a[1..], b[1..], symbol);
    }
  }

  /** Moving capital from one bucket to another changes nothing: no status, reason, gate or amount. */
  lemma OnlyTotalsMatter(policy: Policy, a: State, b: State, symbol: string)
    requires Moved(a, b)
    ensures Evaluate(policy, a, symbol) == Evaluate(policy, b, symbol)
  {
    hide EvaluateFigures, FirstCoin;
    MovedCoins(a.coins, b.coins, symbol);
  }
}
