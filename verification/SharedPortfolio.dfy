/** The research portfolio book shared by all symbols of a run. Symbols are already upper-case. */
module SharedPortfolio {
  import opened Prelude
  import opened Sorting
  import opened Totals

  datatype Portfolio = Portfolio(
    totalCapital: real, capPct: real, allocation: map<string, real>, maxOpen: int, maxPerCoin: int,
    committed: map<string, real>, open: map<string, int>)

  datatype PortfolioError =
    | NonPositiveReservation | OutsideAllocation | CoinCapExceeded | AggregateCapExceeded | GlobalSlotsExceeded
    | CoinSlotsExceeded | NonPositiveRelease | ReleaseExceedsCommitment
    | AmountMissing | AmountNotPositive | SymbolRequired | SourceNotCanonical | ClosedFinalityRequired
    | UnsupportedAction

  type Booking = Result<Portfolio, PortfolioError>

  /** What the constructor insists on. */
  ghost predicate Configured(p: Portfolio) {
    p.totalCapital > 0.0 && 0.0 < p.capPct <= 1.0 && p.maxOpen >= 1 && p.maxPerCoin >= 1 && Sum(p.allocation) == 1.0
  }

  function Share(total: real, part: real): real {
    total * part
  }

  function CoinCap(p: Portfolio, symbol: string): real
    requires symbol in p.allocation
  {
    Share(p.totalCapital, p.allocation[symbol])
  }

  function AggregateCap(p: Portfolio): real {
    Share(p.totalCapital, p.capPct)
  }

  // ---------- reserve and release ----------

  ghost function Reserved(p: Portfolio, symbol: string, amount: real): Booking {
    if amount <= 0.0 then Failure(NonPositiveReservation)
    else if symbol !in p.allocation then Failure(OutsideAllocation)
    else if Get(p.committed, symbol) + amount > CoinCap(p, symbol) then Failure(CoinCapExceeded)
    else if Sum(p.committed) + amount > AggregateCap(p) then Failure(AggregateCapExceeded)
    else if IntSum(p.open) + 1 > p.maxOpen then Failure(GlobalSlotsExceeded)
    else if IntGet(p.open, symbol) + 1 > p.maxPerCoin then Failure(CoinSlotsExceeded)
    else Success(p.(committed := p.committed[symbol := Get(p.committed, symbol) + amount],
                    open := p.open[symbol := IntGet(p.open, symbol) + 1]))
  }

  /** A reservation in numbers: within the coin's share of the capital, the usable capital and both slot limits. */
  lemma ReservedInNumbers(p: Portfolio, symbol: string, amount: real)
    ensures Reserved(p, symbol, amount).Success?
            <==> amount > 0.0 && symbol in p.allocation
                 && Get(p.committed, symbol) + amount <= p.totalCapital * p.allocation[symbol]
                 && Sum(p.committed) + amount <= p.totalCapital * p.capPct
                 && IntSum(p.open) + 1 <= p.maxOpen && IntGet(p.open, symbol) + 1 <= p.maxPerCoin
    ensures Reserved(p, symbol, amount).Success? ==>
              var q := Reserved(p, symbol, amount).value;
              && q == p.(committed := q.committed, open := q.open)
              && Get(q.committed, symbol) == Get(p.committed, symbol) + amount
              && IntGet(q.open, symbol) == IntGet(p.open, symbol) + 1
              && forall s :: s != symbol ==>
                   Get(q.committed, s) == Get(p.committed, s) && IntGet(q.open, s) == IntGet(p.open, s)
  {
    hide Sum, IntSum;
  }

  function SlotReleased(open: map<string, int>, symbol: string): map<string, int> {
    if IntGet(open, symbol) <= 0 then open
    else if open[symbol] == 1 then open - {symbol}
    else open[symbol := open[symbol] - 1]
  }

  function Released(p: Portfolio, symbol: string, amount: real): Booking {
    if amount <= 0.0 then Failure(NonPositiveRelease)
    else if amount > Get(p.committed, symbol) then Failure(ReleaseExceedsCommitment)
    else
      var left := Get(p.committed, symbol) - amount;
      Success(p.(committed := if left != 0.0 then p.committed[symbol := left] else p.committed - {symbol},
                 open := SlotReleased(p.open, symbol)))
  }

  method Reserve(p: Portfolio, symbol: string, amount: real) returns (r: Booking)
    ensures r == Reserved(p, symbol, amount)
  {
    hide CoinCap, AggregateCap;
    if amount <= 0.0 {
      return Failure(NonPositiveReservation);
    }
    if symbol !in p.allocation {
      return Failure(OutsideAllocation);
    }
    var committed, open := p.committed, p.open;
    var current := Get(committed, symbol);
    if current + amount > CoinCap(p, symbol) {
      return Failure(CoinCapExceeded);
    }
    var total := SumValues(committed);
    if total + amount > AggregateCap(p) {
      return Failure(AggregateCapExceeded);
    }
    var slots := IntSumValues(open);
    if slots + 1 > p.maxOpen {
      return Failure(GlobalSlotsExceeded);
    }
    if IntGet(open, symbol) + 1 > p.maxPerCoin {
      return Failure(CoinSlotsExceeded);
    }
    committed := committed[symbol := current + amount];
    open := open[symbol := IntGet(open, symbol) + 1];
    r := Success(p.(committed := committed, open := open));
  }

  method Release(p: Portfolio, symbol: string, amount: real) returns (r: Booking)
    ensures r == Released(p, symbol, amount)
  {
    if amount <= 0.0 {
      return Failure(NonPositiveRelease);
    }
    var committed, open := p.committed, p.open;
    var current := Get(committed, symbol);
    if amount > current {
      return Failure(ReleaseExceedsCommitment);
    }
    var left := current - amount;
    if left != 0.0 {
      committed := committed[symbol := left];
    } else {
      committed := committed - {symbol};
    }
    if IntGet(open, symbol) > 0 {
      if open[symbol] == 1 {
        open := open - {symbol};
      } else {
        open := open[symbol := open[symbol] - 1];
      }
    }
    r := Success(p.(committed := committed, open := open));
  }

  /** A reservation followed by the release of the same amount restores
      the book exactly when no stored entry was dead. */
  lemma ReserveThenReleaseRestores(p: Portfolio, symbol: string, amount: real)
    requires Reserved(p, symbol, amount).Success?
    ensures Released(Reserved(p, symbol, amount).value, symbol, amount) == Success(p)
            <==> (symbol in p.committed ==> p.committed[symbol] > 0.0) && (symbol in p.open ==> p.open[symbol] >= 1)
  {
    hide CoinCap, AggregateCap;
    var q := Reserved(p, symbol, amount).value;
    var r := Released(q, symbol, amount);
    var current, slots := Get(p.committed, symbol), IntGet(p.open, symbol);
    assert q.committed[symbol] == current + amount && q.open[symbol] == slots + 1;
    RestoredCommitment(p.committed, symbol, amount);
    RestoredSlot(p.open, symbol);
  }

  lemma RestoredCommitment(committed: map<string, real>, symbol: string, amount: real)
    requires amount > 0.0
    ensures var current := Get(committed, symbol);
            var after := committed[symbol := current + amount];
            (if current != 0.0 then after[symbol := current] else after - {symbol}) == committed
            <==> (symbol in committed ==> committed[symbol] != 0.0)
  {
    var current := Get(committed, symbol);
    var after := committed[symbol := current + amount];
    if symbol !in committed {
      assert after - {symbol} == committed;
    } else if current != 0.0 {
      assert after[symbol := current] == committed;
    } else {
      assert symbol !in after - {symbol};
    }
  }

  lemma RestoredSlot(open: map<string, int>, symbol: string)
    ensures SlotReleased(open[symbol := IntGet(open, symbol) + 1], symbol) == open
            <==> (symbol in open ==> open[symbol] >= 1)
  {
    var slots := IntGet(open, symbol);
    var after := open[symbol := slots + 1];
    if symbol !in open {
      assert after - {symbol} == open;
    } else if slots >= 1 {
      assert after[symbol := slots] == open;
    } else if slots == 0 {
      assert symbol !in after - {symbol};
    } else {
      assert after[symbol] != open[symbol];
    }
  }

  // ---------- batches of reservations ----------

  datatype Reservation = Reservation(symbol: string, amount: real)

  ghost function ReserveAll(p: Portfolio, batch: seq<Reservation>): Booking {
    if batch == [] then Success(p)
    else
      var last := batch[|batch| - 1];
      match ReserveAll(p, batch[..|batch| - 1])
      case Success(q) => Reserved(q, last.symbol, last.amount)
      case Failure(e) => Failure(e)
  }

  function AmountFor(batch: seq<Reservation>, symbol: string): real {
    if batch == [] then 0.0
    else
      var last := batch[|batch| - 1];
      AmountFor(batch[..|batch| - 1], symbol) + if last.symbol == symbol then last.amount else 0.0
  }

  function CountFor(batch: seq<Reservation>, symbol: string): int {
    if batch == [] then 0
    else CountFor(batch[..|batch| - 1], symbol) + if batch[|batch| - 1].symbol == symbol then 1 else 0
  }

  function AmountOf(batch: seq<Reservation>): real {
    if batch == [] then 0.0 else AmountOf(batch[..|batch| - 1]) + batch[|batch| - 1].amount
  }

  /** The final totals meet every cap and limit; nothing here depends on the order of the batch. */
  ghost predicate Fits(p: Portfolio, batch: seq<Reservation>) {
    && (forall r :: r in batch ==> Allowed(p, batch, r))
    && (batch != [] ==> Sum(p.committed) + AmountOf(batch) <= AggregateCap(p) && IntSum(p.open) + |batch| <= p.maxOpen)
  }

  ghost predicate Allowed(p: Portfolio, batch: seq<Reservation>, r: Reservation) {
    r.amount > 0.0 && r.symbol in p.allocation
    && Get(p.committed, r.symbol) + AmountFor(batch, r.symbol) <= CoinCap(p, r.symbol)
    && IntGet(p.open, r.symbol) + CountFor(batch, r.symbol) <= p.maxPerCoin
  }

  function Symbols(batch: seq<Reservation>): set<string> {
    set r | r in batch :: r.symbol
  }

  /** The book with the batch added to it. */
  function Booked(p: Portfolio, batch: seq<Reservation>): Portfolio {
    p.(committed := map s | s in p.committed.Keys + Symbols(batch) :: Get(p.committed, s) + AmountFor(batch, s),
       open := map s | s in p.open.Keys + Symbols(batch) :: IntGet(p.open, s) + CountFor(batch, s))
  }

  lemma Split(batch: seq<Reservation>)
    requires batch != []
    ensures var last := batch[|batch| - 1];
            batch == batch[..|batch| - 1] + [last]
            && (forall r :: r in batch <==> r in batch[..|batch| - 1] || r == last)
  {
  }

  lemma {:induction false} AbsentSymbol(batch: seq<Reservation>, symbol: string)
    requires symbol !in Symbols(batch)
    ensures AmountFor(batch, symbol) == 0.0 && CountFor(batch, symbol) == 0
  {
    if batch != [] {
      Split(batch);
      var last := batch[|batch| - 1];
      assert last in batch;
      assert last.symbol in Symbols(batch);
      assert forall r :: r in batch[..|batch| - 1] ==> r in batch;
      AbsentSymbol(batch[..|batch| - 1], symbol);
    }
  }

  lemma SymbolsSplit(batch: seq<Reservation>)
    requires batch != []
    ensures Symbols(batch) == Symbols(batch[..|batch| - 1]) + {batch[|batch| - 1].symbol}
  {
    Split(batch);
    forall s
      ensures s in Symbols(batch) <==> s in Symbols(batch[..|batch| - 1]) + {batch[|batch| - 1].symbol}
    {
      if s in Symbols(batch) {
        var r :| r in batch && r.symbol == s;
      }
      assert batch[|batch| - 1] in batch;
    }
  }

  lemma BookedGets(p: Portfolio, batch: seq<Reservation>, symbol: string)
    ensures Get(Booked(p, batch).committed, symbol) == Get(p.committed, symbol) + AmountFor(batch, symbol)
    ensures IntGet(Booked(p, batch).open, symbol) == IntGet(p.open, symbol) + CountFor(batch, symbol)
  {
    if symbol !in Symbols(batch) {
      AbsentSymbol(batch, symbol);
    }
  }

  lemma TotalsStep(batch: seq<Reservation>, symbol: string)
    requires batch != []
    ensures var shorter, last := batch[..|batch| - 1], batch[|batch| - 1];
            && AmountFor(batch, symbol)
               == AmountFor(shorter, symbol) + (if last.symbol == symbol then last.amount else 0.0)
            && CountFor(batch, symbol) == CountFor(shorter, symbol) + (if last.symbol == symbol then 1 else 0)
  {
  }

  lemma CommittedStep(p: Portfolio, batch: seq<Reservation>)
    requires batch != []
    ensures var q, last := Booked(p, batch[..|batch| - 1]), batch[|batch| - 1];
            Booked(p, batch).committed == q.committed[last.symbol := Get(q.committed, last.symbol) + last.amount]
  {
    hide Symbols, AmountFor, CountFor;
    var q, last := Booked(p, batch[..|batch| - 1]), batch[|batch| - 1];
    SymbolsSplit(batch);
    BookedGets(p, batch[..|batch| - 1], last.symbol);
    var target := q.committed[last.symbol := Get(q.committed, last.symbol) + last.amount];
    forall s | s in target
      ensures s in Booked(p, batch).committed && Booked(p, batch).committed[s] == target[s]
    {
      TotalsStep(batch, s);
    }
    assert Booked(p, batch).committed.Keys == target.Keys;
  }

  lemma OpenStep(p: Portfolio, batch: seq<Reservation>)
    requires batch != []
    ensures var q, last := Booked(p, batch[..|batch| - 1]), batch[|batch| - 1];
            Booked(p, batch).open == q.open[last.symbol := IntGet(q.open, last.symbol) + 1]
  {
    hide Symbols, AmountFor, CountFor;
    var q, last := Booked(p, batch[..|batch| - 1]), batch[|batch| - 1];
    SymbolsSplit(batch);
    BookedGets(p, batch[..|batch| - 1], last.symbol);
    var target := q.open[last.symbol := IntGet(q.open, last.symbol) + 1];
    forall s | s in target
      ensures s in Booked(p, batch).open && Booked(p, batch).open[s] == target[s]
    {
      TotalsStep(batch, s);
    }
    assert Booked(p, batch).open.Keys == target.Keys;
  }

  lemma BookedStep(p: Portfolio, batch: seq<Reservation>)
    requires batch != []
    ensures var q, last := Booked(p, batch[..|batch| - 1]), batch[|batch| - 1];
            Booked(p, batch) == q.(committed := q.committed[last.symbol := Get(q.committed, last.symbol) + last.amount],
                                   open := q.open[last.symbol := IntGet(q.open, last.symbol) + 1])
  {
    hide Booked;
    CommittedStep(p, batch);
    OpenStep(p, batch);
    BookedSettings(p, batch);
    BookedSettings(p, batch[..|batch| - 1]);
  }

  lemma BookedNothing(p: Portfolio)
    ensures Booked(p, []) == p
  {
    assert Booked(p, []).committed == p.committed;
    assert Booked(p, []).open == p.open;
  }

  lemma {:induction false} BookedSums(p: Portfolio, batch: seq<Reservation>)
    ensures Sum(Booked(p, batch).committed) == Sum(p.committed) + AmountOf(batch)
    ensures IntSum(Booked(p, batch).open) == IntSum(p.open) + |batch|
  {
    hide Booked, Sum, IntSum;
    if batch == [] {
      BookedNothing(p);
    } else {
      var q, last := Booked(p, batch[..|batch| - 1]), batch[|batch| - 1];
      BookedSums(p, batch[..|batch| - 1]);
      BookedStep(p, batch);
      SumUpdate(q.committed, last.symbol, Get(q.committed, last.symbol) + last.amount);
      IntSumUpdate(q.open, last.symbol, IntGet(q.open, last.symbol) + 1);
    }
  }

  /** Dropping the last reservation of a fitting batch leaves a fitting batch. */
  lemma FitsShorter(p: Portfolio, batch: seq<Reservation>)
    requires batch != [] && Fits(p, batch)
    ensures Fits(p, batch[..|batch| - 1])
  {
    hide CoinCap, AggregateCap, Sum, IntSum;
    Split(batch);
    var shorter, last := batch[..|batch| - 1], batch[|batch| - 1];
    assert Allowed(p, batch, last);
    forall r | r in shorter
      ensures Allowed(p, shorter, r)
    {
      assert Allowed(p, batch, r);
    }
  }

  lemma LastIsReserved(p: Portfolio, batch: seq<Reservation>)
    requires batch != [] && Fits(p, batch[..|batch| - 1])
    ensures var q, last := Booked(p, batch[..|batch| - 1]), batch[|batch| - 1];
            && (Reserved(q, last.symbol, last.amount).Success? <==>
                  Allowed(p, batch, last) && Sum(p.committed) + AmountOf(batch) <= AggregateCap(p)
                  && IntSum(p.open) + |batch| <= p.maxOpen)
            && (Reserved(q, last.symbol, last.amount).Success? ==>
                Reserved(q, last.symbol, last.amount).value == Booked(p, batch))
  {
    hide Sum, IntSum, Fits, Share, AmountFor, CountFor, AmountOf, Booked, Get, IntGet;
    var q, last := Booked(p, batch[..|batch| - 1]), batch[|batch| - 1];
    BookedSettings(p, batch[..|batch| - 1]);
    LastTotals(batch);
    BookedGets(p, batch[..|batch| - 1], last.symbol);
    BookedSums(p, batch[..|batch| - 1]);
    BookedStep(p, batch);
    assert Reserved(q, last.symbol, last.amount).Success? <==>
             Allowed(p, batch, last) && Sum(p.committed) + AmountOf(batch) <= AggregateCap(p)
             && IntSum(p.open) + |batch| <= p.maxOpen;
  }

  lemma BookedSettings(p: Portfolio, batch: seq<Reservation>)
    ensures Booked(p, batch) == p.(committed := Booked(p, batch).committed, open := Booked(p, batch).open)
  {
  }

  lemma LastTotals(batch: seq<Reservation>)
    requires batch != []
    ensures var shorter, last := batch[..|batch| - 1], batch[|batch| - 1];
            && AmountFor(batch, last.symbol) == AmountFor(shorter, last.symbol) + last.amount
            && CountFor(batch, last.symbol) == CountFor(shorter, last.symbol) + 1
            && AmountOf(batch) == AmountOf(shorter) + last.amount
  {
  }

  lemma FitsLonger(p: Portfolio, batch: seq<Reservation>)
    requires batch != [] && Fits(p, batch[..|batch| - 1]) && Allowed(p, batch, batch[|batch| - 1])
    requires Sum(p.committed) + AmountOf(batch) <= AggregateCap(p) && IntSum(p.open) + |batch| <= p.maxOpen
    ensures Fits(p, batch)
  {
    hide CoinCap, AggregateCap, Sum, IntSum;
    Split(batch);
    var shorter, last := batch[..|batch| - 1], batch[|batch| - 1];
    forall r | r in batch
      ensures Allowed(p, batch, r)
    {
      assert r.symbol == last.symbol || Allowed(p, shorter, r);
      assert r in shorter || r == last;
      if r in shorter {
        assert Allowed(p, shorter, r);
      }
    }
  }

  /** A batch of reservations is accepted exactly when its final totals fit, and then it is simply added up. */
  lemma {:induction false} AcceptedIffFits(p: Portfolio, batch: seq<Reservation>)
    ensures ReserveAll(p, batch).Success? <==> Fits(p, batch)
    ensures Fits(p, batch) ==> ReserveAll(p, batch) == Success(Booked(p, batch))
  {
    hide Fits, Booked, Reserved, Allowed, Sum, IntSum, AmountOf, AggregateCap;
    if batch == [] {
      BookedNothing(p);
      EmptyFits(p);
    } else {
      AcceptedIffFits(p, batch[..|batch| - 1]);
      if Fits(p, batch) {
        FitsShorter(p, batch);
        FitsLast(p, batch);
      }
      if Fits(p, batch[..|batch| - 1]) {
        LastIsReserved(p, batch);
        var q, last := Booked(p, batch[..|batch| - 1]), batch[|batch| - 1];
        if Reserved(q, last.symbol, last.amount).Success? {
          FitsLonger(p, batch);
        }
      }
    }
  }

  lemma EmptyFits(p: Portfolio)
    ensures Fits(p, [])
  {
  }

  lemma FitsLast(p: Portfolio, batch: seq<Reservation>)
    requires batch != [] && Fits(p, batch)
    ensures Allowed(p, batch, batch[|batch| - 1])
    ensures Sum(p.committed) + AmountOf(batch) <= AggregateCap(p) && IntSum(p.open) + |batch| <= p.maxOpen
  {
    assert batch[|batch| - 1] in batch;
  }

  // ---------- the order of a batch does not matter ----------

  lemma {:induction false} AmountsOfConcat(a: seq<Reservation>, b: seq<Reservation>, symbol: string)
    ensures AmountFor(a + b, symbol) == AmountFor(a, symbol) + AmountFor(b, symbol)
    ensures CountFor(a + b, symbol) == CountFor(a, symbol) + CountFor(b, symbol)
    ensures AmountOf(a + b) == AmountOf(a) + AmountOf(b)
  {
    if b == [] {
      assert a + b == a;
    } else {
      assert (a + b)[..|a + b| - 1] == a + b[..|b| - 1];
      AmountsOfConcat(a, b[..|b| - 1], symbol);
    }
  }

  lemma AmountsWithout(batch: seq<Reservation>, k: nat, symbol: string)
    requires k < |batch|
    ensures AmountFor(batch, symbol) == AmountFor(Without(batch, k), symbol) + AmountFor([batch[k]], symbol)
    ensures CountFor(batch, symbol) == CountFor(Without(batch, k), symbol) + CountFor([batch[k]], symbol)
    ensures AmountOf(batch) == AmountOf(Without(batch, k)) + AmountOf([batch[k]])
  {
    hide AmountFor, CountFor, AmountOf;
    assert batch == batch[..k] + ([batch[k]] + batch[k + 1..]);
    AmountsOfConcat(batch[..k], [batch[k]] + batch[k + 1..], symbol);
    AmountsOfConcat([batch[k]], batch[k + 1..], symbol);
    AmountsOfConcat(batch[..k], batch[k + 1..], symbol);
  }

  lemma {:induction false} AmountsOfPermutation(a: seq<Reservation>, b: seq<Reservation>, symbol: string)
    requires multiset(a) == multiset(b)
    ensures AmountFor(a, symbol) == AmountFor(b, symbol)
    ensures CountFor(a, symbol) == CountFor(b, symbol)
    ensures AmountOf(a) == AmountOf(b)
    decreases |a|
  {
    hide AmountFor, CountFor, AmountOf, Without;
    MembersOfPermutation(a, b);
    if a == [] {
      assert b == [];
    } else {
      assert a[0] in b;
      var k :| 0 <= k < |b| && b[k] == a[0];
      RemoveOne(a, 0);
      RemoveOne(b, k);
      AmountsOfPermutation(Without(a, 0), Without(b, k), symbol);
      AmountsWithout(a, 0, symbol);
      AmountsWithout(b, k, symbol);
    }
  }

  lemma PermutationFits(p: Portfolio, a: seq<Reservation>, b: seq<Reservation>)
    requires multiset(a) == multiset(b) && Fits(p, a)
    ensures Fits(p, b)
  {
    hide CoinCap, AggregateCap, Sum, IntSum, AmountFor, CountFor, AmountOf;
    MembersOfPermutation(a, b);
    AmountsOfPermutation(a, b, "");
    forall r | r in b
      ensures Allowed(p, b, r)
    {
      assert r in a && Allowed(p, a, r);
      AmountsOfPermutation(a, b, r.symbol);
    }
  }

  lemma PermutationBooks(p: Portfolio, a: seq<Reservation>, b: seq<Reservation>)
    requires multiset(a) == multiset(b)
    ensures Booked(p, a) == Booked(p, b)
  {
    hide AmountFor, CountFor;
    MembersOfPermutation(a, b);
    assert Symbols(a) == Symbols(b);
    forall s
      ensures AmountFor(a, s) == AmountFor(b, s) && CountFor(a, s) == CountFor(b, s)
    {
      AmountsOfPermutation(a, b, s);
    }
    assert Booked(p, a).committed == Booked(p, b).committed;
    assert Booked(p, a).open == Booked(p, b).open;
  }

  /** Every permutation of a batch is accepted or refused alike, and an accepted one ends in the same book. */
  lemma ReservationsAreOrderFree(p: Portfolio, a: seq<Reservation>, b: seq<Reservation>)
    requires multiset(a) == multiset(b)
    ensures ReserveAll(p, a).Success? <==> ReserveAll(p, b).Success?
    ensures ReserveAll(p, a).Success? ==> ReserveAll(p, a) == ReserveAll(p, b)
  {
    hide Fits, Booked, ReserveAll;
    AcceptedIffFits(p, a);
    AcceptedIffFits(p, b);
    PermutationBooks(p, a, b);
    if Fits(p, a) {
      PermutationFits(p, a, b);
    }
    if Fits(p, b) {
      PermutationFits(p, b, a);
    }
  }

  // ---------- event runs ----------

  /** The first of the three amount fields that is present, if any. */
  datatype RawAmount = Absent | Unparsable | Exact(amount: real)

  datatype Event = Event(action: string, symbol: string, actual: RawAmount, held: RawAmount, plain: RawAmount,
      source: string, finality: string)

  function RawOf(e: Event): RawAmount {
    if !e.actual.Absent? then e.actual else if !e.held.Absent? then e.held else e.plain
  }

  function EventAmount(e: Event): Result<real, PortfolioError> {
    match RawOf(e)
    case Exact(a) => if a <= 0.0 then Failure(AmountNotPositive) else Success(a)
    case _ => Failure(AmountMissing)
  }

  predicate Reserves(e: Event) {
    e.action in ["RESERVE", "COMMIT", "OPEN"]
  }

  predicate Releases(e: Event) {
    e.action in ["RELEASE", "CLOSE", "CLOSED"]
  }

  predicate CanonicalSource(source: string) {
    source in [
      "lifecycle_start_gate.held_committed_capital", "submit_authorization.held_committed_capital",
      "order_spec.economics.actual_committed_capital", "futures_position.position_value_over_leverage",
      "backtest_canonical_commitment.actual_committed_capital"]
  }

  ghost function Step(p: Portfolio, e: Event): Booking {
    match EventAmount(e)
    case Failure(error) => Failure(error)
    case Success(amount) =>
      if e.symbol == "" then Failure(SymbolRequired)
      else if Reserves(e) then
        if CanonicalSource(e.source) then Reserved(p, e.symbol, amount) else Failure(SourceNotCanonical)
      else if Releases(e) then
        if e.finality == "CLOSED" then Released(p, e.symbol, amount) else Failure(ClosedFinalityRequired)
      else Failure(UnsupportedAction)
  }

  /** The first of the three amounts that is present decides, and it must be a positive number. */
  lemma FirstPresentAmountDecides(e: Event, amount: real)
    ensures EventAmount(e) == Success(amount)
            <==> amount > 0.0
                 && (e.actual == Exact(amount) || (e.actual == Absent && e.held == Exact(amount))
                     || (e.actual == Absent && e.held == Absent && e.plain == Exact(amount)))
    ensures EventAmount(e) == Failure(AmountNotPositive)
            <==> exists a :: a <= 0.0
                             && (e.actual == Exact(a) || (e.actual == Absent && e.held == Exact(a))
                                 || (e.actual == Absent && e.held == Absent && e.plain == Exact(a)))
  {
    match RawOf(e) {
      case Exact(a) => assert a <= 0.0 || EventAmount(e) == Success(a);
      case _ =>
    }
  }

  predicate SaysReserve(e: Event) {
    (e.action == "RESERVE" || e.action == "COMMIT" || e.action == "OPEN")
    && (e.source == "lifecycle_start_gate.held_committed_capital"
        || e.source == "submit_authorization.held_committed_capital"
        || e.source == "order_spec.economics.actual_committed_capital"
        || e.source == "futures_position.position_value_over_leverage"
        || e.source == "backtest_canonical_commitment.actual_committed_capital")
  }

  predicate SaysRelease(e: Event) {
    (e.action == "RELEASE" || e.action == "CLOSE" || e.action == "CLOSED") && e.finality == "CLOSED"
  }

  lemma WordsOfReserves(e: Event)
    ensures SaysReserve(e) <==> Reserves(e) && CanonicalSource(e.source)
  {
  }

  lemma WordsOfReleases(e: Event)
    ensures SaysRelease(e) <==> Releases(e) && e.finality == "CLOSED"
  {
  }

  lemma NeverBoth(e: Event)
    ensures !(Reserves(e) && Releases(e))
  {
  }

  /** Which events move capital, by their own words; every other one is refused. */
  lemma EventsInWords(p: Portfolio, e: Event)
    ensures e.symbol != "" && EventAmount(e).Success? && SaysReserve(e) ==>
              Step(p, e) == Reserved(p, e.symbol, EventAmount(e).value)
    ensures e.symbol != "" && EventAmount(e).Success? && SaysRelease(e) ==>
              Step(p, e) == Released(p, e.symbol, EventAmount(e).value)
    ensures e.symbol == "" || EventAmount(e).Failure? || (!SaysReserve(e) && !SaysRelease(e)) ==> Step(p, e).Failure?
  {
    hide Reserved, Released, EventAmount, Reserves, Releases, CanonicalSource, SaysReserve, SaysRelease;
    WordsOfReserves(e);
    WordsOfReleases(e);
    NeverBoth(e);
  }

  ghost function Run(p: Portfolio, events: seq<Event>): Booking {
    if events == [] then Success(p)
    else match Run(p, events[..|events| - 1])
      case Success(q) => Step(q, events[|events| - 1])
      case Failure(e) => Failure(e)
  }

  method ApplyEvents(p: Portfolio, events: seq<Event>) returns (r: Booking)
    ensures r == Run(p, events)
  {
    hide Reserved, Released, Reserves, Releases, CanonicalSource, EventAmount;
    var updated := p;
    RunPrefix(p, events, 0);
    for i := 0 to |events|
      invariant Run(p, events[..i]) == Success(updated)
    {
      RunPrefix(p, events, i + 1);
      var event := events[i];
      var amount := EventAmount(event);
      if amount.Failure? {
        return Failure(amount.error);
      }
      if event.symbol == "" {
        return Failure(SymbolRequired);
      }
      var booked: Booking;
      if Reserves(event) {
        if !CanonicalSource(event.source) {
          return Failure(SourceNotCanonical);
        }
        booked := Reserve(updated, event.symbol, amount.value);
      } else if Releases(event) {
        if event.finality != "CLOSED" {
          return Failure(ClosedFinalityRequired);
        }
        booked := Release(updated, event.symbol, amount.value);
      } else {
        return Failure(UnsupportedAction);
      }
      if booked.Failure? {
        return Failure(booked.error);
      }
      updated := booked.value;
    }
    assert events[..|events|] == events;
    r := Success(updated);
  }

  /** A refused prefix refuses the whole run with the same error. */
  lemma {:induction false} RunPrefix(p: Portfolio, events: seq<Event>, n: nat)
    requires n <= |events|
    ensures n == 0 ==> Run(p, events[..n]) == Success(p)
    ensures n > 0 ==> Run(p, events[..n]) == match Run(p, events[..n - 1])
                                              case Success(q) => Step(q, events[n - 1])
                                              case Failure(e) => Failure(e)
    ensures Run(p, events[..n]).Failure? ==> Run(p, events) == Run(p, events[..n])
    decreases |events| - n
  {
    hide Step;
    if n > 0 {
      assert events[..n][..n - 1] == events[..n - 1];
    }
    if n < |events| {
      RunPrefix(p, events, n + 1);
    } else {
      assert events[..n] == events;
    }
  }

  /** Within every cap and limit, without dead entries. */
  ghost predicate Safe(p: Portfolio) {
    && Configured(p)
    && (forall s :: s in p.committed ==> s in p.allocation && 0.0 < p.committed[s] <= CoinCap(p, s))
    && (forall s :: s in p.open ==> 1 <= p.open[s] <= p.maxPerCoin)
    && Sum(p.committed) <= AggregateCap(p)
    && IntSum(p.open) <= p.maxOpen
  }

  lemma ReservedIsSafe(p: Portfolio, symbol: string, amount: real)
    requires Safe(p) && Reserved(p, symbol, amount).Success?
    ensures Safe(Reserved(p, symbol, amount).value)
  {
    hide Sum, IntSum, Share;
    SumUpdate(p.committed, symbol, Get(p.committed, symbol) + amount);
    IntSumUpdate(p.open, symbol, IntGet(p.open, symbol) + 1);
  }

  lemma ReleasedIsSafe(p: Portfolio, symbol: string, amount: real)
    requires Safe(p) && Released(p, symbol, amount).Success?
    ensures Safe(Released(p, symbol, amount).value)
  {
    hide Sum, IntSum, Share;
    SumUpdate(p.committed, symbol, Get(p.committed, symbol) - amount);
    SumDrop(p.committed, symbol);
    IntSumUpdate(p.open, symbol, IntGet(p.open, symbol) - 1);
    IntSumDrop(p.open, symbol);
  }

  /** What the accepted events of a run reserved for a coin, minus what they released. */
  function Net(events: seq<Event>, symbol: string): real {
    if events == [] then 0.0
    else Net(events[..|events| - 1], symbol) + Signed(events[|events| - 1], symbol)
  }

  function Signed(e: Event, symbol: string): real {
    var amount := EventAmount(e);
    if amount.Failure? || e.symbol != symbol then 0.0
    else if Reserves(e) then amount.value
    else if Releases(e) then -amount.value
    else 0.0
  }

  lemma StepIsSafe(p: Portfolio, e: Event)
    requires Safe(p) && Step(p, e).Success?
    ensures Safe(Step(p, e).value)
  {
    hide Safe, Reserved, Released, Reserves, Releases, CanonicalSource;
    var amount := EventAmount(e).value;
    if Reserves(e) {
      ReservedIsSafe(p, e.symbol, amount);
    } else {
      ReleasedIsSafe(p, e.symbol, amount);
    }
  }

  lemma StepMoves(p: Portfolio, e: Event, symbol: string)
    requires Step(p, e).Success?
    ensures Get(Step(p, e).value.committed, symbol) == Get(p.committed, symbol) + Signed(e, symbol)
  {
    hide Sum, IntSum, CoinCap, AggregateCap, Reserves, Releases, CanonicalSource, SlotReleased;
  }

  /** Every accepted run from a safe book is safe throughout, and each commitment is its reserves minus its releases. */
  lemma {:induction false} RunIsSafe(p: Portfolio, events: seq<Event>, symbol: string)
    requires Safe(p) && Run(p, events).Success?
    ensures Safe(Run(p, events).value)
    ensures Get(Run(p, events).value.committed, symbol) == Get(p.committed, symbol) + Net(events, symbol)
  {
    hide Safe, Step, Get, Signed;
    if events != [] {
      RunIsSafe(p, events[..|events| - 1], symbol);
      var q := Run(p, events[..|events| - 1]).value;
      StepIsSafe(q, events[|events| - 1]);
      StepMoves(q, events[|events| - 1], symbol);
    }
  }

  /** From an empty book: commitments in range, aggregate under its cap, slots under both limits, books balanced. */
  lemma RunFromEmptyBook(p: Portfolio, events: seq<Event>, symbol: string)
    requires Configured(p) && p.committed == map[] && p.open == map[] && Run(p, events).Success?
    ensures var q := Run(p, events).value;
            && Safe(q) && q.allocation == p.allocation
            && Get(q.committed, symbol) == Net(events, symbol)
            && (symbol in p.allocation && p.allocation[symbol] >= 0.0 ==>
                0.0 <= Get(q.committed, symbol) <= CoinCap(p, symbol))
            && 0 <= IntGet(q.open, symbol) <= p.maxPerCoin
            && Sum(q.committed) <= AggregateCap(p) && IntSum(q.open) <= p.maxOpen
  {
    hide Run, Net, Sum, IntSum, Share;
    EmptyBookIsSafe(p);
    RunIsSafe(p, events, symbol);
    RunKeepsSettings(p, events);
    CapSign(p, symbol);
  }

  lemma CapSign(p: Portfolio, symbol: string)
    requires p.totalCapital > 0.0
    ensures symbol in p.allocation && p.allocation[symbol] >= 0.0 ==> CoinCap(p, symbol) >= 0.0
  {
  }

  lemma EmptyBookIsSafe(p: Portfolio)
    requires Configured(p) && p.committed == map[] && p.open == map[]
    ensures Safe(p)
  {
    assert AggregateCap(p) >= 0.0;
  }

  lemma {:induction false} RunKeepsSettings(p: Portfolio, events: seq<Event>)
    requires Run(p, events).Success?
    ensures Run(p, events).value == p.(committed := Run(p, events).value.committed, open := Run(p, events).value.open)
  {
    hide CoinCap, AggregateCap, Sum, IntSum, EventAmount, Reserves, Releases, CanonicalSource;
    if events != [] {
      RunKeepsSettings(p, events[..|events| - 1]);
    }
  }

  // ---------- slots ----------

  /** The accepted reserves of a coin minus its releases. */
  function NetSlots(events: seq<Event>, symbol: string): int {
    if events == [] then 0 else NetSlots(events[..|events| - 1], symbol) + SlotMove(events[|events| - 1], symbol)
  }

  function SlotMove(e: Event, symbol: string): int {
    if e.symbol != symbol then 0 else if Reserves(e) then 1 else if Releases(e) then -1 else 0
  }

  /** How far the releases of a coin ever got ahead of its reserves and its first slots: releases that freed nothing. */
  function Overrun(slots: nat, events: seq<Event>, symbol: string): (n: nat)
    ensures n >= -(slots + NetSlots(events, symbol))
  {
    if events == [] then 0
    else
      var before, deficit := Overrun(slots, events[..|events| - 1], symbol), -(slots + NetSlots(events, symbol));
      if deficit > before then deficit else before
  }

  /** The slots of a coin after a step: a release frees one whatever its
      amount, and frees nothing when there is none. */
  lemma StepMovesSlots(p: Portfolio, e: Event, symbol: string)
    requires Step(p, e).Success? && IntGet(p.open, symbol) >= 0
    ensures var moved := IntGet(p.open, symbol) + SlotMove(e, symbol);
            IntGet(Step(p, e).value.open, symbol) == if moved < 0 then 0 else moved
  {
    hide Sum, IntSum, CoinCap, AggregateCap, CanonicalSource;
    assert Reserves(e) ==> !Releases(e);
  }

  /** After an accepted run a coin holds its reserves minus its releases, plus the releases that found no slot. */
  lemma {:induction false} SlotsAfterRun(p: Portfolio, events: seq<Event>, symbol: string)
    requires Run(p, events).Success? && IntGet(p.open, symbol) >= 0
    ensures var slots := IntGet(p.open, symbol);
            IntGet(Run(p, events).value.open, symbol)
            == slots + NetSlots(events, symbol) + Overrun(slots, events, symbol) >= 0
  {
    hide Step, IntGet, SlotMove;
    if events != [] {
      SlotsAfterRun(p, events[..|events| - 1], symbol);
      StepMovesSlots(Run(p, events[..|events| - 1]).value, events[|events| - 1], symbol);
    }
  }

  /** Every coin with committed capital holds a slot. */
  ghost predicate Held(p: Portfolio) {
    forall s :: s in p.committed ==> IntGet(p.open, s) >= 1
  }

  /** A release takes all the capital of its coin, or leaves it a slot. */
  predicate LeavesASlot(p: Portfolio, e: Event) {
    Releases(e) && EventAmount(e).Success?
    ==> EventAmount(e).value == Get(p.committed, e.symbol) || IntGet(p.open, e.symbol) >= 2
  }

  lemma ReservedKeepsHeld(p: Portfolio, symbol: string, amount: real)
    requires Safe(p) && Held(p) && Reserved(p, symbol, amount).Success?
    ensures Held(Reserved(p, symbol, amount).value)
  {
    hide Sum, IntSum, CoinCap, AggregateCap;
  }

  lemma ReleasedKeepsHeld(p: Portfolio, symbol: string, amount: real)
    requires Held(p) && Released(p, symbol, amount).Success?
    ensures Held(Released(p, symbol, amount).value)
            <==> amount == Get(p.committed, symbol) || IntGet(p.open, symbol) >= 2
  {
    var q := Released(p, symbol, amount).value;
    assert symbol in p.committed;
    assert symbol in q.committed <==> amount != p.committed[symbol];
    assert IntGet(q.open, symbol) == IntGet(p.open, symbol) - 1;
    assert forall s :: s != symbol ==> IntGet(q.open, s) == IntGet(p.open, s);
    assert forall s :: s != symbol ==> (s in q.committed <==> s in p.committed);
  }

  /** Only a release that leaves capital without a slot can break the rule that committed coins hold slots. */
  lemma StepKeepsHeld(p: Portfolio, e: Event)
    requires Safe(p) && Held(p) && Step(p, e).Success?
    ensures Held(Step(p, e).value) <==> LeavesASlot(p, e)
  {
    hide Safe, Held, Reserved, Released, CanonicalSource;
    assert Reserves(e) ==> !Releases(e);
    if Reserves(e) {
      ReservedKeepsHeld(p, e.symbol, EventAmount(e).value);
    } else {
      ReleasedKeepsHeld(p, e.symbol, EventAmount(e).value);
    }
  }

  /** Every book along an accepted run is itself reached by an accepted run, and safe. */
  lemma PrefixIsSafe(p: Portfolio, events: seq<Event>, n: nat)
    requires Safe(p) && Run(p, events).Success? && n <= |events|
    ensures Run(p, events[..n]).Success? && Safe(Run(p, events[..n]).value)
    ensures n < |events| ==> Run(p, events[..n + 1]) == Step(Run(p, events[..n]).value, events[n])
  {
    hide Step, Safe;
    RunPrefix(p, events, n);
    RunIsSafe(p, events[..n], "");
    if n < |events| {
      RunPrefix(p, events, n + 1);
    }
  }

  lemma PrefixKeepsHeld(p: Portfolio, events: seq<Event>, n: nat)
    requires Safe(p) && Run(p, events).Success? && n < |events|
    requires Run(p, events[..n]).Success? && Held(Run(p, events[..n]).value)
    ensures Run(p, events[..n + 1]).Success?
    ensures Held(Run(p, events[..n + 1]).value) <==> LeavesASlot(Run(p, events[..n]).value, events[n])
  {
    hide Step, Held, LeavesASlot, Safe, Run;
    PrefixIsSafe(p, events, n);
    PrefixIsSafe(p, events, n + 1);
    StepKeepsHeld(Run(p, events[..n]).value, events[n]);
  }

  lemma PrefixesSucceed(p: Portfolio, events: seq<Event>)
    requires Safe(p) && Run(p, events).Success?
    ensures forall n :: 0 <= n <= |events| ==> Run(p, events[..n]).Success?
  {
    hide Run, Safe;
    forall n | 0 <= n <= |events|
      ensures Run(p, events[..n]).Success?
    {
      PrefixIsSafe(p, events, n);
    }
  }

  /** Along an accepted run every committed coin holds a slot exactly when every release meets its guard. */
  lemma {:induction false} HeldIffReleasesLeaveSlots(p: Portfolio, events: seq<Event>)
    requires Safe(p) && Held(p) && Run(p, events).Success?
    ensures forall n :: 0 <= n <= |events| ==> Run(p, events[..n]).Success?
    ensures (forall n :: 0 <= n <= |events| ==> Held(Run(p, events[..n]).value))
            <==> (forall n :: 0 <= n < |events| ==> LeavesASlot(Run(p, events[..n]).value, events[n]))
  {
    hide Held, LeavesASlot, Safe, Run;
    PrefixesSucceed(p, events);
    if forall n :: 0 <= n < |events| ==> LeavesASlot(Run(p, events[..n]).value, events[n]) {
      assert Run(p, events[..0]) == Success(p) by { RunPrefix(p, events, 0); }
      for n := 0 to |events|
        invariant forall k :: 0 <= k <= n ==> Held(Run(p, events[..k]).value)
      {
        PrefixKeepsHeld(p, events, n);
      }
    }
    if forall n :: 0 <= n <= |events| ==> Held(Run(p, events[..n]).value) {
      forall n | 0 <= n < |events|
        ensures LeavesASlot(Run(p, events[..n]).value, events[n])
      {
        PrefixKeepsHeld(p, events, n);
      }
    }
  }

  const ONE_SLOT := Portfolio(100.0, 1.0, map["BTC" := 1.0], 1, 1, map[], map[])

  function Opening(amount: real): Event {
    Event("OPEN", "BTC", Exact(amount), Absent, Absent, "submit_authorization.held_committed_capital", "")
  }

  function Closing(amount: real): Event {
    Event("CLOSE", "BTC", Exact(amount), Absent, Absent, "", "CLOSED")
  }

  /** A part release frees the only slot: capital stays committed without one, and a second tranche is let in. */
  lemma PartReleasesPassTheSlotLimit()
    ensures Configured(ONE_SLOT)
    ensures Run(ONE_SLOT, [Opening(10.0), Closing(3.0)])
            == Success(ONE_SLOT.(committed := map["BTC" := 7.0], open := map[]))
    ensures Run(ONE_SLOT, [Opening(10.0), Closing(3.0), Opening(10.0)])
            == Success(ONE_SLOT.(committed := map["BTC" := 17.0], open := map["BTC" := 1]))
  {
    hide Step, Run, Sum, IntSum;
    var first := ONE_SLOT.(committed := map["BTC" := 10.0], open := map["BTC" := 1]);
    var second := ONE_SLOT.(committed := map["BTC" := 7.0], open := map[]);
    OneSlotIsConfigured();
    OpensTo(map[], 10.0);
    ClosesTo(3.0);
    OpensTo(second.committed, 10.0);
    assert second.committed["BTC" := 17.0] == map["BTC" := 17.0];
    RunOfThree(ONE_SLOT, Opening(10.0), Closing(3.0), Opening(10.0));
  }

  lemma OneSlotIsConfigured()
    ensures Configured(ONE_SLOT)
  {
    var none: map<string, real> := map[];
    SumUpdate(none, "BTC", 1.0);
  }

  lemma OpeningReserves(p: Portfolio, amount: real)
    requires amount > 0.0
    ensures Step(p, Opening(amount)) == Reserved(p, "BTC", amount)
  {
    hide Reserved, Released;
  }

  lemma ClosingReleases(p: Portfolio, amount: real)
    requires amount > 0.0
    ensures Step(p, Closing(amount)) == Released(p, "BTC", amount)
  {
    hide Reserved, Released;
  }

  lemma OpensTo(committed: map<string, real>, amount: real)
    requires committed.Keys <= {"BTC"} && amount > 0.0 && Get(committed, "BTC") + amount <= 100.0
    ensures Step(ONE_SLOT.(committed := committed), Opening(amount))
            == Success(ONE_SLOT.(committed := committed["BTC" := Get(committed, "BTC") + amount],
                                 open := map["BTC" := 1]))
  {
    hide Step;
    OpeningReserves(ONE_SLOT.(committed := committed), amount);
    SumDrop(committed, "BTC");
    assert committed - {"BTC"} == map[];
    var p := ONE_SLOT.(committed := committed);
    assert CoinCap(p, "BTC") == 100.0 && AggregateCap(p) == 100.0;
    assert p.open["BTC" := 1] == map["BTC" := 1];
  }

  lemma ClosesTo(amount: real)
    requires 0.0 < amount < 10.0
    ensures Step(ONE_SLOT.(committed := map["BTC" := 10.0], open := map["BTC" := 1]), Closing(amount))
            == Success(ONE_SLOT.(committed := map["BTC" := 10.0 - amount], open := map[]))
  {
    hide Step;
    ClosingReleases(ONE_SLOT.(committed := map["BTC" := 10.0], open := map["BTC" := 1]), amount);
    var committed, slots: map<string, int> := map["BTC" := 10.0], map["BTC" := 1];
    assert committed["BTC" := 10.0 - amount] == map["BTC" := 10.0 - amount];
    assert slots - {"BTC"} == map[];
  }

  lemma RunOfThree(p: Portfolio, a: Event, b: Event, c: Event)
    requires Step(p, a).Success? && Step(Step(p, a).value, b).Success?
    ensures Run(p, [a, b]) == Step(Step(p, a).value, b)
    ensures Run(p, [a, b, c]) == Step(Step(Step(p, a).value, b).value, c)
  {
    hide Step;
    assert [a, b, c][..2] == [a, b] && [a, b][..1] == [a];
    assert Run(p, [a][..0]) == Success(p);
  }
}
