/** Attempt-scoped cooldown pins driven by lifecycle order events, and the gate over them. Times are integer seconds. */
module Cooldown {
  import opened Prelude

  datatype PinState = PendingAcceptance | Active | UnresolvedAcceptanceTime | UnresolvedConflict | Cleared

  datatype Pin = Pin(
    authorizationId: string, trancheId: string, symbol: string, configId: string, duration: nat,
    state: PinState, acceptedAt: Option<int>, until: Option<int>, lastEventId: Option<string>,
    lastRevision: Option<int>, clearedAt: Option<int>)

  datatype Lifecycle =
    | PendingEntry | PartiallyFilled | Open | CancelPending | ClosePending | ReconcilingState | CancelledZeroFill
    | OtherLifecycle

  datatype Acceptance = Proven | AcceptanceUnavailable | AcceptanceConflict | OtherAcceptance

  datatype Integrity = Resolved | IntegrityConflict | OtherIntegrity

  datatype Event = Event(
    eventId: string, authorizationId: string, trancheId: string, symbol: string, revision: int, integrity: Integrity,
    acceptance: Acceptance, lifecycle: Lifecycle, acceptedAt: Option<int>, occurredAt: int)

  datatype CooldownError = AttemptMismatch | SymbolMismatch | NegativeRevision | AcceptedTimeMissing

  function Replaced(pin: Pin, e: Event, state: PinState, acceptedAt: Option<int>, until: Option<int>,
      clearedAt: Option<int>): Pin {
    pin.(state := state, acceptedAt := acceptedAt, until := until, lastEventId := Some(e.eventId),
         lastRevision := Some(e.revision), clearedAt := clearedAt)
  }

  predicate StillUncertain(l: Lifecycle) {
    l.PendingEntry? || l.PartiallyFilled? || l.Open? || l.CancelPending? || l.ClosePending? || l.ReconcilingState?
  }

  /** The event is older than what the pin has seen. */
  predicate Stale(pin: Pin, e: Event) {
    pin.lastRevision.Some? && e.revision < pin.lastRevision.value
  }

  function Apply(pin: Pin, e: Event): Result<Pin, CooldownError> {
    if e.authorizationId != pin.authorizationId || e.trancheId != pin.trancheId then Failure(AttemptMismatch)
    else if e.symbol != pin.symbol then Failure(SymbolMismatch)
    else if e.revision < 0 then Failure(NegativeRevision)
    else if Stale(pin, e) then Success(pin)
    else if pin.state == UnresolvedConflict && e.integrity != Resolved then
      Success(Replaced(pin, e, UnresolvedConflict, pin.acceptedAt, None, None))
    else if e.integrity == IntegrityConflict || e.acceptance == AcceptanceConflict then
      Success(Replaced(pin, e, UnresolvedConflict, e.acceptedAt, None, None))
    else if e.lifecycle == CancelledZeroFill then
      Success(Replaced(pin, e, Cleared, pin.acceptedAt, pin.until, Some(e.occurredAt)))
    else if e.acceptance == Proven then
      (match e.acceptedAt
       case None => Failure(AcceptedTimeMissing)
       case Some(a) => Success(Replaced(pin, e, Active, Some(a), Some(a + pin.duration), None)))
    else if e.acceptance == AcceptanceUnavailable && StillUncertain(e.lifecycle) then
      Success(Replaced(pin, e, UnresolvedAcceptanceTime, None, None, None))
    else
      Success(Replaced(pin, e, pin.state, pin.acceptedAt, pin.until, pin.clearedAt))
  }

  function Run(pin: Pin, events: seq<Event>): Result<Pin, CooldownError> {
    if events == [] then Success(pin)
    else match Run(pin, events[..|events| - 1])
      case Success(p) => Apply(p, events[|events| - 1])
      case Failure(error) => Failure(error)
  }

  // ---------- single events ----------

  /** An older event of the same attempt changes nothing. */
  lemma StaleEventsChangeNothing(pin: Pin, e: Event)
    requires Stale(pin, e) && Apply(pin, e).Success?
    ensures Apply(pin, e).value == pin
  {
  }

  /** Replaying an event is idempotent. */
  lemma ReplayIsIdempotent(pin: Pin, e: Event)
    requires Apply(pin, e).Success?
    ensures Apply(Apply(pin, e).value, e) == Apply(pin, e)
  {
  }

  /** An active pin counts from its accepted time. */
  predicate ActiveIsPinned(pin: Pin) {
    pin.state == Active ==> pin.acceptedAt.Some? && pin.until == Some(pin.acceptedAt.value + pin.duration)
  }

  // ---------- runs ----------

  predicate RevisionAtMost(a: Option<int>, b: Option<int>) {
    a.Some? ==> b.Some? && a.value <= b.value
  }

  lemma StepOfRun(pin: Pin, events: seq<Event>)
    requires events != [] && Run(pin, events).Success?
    ensures Run(pin, events[..|events| - 1]).Success?
    ensures Run(pin, events) == Apply(Run(pin, events[..|events| - 1]).value, events[|events| - 1])
  {
  }

  /** The identity and the duration stay, and the last revision never decreases. */
  lemma {:induction false} RevisionNeverDecreases(pin: Pin, events: seq<Event>)
    requires Run(pin, events).Success?
    ensures RevisionAtMost(pin.lastRevision, Run(pin, events).value.lastRevision)
    ensures Run(pin, events).value.duration == pin.duration && Run(pin, events).value.symbol == pin.symbol
    ensures Run(pin, events).value.authorizationId == pin.authorizationId
            && Run(pin, events).value.trancheId == pin.trancheId
  {
    hide Run;
    if events == [] {
      EmptyRun(pin);
    } else {
      StepOfRun(pin, events);
      RevisionNeverDecreases(pin, events[..|events| - 1]);
    }
  }

  lemma EmptyRun(pin: Pin)
    ensures Run(pin, []) == Success(pin)
  {
  }

  /** Every event of the run is at most as recent as the final pin, so
      any earlier-revision event then changes nothing. */
  lemma {:induction false} RunCoversItsEvents(pin: Pin, events: seq<Event>, e: Event)
    requires Run(pin, events).Success? && e in events
    ensures RevisionAtMost(Some(e.revision), Run(pin, events).value.lastRevision)
  {
    hide Run;
    StepOfRun(pin, events);
    var earlier, last := events[..|events| - 1], events[|events| - 1];
    if e == last {
      RevisionNeverDecreases(pin, earlier);
    } else {
      assert e in earlier;
      RunCoversItsEvents(pin, earlier, e);
    }
  }

  /** Active always means: until equals the accepted time plus the pinned duration. */
  lemma {:induction false} ActiveIsAlwaysPinned(pin: Pin, events: seq<Event>)
    requires ActiveIsPinned(pin) && Run(pin, events).Success?
    ensures ActiveIsPinned(Run(pin, events).value)
  {
    hide Run;
    if events == [] {
      EmptyRun(pin);
    } else {
      StepOfRun(pin, events);
      ActiveIsAlwaysPinned(pin, events[..|events| - 1]);
    }
  }

  /** A conflict persists through every run without a RESOLVED event. */
  lemma {:induction false} ConflictPersists(pin: Pin, events: seq<Event>)
    requires pin.state == UnresolvedConflict && Run(pin, events).Success?
    requires forall e :: e in events ==> e.integrity != Resolved
    ensures Run(pin, events).value.state == UnresolvedConflict
  {
    hide Run;
    if events == [] {
      EmptyRun(pin);
    } else {
      StepOfRun(pin, events);
      assert events[|events| - 1] in events;
      assert forall e :: e in events[..|events| - 1] ==> e in events;
      ConflictPersists(pin, events[..|events| - 1]);
    }
  }

  /** A conflict ends exactly at a current RESOLVED event that is not itself a conflict. */
  lemma ConflictEndsExactly(pin: Pin, e: Event)
    requires pin.state == UnresolvedConflict && Apply(pin, e).Success?
    ensures Apply(pin, e).value.state != UnresolvedConflict
            <==> !Stale(pin, e) && e.integrity == Resolved && e.acceptance != AcceptanceConflict
                 && (e.lifecycle == CancelledZeroFill || e.acceptance == Proven
                     || (e.acceptance == AcceptanceUnavailable && StillUncertain(e.lifecycle)))
  {
  }

  /** A current conflict event leaves every pin in conflict; one that does not resolve a conflict the pin is in keeps
      the accepted time it had. */
  lemma ConflictEventsConflict(pin: Pin, e: Event)
    requires !Stale(pin, e) && Apply(pin, e).Success?
    requires e.integrity == IntegrityConflict || e.acceptance == AcceptanceConflict
    ensures var after := Apply(pin, e).value;
            && after.state == UnresolvedConflict && after.until == None && after.clearedAt == None
            && after.acceptedAt == if pin.state == UnresolvedConflict && e.integrity != Resolved then pin.acceptedAt
                                   else e.acceptedAt
  {
  }

  /** Without a conflict, an acceptance that cannot be known makes the pin unresolved in each lifecycle in which the
      entry may still be filled, and changes no state in any other. */
  lemma UnavailableAcceptance(pin: Pin, e: Event)
    requires !Stale(pin, e) && Apply(pin, e).Success?
    requires e.acceptance == AcceptanceUnavailable && e.lifecycle != CancelledZeroFill
    requires e.integrity != IntegrityConflict && (pin.state == UnresolvedConflict ==> e.integrity == Resolved)
    ensures var after := Apply(pin, e).value;
            var uncertain := e.lifecycle in [PendingEntry, PartiallyFilled, Open, CancelPending, ClosePending,
                                             ReconcilingState];
            if uncertain then after.state == UnresolvedAcceptanceTime && after.acceptedAt == None && after.until == None
            else after.state == pin.state && after.acceptedAt == pin.acceptedAt && after.until == pin.until
  {
  }

  /** A current event is recorded whatever it does, and only a zero-fill cancellation gives the time of clearing. */
  lemma CurrentEventsAreRecorded(pin: Pin, e: Event)
    requires !Stale(pin, e) && Apply(pin, e).Success?
    ensures var after := Apply(pin, e).value;
            && after.lastEventId == Some(e.eventId) && after.lastRevision == Some(e.revision)
            && after.configId == pin.configId && after.duration == pin.duration
            && (after.state == Cleared && e.lifecycle == CancelledZeroFill ==> after.clearedAt == Some(e.occurredAt))
            && (after.clearedAt.Some? ==>
                  (after.state == Cleared && after.clearedAt == Some(e.occurredAt))
                  || (after.state == pin.state && after.clearedAt == pin.clearedAt))
  {
  }

  /** An event is refused exactly for another attempt or symbol, a negative revision, or a current PROVEN acceptance
      without its time that is not overruled by a conflict or a cancellation. */
  lemma RefusedExactly(pin: Pin, e: Event)
    ensures Apply(pin, e).Failure?
            <==> e.authorizationId != pin.authorizationId || e.trancheId != pin.trancheId || e.symbol != pin.symbol
                 || e.revision < 0
                 || (!Stale(pin, e) && (pin.state == UnresolvedConflict ==> e.integrity == Resolved)
                     && e.integrity != IntegrityConflict && e.acceptance == Proven
                     && e.lifecycle != CancelledZeroFill && e.acceptedAt == None)
  {
  }

  // ---------- the gate ----------

  datatype GateStatus = GatePass | GateBlocked | GateUnavailable

  datatype GateReason = CooldownActive | AcceptanceInConflict | AcceptanceTimeUnavailable

  datatype Gate = Gate(status: GateStatus, until: Option<int>, reason: Option<GateReason>)

  predicate Unresolved(pin: Pin, symbol: string) {
    pin.symbol == symbol && (pin.state == UnresolvedAcceptanceTime || pin.state == UnresolvedConflict)
  }

  predicate Surviving(pin: Pin, symbol: string, now: int) {
    pin.symbol == symbol && pin.state == Active && pin.until.Some? && pin.until.value > now
  }

  /** The greatest end among the pins that still hold. */
  function LatestUntil(symbol: string, pins: seq<Pin>, now: int): Option<int> {
    if pins == [] then None
    else
      var rest, last := LatestUntil(symbol, pins[..|pins| - 1], now), pins[|pins| - 1];
      if !Surviving(last, symbol, now) then rest
      else if rest.Some? && rest.value >= last.until.value then rest else last.until
  }

  function GateFor(symbol: string, pins: seq<Pin>, now: int): Gate {
    if exists pin | pin in pins :: Unresolved(pin, symbol) then
      Gate(GateUnavailable, None,
           Some(if exists pin | pin in pins :: Unresolved(pin, symbol) && pin.state == UnresolvedConflict
                then AcceptanceInConflict else AcceptanceTimeUnavailable))
    else match LatestUntil(symbol, pins, now)
      case Some(until) => Gate(GateBlocked, Some(until), Some(CooldownActive))
      case None => Gate(GatePass, None, None)
  }

  lemma {:induction false} LatestUntilIsGreatest(symbol: string, pins: seq<Pin>, now: int)
    ensures LatestUntil(symbol, pins, now).None? <==> forall pin :: pin in pins ==> !Surviving(pin, symbol, now)
    ensures var latest := LatestUntil(symbol, pins, now);
            latest.Some? ==> (exists pin :: pin in pins && Surviving(pin, symbol, now) && pin.until == latest)
                             && forall pin :: pin in pins && Surviving(pin, symbol, now) ==>
                                pin.until.value <= latest.value
  {
    hide Surviving;
    if pins != [] {
      var earlier, last := pins[..|pins| - 1], pins[|pins| - 1];
      assert pins == earlier + [last];
      LatestUntilIsGreatest(symbol, earlier, now);
      SurvivingHasEnd(last, symbol, now);
      assert last in pins;
      assert forall pin :: pin in pins <==> pin in earlier || pin == last;
    }
  }

  lemma SurvivingHasEnd(pin: Pin, symbol: string, now: int)
    ensures Surviving(pin, symbol, now) ==> pin.until.Some?
  {
  }

  /** PASS exactly when no pin of the symbol is unresolved and none still cools down; BLOCKED names the greatest end. */
  lemma GateIsExact(symbol: string, pins: seq<Pin>, now: int)
    ensures var g := GateFor(symbol, pins, now);
            && (g.status == GateUnavailable <==> exists pin :: pin in pins && Unresolved(pin, symbol))
            && (g.status == GatePass <==>
                  forall pin :: pin in pins ==> !Unresolved(pin, symbol) && !Surviving(pin, symbol, now))
    ensures var g := GateFor(symbol, pins, now);
            && (g.reason == Some(AcceptanceInConflict) <==>
                  exists pin :: pin in pins && pin.symbol == symbol && pin.state == UnresolvedConflict)
            && (g.reason == Some(CooldownActive) <==> g.status == GateBlocked)
            && (g.reason == None <==> g.status == GatePass)
    ensures var g := GateFor(symbol, pins, now);
            g.status == GateBlocked ==> g.until.Some? && g.until.value > now
    ensures var g := GateFor(symbol, pins, now);
            g.status == GateBlocked ==> exists pin :: pin in pins && Surviving(pin, symbol, now) && pin.until == g.until
    ensures var g := GateFor(symbol, pins, now);
            g.status == GateBlocked ==>
              forall pin :: pin in pins && Surviving(pin, symbol, now) ==> pin.until.value <= g.until.value
  {
    hide LatestUntil;
    LatestUntilIsGreatest(symbol, pins, now);
  }

  // ---------- no early pass ----------

  /** Cooling down from `a`, or not known well enough to say. */
  predicate Holding(pin: Pin, a: int) {
    || (pin.state == Active && pin.until == Some(a + pin.duration))
    || pin.state == UnresolvedAcceptanceTime
    || pin.state == UnresolvedConflict
  }

  predicate KeepsHolding(e: Event, a: int) {
    e.lifecycle != CancelledZeroFill && (e.acceptance == Proven ==> e.acceptedAt == Some(a))
  }

  lemma {:induction false} HoldingPersists(pin: Pin, events: seq<Event>, a: int)
    requires Holding(pin, a) && Run(pin, events).Success?
    requires forall e :: e in events ==> KeepsHolding(e, a)
    ensures Holding(Run(pin, events).value, a) && Run(pin, events).value.symbol == pin.symbol
    ensures Run(pin, events).value.duration == pin.duration
  {
    hide Run;
    if events == [] {
      EmptyRun(pin);
    } else {
      StepOfRun(pin, events);
      assert events[|events| - 1] in events;
      assert forall e :: e in events[..|events| - 1] ==> e in events;
      HoldingPersists(pin, events[..|events| - 1], a);
    }
  }

  /** A proven event at `a` that is not stale starts holding, whatever the pin was. */
  lemma ProvenStartsHolding(pin: Pin, e: Event, a: int)
    requires e.acceptance == Proven && e.acceptedAt == Some(a) && e.lifecycle != CancelledZeroFill
    requires !Stale(pin, e) && Apply(pin, e).Success?
    ensures Holding(Apply(pin, e).value, a)
  {
  }

  /** After a current PROVEN event at `a`, without a zero-fill cancellation and with every PROVEN time equal to `a`,
      the gate is never PASS before a + duration, whatever other pins there are. */
  lemma NeverPassesEarly(pin: Pin, proven: Event, later: seq<Event>, a: int, others: seq<Pin>, now: int)
    requires proven.acceptance == Proven && proven.acceptedAt == Some(a) && proven.lifecycle != CancelledZeroFill
    requires !Stale(pin, proven) && Apply(pin, proven).Success?
    requires Run(Apply(pin, proven).value, later).Success? && forall e :: e in later ==> KeepsHolding(e, a)
    requires Run(Apply(pin, proven).value, later).value in others && now < a + pin.duration
    ensures GateFor(pin.symbol, others, now).status != GatePass
  {
    hide Run, GateFor, LatestUntil;
    var started := Apply(pin, proven).value;
    ProvenStartsHolding(pin, proven, a);
    HoldingPersists(started, later, a);
    GateIsExact(pin.symbol, others, now);
  }

  /** A current zero-fill cancellation clears the pin exactly when it
      reports no conflict and resolves the one it may find. */
  lemma CancellationClears(pin: Pin, e: Event)
    requires e.lifecycle == CancelledZeroFill && !Stale(pin, e) && Apply(pin, e).Success?
    ensures Apply(pin, e).value.state == Cleared
            <==> (pin.state == UnresolvedConflict ==> e.integrity == Resolved)
                 && e.integrity != IntegrityConflict && e.acceptance != AcceptanceConflict
  {
  }
}
