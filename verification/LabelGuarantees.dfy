/** What the label harness promises: medians as majorities, phases that alternate, labels that mirror the path. */
module LabelGuarantees {
  import opened Prelude
  import opened RealArithmetic
  import opened Sorting
  import opened LabelHarness

  // ---------- a median of 2p - 1 values is a majority vote ----------

  function AtLeast(limit: real): real -> bool {
    (x: real) => x >= limit
  }

  lemma ByValueIsWeakOrder()
    ensures WeakOrder(BY_VALUE)
  {
  }

  lemma {:induction false} CountAllOf(keep: real -> bool, v: seq<real>)
    requires forall i :: 0 <= i < |v| ==> keep(v[i])
    ensures Count(keep, v) == |v|
  {
    if v != [] {
      CountAllOf(keep, v[1..]);
    }
  }

  lemma CountSplit(keep: real -> bool, v: seq<real>, m: nat)
    requires m <= |v|
    ensures Count(keep, v) == Count(keep, v[..m]) + Count(keep, v[m..])
    ensures Count(keep, v[..m]) <= m && Count(keep, v[m..]) <= |v| - m
  {
    hide Filter;
    assert v == v[..m] + v[m..];
    FilterConcat(keep, v[..m], v[m..]);
    FilterMembers(keep, v[..m]);
    FilterMembers(keep, v[m..]);
  }

  lemma CountSorted(keep: real -> bool, v: seq<real>)
    ensures Count(keep, Sort(BY_VALUE, v)) == Count(keep, v)
  {
    hide Sort, Filter;
    ByValueIsWeakOrder();
    FilterSort(BY_VALUE, keep, v);
    SortIsPermutation(BY_VALUE, Filter(keep, v));
  }

  /** Of a sorted list, the middle value reaches the limit exactly when a majority does. */
  lemma MiddleOfSorted(s: seq<real>, p: nat, limit: real)
    requires p >= 1 && |s| == 2 * p - 1 && Sorted(BY_VALUE, s)
    ensures s[p - 1] >= limit <==> Count(AtLeast(limit), s) >= p
  {
    var keep := AtLeast(limit);
    if s[p - 1] >= limit {
      var upper := s[p - 1..];
      forall i | 0 <= i < |upper|
        ensures keep(upper[i])
      {
        assert i == 0 || !BY_VALUE(s[p - 1 + i], s[p - 1]);
      }
      CountAllOf(keep, upper);
      CountSplit(keep, s, p - 1);
    } else {
      forall i | 0 <= i < |s[..p]|
        ensures !keep(s[..p][i])
      {
        assert i == p - 1 || !BY_VALUE(s[p - 1], s[i]);
      }
      FilterNone(keep, s[..p]);
      CountSplit(keep, s, p);
    }
  }

  /** The median of 2p - 1 values reaches the limit exactly when at least p of them do. */
  lemma MedianIsMajority(v: seq<real>, p: nat, limit: real)
    requires p >= 1 && |v| == 2 * p - 1
    ensures Median(v) >= limit <==> Count(AtLeast(limit), v) >= p
  {
    hide Sort, Filter;
    ByValueIsWeakOrder();
    SortIsSorted(BY_VALUE, v);
    SortIsPermutation(BY_VALUE, v);
    CountSorted(AtLeast(limit), v);
    MiddleOfSorted(Sort(BY_VALUE, v), p, limit);
  }

  lemma {:induction false} MaterialCount(v: seq<real>)
    ensures Count(MATERIAL, v) == Count(AtLeast(1.0 - TAU), v)
  {
    FilterAgrees(MATERIAL, AtLeast(1.0 - TAU), v);
  }

  function Window(v: seq<real>, w: int, end: int): seq<real>
    requires 0 <= w <= end <= |v|
  {
    v[end - w..end]
  }

  /** A window confirms exactly when at least p of its 2p - 1 minutes are material. */
  lemma ConfirmsIffMajority(v: seq<real>, p: nat, end: int)
    requires p >= 1 && 2 * p - 1 <= end <= |v|
    ensures Confirmed(v, 2 * p - 1, end) <==> Count(MATERIAL, Window(v, 2 * p - 1, end)) >= p
  {
    hide Median, Filter;
    MaterialCount(Window(v, 2 * p - 1, end));
    MedianIsMajority(Window(v, 2 * p - 1, end), p, 1.0 - TAU);
  }

  // ---------- the support lookup never runs out ----------

  lemma NoMaterialMinute(v: seq<real>, a: int, b: int)
    requires 0 <= a <= b <= |v| && forall k :: a + 1 <= k <= b ==> !MaterialAt(v, k)
    ensures Count(MATERIAL, v[a..b]) == 0
  {
    forall i | 0 <= i < b - a
      ensures !MATERIAL(v[a..b][i])
    {
      assert !MaterialAt(v, a + i + 1);
    }
    FilterNone(MATERIAL, v[a..b]);
  }

  /** A confirmation has a first material minute in its window, with at
      least p minutes from there to the confirmation. */
  lemma SupportExists(v: seq<real>, p: nat, end: int)
    requires p >= 1 && 2 * p - 1 <= end <= |v| && Confirmed(v, 2 * p - 1, end)
    ensures var support := FirstMaterial(v, end - (2 * p - 1) + 1, end);
            support.Some? && end - 2 * p + 2 <= support.value <= end - p + 1 && MaterialAt(v, support.value)
            && forall k :: end - 2 * p + 2 <= k < support.value ==> !MaterialAt(v, k)
  {
    hide MaterialAt, Confirmed, FirstMaterial, Count;
    var a := end - (2 * p - 1);
    ConfirmsIffMajority(v, p, end);
    FirstMaterialFound(v, a + 1, end);
    var support := FirstMaterial(v, a + 1, end);
    var stop := if support.Some? then support.value - 1 else end;
    NoMaterialMinute(v, a, stop);
    CountSplit(MATERIAL, v[a..end], stop - a);
    assert v[a..end][..stop - a] == v[a..stop];
  }

  /** What one side reports about support: present exactly with a confirmation, and early enough for a majority. */
  lemma SupportNeverRunsOut(v: seq<real>, z: seq<real>, p: nat, eta: real, j: real, m: real)
    requires p >= 1 && 2 * p - 1 <= |v|
    ensures var side := SideStats(v, z, 2 * p - 1, eta, j, m);
            && (side.firstSupporting.Some? <==> side.firstConfirmation.Some?)
            && (side.firstConfirmation.Some? ==>
                  side.firstConfirmation.value - 2 * p + 2
                  <= side.firstSupporting.value <= side.firstConfirmation.value - p + 1)
  {
    hide Median, Confirmed, SumOf, Count, FirstMaterial, Peak, PositivePart, Reestablished, ReturnsAfter, PeakMedian,
         Confirmations, Ge, Negated, MaterialAt;
    ConfirmationRange(v, 2 * p - 1, |v|);
    var all := Confirmations(v, 2 * p - 1, |v|);
    if all != [] {
      SupportExists(v, p, all[0]);
    }
  }

  // ---------- the material peak is a confirmation ----------

  lemma {:induction false} PeakIffConfirmed(v: seq<real>, w: int, end: int)
    requires 1 <= w && w - 1 <= end <= |v| && w % 2 == 1
    ensures Ge(PeakMedian(v, w, end), 1.0) <==> Confirmations(v, w, end) != []
    decreases end
  {
    hide Median;
    if end >= w {
      PeakIffConfirmed(v, w, end - 1);
    }
  }

  /** The material predicate on B holds exactly when the side has a confirmation. */
  lemma MaterialPeakIffConfirmation(name: SideName, y: seq<real>, z: seq<real>, w: int, eta: real)
    requires 1 <= w <= |y| == |z| && w % 2 == 1
    ensures Ge(StatsFor(name, y, z, w, eta).b, 1.0) <==> StatsFor(name, y, z, w, eta).confirmations != []
  {
    hide StatsFor, Ge, PeakMedian, Confirmations;
    StatsCarry(name, y, z, w, eta);
    PeakIffConfirmed(Scaled(Sign(name), y), w, |y|);
  }

  // ---------- no window confirms both sides ----------

  lemma {:induction false} OpposedCounts(v: seq<real>)
    ensures Count(MATERIAL, v) + Count(MATERIAL, Negated(v)) <= |v|
  {
    if v != [] {
      OpposedCounts(v[1..]);
      assert Negated(v)[1..] == Negated(v[1..]);
    }
  }

  lemma NegatedWindow(v: seq<real>, a: int, b: int)
    requires 0 <= a <= b <= |v|
    ensures Negated(v)[a..b] == Negated(v[a..b])
    ensures Negated(Negated(v)) == v
    ensures Scaled(1.0, v) == v && Scaled(-1.0, v) == Negated(v)
  {
  }

  /** No window confirms LONG and SHORT at once. */
  lemma NoWindowConfirmsBoth(v: seq<real>, w: int, end: int)
    requires 1 <= w <= end <= |v| && w % 2 == 1
    ensures !(Confirmed(v, w, end) && Confirmed(Negated(v), w, end))
  {
    hide Confirmed, Count, Negated;
    var p := (w + 1) / 2;
    ConfirmsIffMajority(v, p, end);
    ConfirmsIffMajority(Negated(v), p, end);
    NegatedWindow(v, end - w, end);
    OpposedCounts(Window(v, w, end));
  }

  // ---------- phases ----------

  lemma StateIsConfirmation(y: seq<real>, w: int, end: int)
    requires 1 <= w <= end <= |y| && w % 2 == 1
    ensures StateAt(y, w, end) == Some(Long) <==> Confirmed(y, w, end)
    ensures StateAt(y, w, end) == Some(Short) <==> Confirmed(Negated(y), w, end)
  {
    hide Median;
    NoWindowConfirmsBoth(y, w, end);
    NegatedWindow(y, end - w, end);
  }

  function Oriented(name: SideName, y: seq<real>): seq<real> {
    if name == Long then y else Negated(y)
  }

  /** The side has no confirmation after one minute and up to another. */
  ghost predicate Quiet(y: seq<real>, w: int, name: SideName, after: int, upto: int)
    requires 1 <= w && upto <= |y| && w % 2 == 1
  {
    forall e :: w <= e && after < e <= upto ==> !Confirmed(Oriented(name, y), w, e)
  }

  /** Neighbours differ, minutes increase, each entry is the first confirmation of its side since the entry before,
      and nothing confirms before the first entry or changes the side after the last one. */
  ghost predicate Alternates(phases: seq<Phase>, y: seq<real>, w: int, end: int)
    requires 1 <= w && end <= |y| && w % 2 == 1
  {
    && (forall i :: 0 <= i < |phases| ==> IsPhase(phases[i], y, w, end))
    && (forall i :: 0 < i < |phases| ==> phases[i].side != phases[i - 1].side)
    && (forall i, j :: 0 <= i < j < |phases| ==> phases[i].firstConfirmation < phases[j].firstConfirmation)
    && (forall i :: 0 < i < |phases| ==> FirstSince(phases[i], phases[i - 1], y, w, end))
    && SettledSince(phases, y, w, end)
  }

  ghost predicate IsPhase(phase: Phase, y: seq<real>, w: int, end: int)
    requires 1 <= w && end <= |y| && w % 2 == 1
  {
    w <= phase.firstConfirmation <= end && Confirmed(Oriented(phase.side, y), w, phase.firstConfirmation)
  }

  /** No minute between the two entries confirms the side of the later one. */
  ghost predicate FirstSince(phase: Phase, previous: Phase, y: seq<real>, w: int, end: int)
    requires 1 <= w && end <= |y| && w % 2 == 1
  {
    phase.firstConfirmation <= end && Quiet(y, w, phase.side, previous.firstConfirmation, phase.firstConfirmation - 1)
  }

  /** Nothing is confirmed before the first entry, nor the other side after the last. */
  ghost predicate SettledSince(phases: seq<Phase>, y: seq<real>, w: int, end: int)
    requires 1 <= w && end <= |y| && w % 2 == 1
  {
    if phases == [] then Quiet(y, w, Long, 0, end) && Quiet(y, w, Short, 0, end)
    else
      var first, last := phases[0], phases[|phases| - 1];
      && first.firstConfirmation <= end
      && Quiet(y, w, Long, 0, first.firstConfirmation - 1) && Quiet(y, w, Short, 0, first.firstConfirmation - 1)
      && Quiet(y, w, Opposite(last.side), last.firstConfirmation, end)
  }

  lemma {:induction false} PhasesAlternate(y: seq<real>, w: int, end: int)
    requires 1 <= w && w - 1 <= end <= |y| && w % 2 == 1
    ensures Alternates(Phases(y, w, end), y, w, end)
    decreases end
  {
    hide StateAt, Confirmed, Oriented, WithState, Alternates;
    if end >= w {
      PhasesAlternate(y, w, end - 1);
      ExtendPhases(Phases(y, w, end - 1), y, w, end);
    } else {
      NothingConfirmed(y, w, end);
    }
  }

  lemma NothingConfirmed(y: seq<real>, w: int, end: int)
    requires 1 <= w && 0 <= end < w && end <= |y| && w % 2 == 1
    ensures Alternates([], y, w, end)
  {
    hide Confirmed, Oriented;
  }

  /** One more window keeps the phase list in order. */
  lemma ExtendPhases(before: seq<Phase>, y: seq<real>, w: int, end: int)
    requires 1 <= w <= end <= |y| && w % 2 == 1 && Alternates(before, y, w, end - 1)
    ensures Alternates(WithState(before, StateAt(y, w, end), end), y, w, end)
  {
    hide StateAt, Confirmed, Oriented, IsPhase, FirstSince, SettledSince;
    forall i | 0 <= i < |before|
      ensures IsPhase(before[i], y, w, end) && before[i].firstConfirmation < end
    {
      EarlierPhase(before[i], y, w, end);
    }
    forall i | 0 < i < |before|
      ensures FirstSince(before[i], before[i - 1], y, w, end)
    {
      EarlierFirstSince(before[i], before[i - 1], y, w, end);
    }
    if StateAt(y, w, end).Some? {
      NewPhase(y, w, end);
    }
    SettledStep(before, y, w, end);
  }

  lemma EarlierFirstSince(phase: Phase, previous: Phase, y: seq<real>, w: int, end: int)
    requires 1 <= w <= end <= |y| && w % 2 == 1 && FirstSince(phase, previous, y, w, end - 1)
    ensures FirstSince(phase, previous, y, w, end)
  {
    hide Confirmed, Oriented;
  }

  lemma SettledStep(before: seq<Phase>, y: seq<real>, w: int, end: int)
    requires 1 <= w <= end <= |y| && w % 2 == 1 && SettledSince(before, y, w, end - 1)
    ensures var after := WithState(before, StateAt(y, w, end), end);
            SettledSince(after, y, w, end)
            && (|after| > |before| > 0 ==> FirstSince(after[|before|], before[|before| - 1], y, w, end))
  {
    hide StateAt, Confirmed, Oriented;
    StateIsConfirmation(y, w, end);
    SideCases(StateAt(y, w, end));
    OrientedCases(y);
    QuietStep(y, w, Long, end);
    QuietStep(y, w, Short, end);
    var after := WithState(before, StateAt(y, w, end), end);
    assert StateAt(y, w, end) != Some(Long) ==> !Confirmed(Oriented(Long, y), w, end);
    assert StateAt(y, w, end) != Some(Short) ==> !Confirmed(Oriented(Short, y), w, end);
    if before != [] {
      assert after[0] == before[0];
      var last := before[|before| - 1].side;
      assert last == Long || last == Short;
    }
  }

  lemma QuietStep(y: seq<real>, w: int, name: SideName, end: int)
    requires 1 <= w <= end <= |y| && w % 2 == 1
    ensures forall after :: Quiet(y, w, name, after, end - 1) && !Confirmed(Oriented(name, y), w, end) ==>
            Quiet(y, w, name, after, end)
    ensures forall after :: after >= end ==> Quiet(y, w, name, after, end)
  {
    hide Confirmed, Oriented;
  }

  lemma EarlierPhase(phase: Phase, y: seq<real>, w: int, end: int)
    requires 1 <= w <= end <= |y| && w % 2 == 1 && IsPhase(phase, y, w, end - 1)
    ensures IsPhase(phase, y, w, end) && phase.firstConfirmation < end
  {
  }

  lemma NewPhase(y: seq<real>, w: int, end: int)
    requires 1 <= w <= end <= |y| && w % 2 == 1 && StateAt(y, w, end).Some?
    ensures IsPhase(Phase(StateAt(y, w, end).value, end), y, w, end)
  {
    hide StateAt, Confirmed;
    StateIsConfirmation(y, w, end);
    SideCases(StateAt(y, w, end));
  }

  lemma OrientedCases(y: seq<real>)
    ensures Oriented(Long, y) == y && Oriented(Short, y) == Negated(y)
  {
  }

  ghost predicate HasSide(phases: seq<Phase>, name: SideName) {
    exists i :: 0 <= i < |phases| && phases[i].side == name
  }

  /** A side has a confirmation exactly when it has an entry in the phase sequence. */
  lemma {:induction false} PhasesListTheSides(y: seq<real>, w: int, end: int, name: SideName)
    requires 1 <= w && w - 1 <= end <= |y| && w % 2 == 1
    ensures Confirmations(Oriented(name, y), w, end) != [] <==> HasSide(Phases(y, w, end), name)
    decreases end
  {
    hide StateAt, Confirmed, Oriented, WithState, HasSide;
    if end >= w {
      PhasesListTheSides(y, w, end - 1, name);
      StateIsConfirmation(y, w, end);
      OrientedCases(y);
      WithStateSides(Phases(y, w, end - 1), StateAt(y, w, end), end, name);
      assert name == Long || name == Short;
    } else {
      NoPhases(name);
    }
  }

  lemma NoPhases(name: SideName)
    ensures !HasSide([], name)
  {
  }

  lemma WithStateSides(before: seq<Phase>, state: Option<SideName>, end: int, name: SideName)
    ensures HasSide(WithState(before, state, end), name) <==> HasSide(before, name) || state == Some(name)
  {
    var after := WithState(before, state, end);
    if HasSide(before, name) {
      var i :| 0 <= i < |before| && before[i].side == name;
      assert after[i].side == name;
    }
    if state == Some(name) {
      assert after[|after| - 1].side == name;
    }
  }

  /** Both sides have confirmations exactly when the phase sequence has two or more entries. */
  lemma SideChangeIffTwoPhases(y: seq<real>, w: int)
    requires 1 <= w <= |y| && w % 2 == 1
    ensures (Confirmations(y, w, |y|) != [] && Confirmations(Negated(y), w, |y|) != []) <==> |Phases(y, w, |y|)| >= 2
  {
    hide Confirmations, Phases, IsPhase;
    PhasesAlternate(y, w, |y|);
    PhasesListTheSides(y, w, |y|, Long);
    PhasesListTheSides(y, w, |y|, Short);
    OrientedCases(y);
    var phases := Phases(y, w, |y|);
    if |phases| >= 2 {
      assert phases[1].side != phases[0].side;
      assert phases[0].side == Long || phases[1].side == Long;
      assert phases[0].side == Short || phases[1].side == Short;
    }
  }

  /** The reported flag and the reported sequence agree. */
  lemma SupportedSideChangeIffTwoPhases(z: seq<real>, c: Config, k: Counts, extremes: Option<Extremes>)
    requires c.a > 0.0 && 1 <= k.w <= |z| && k.w % 2 == 1
    ensures var r := EvaluateCounted(z, c, k, extremes);
            r.Candidate? ==> (r.supportedSideChange <==> |r.phases| >= 2)
  {
    hide StatsFor, VerdictOf, Phases, Confirmations, Normalized, LabelOf, Scaled, Negated;
    var y := Normalized(z, c.a);
    StatsCarry(Long, y, z, k.w, c.eta);
    StatsCarry(Short, y, z, k.w, c.eta);
    NegatedWindow(y, 0, 0);
    SideChangeIffTwoPhases(y, k.w);
  }

  /** A confirmed minute before which nothing is confirmed heads the list of confirmations. */
  lemma FirstOfConfirmations(v: seq<real>, w: int, minute: int)
    requires 1 <= w <= minute <= |v| && w % 2 == 1 && Confirmed(v, w, minute)
    requires forall e :: w <= e < minute ==> !Confirmed(v, w, e)
    ensures Confirmations(v, w, |v|) != [] && Confirmations(v, w, |v|)[0] == minute
  {
    hide Confirmed, Confirmations;
    ConfirmationRange(v, w, |v|);
    ConfirmationsIncrease(v, w, |v|);
    var all := Confirmations(v, w, |v|);
    assert minute in all;
    var i :| 0 <= i < |all| && all[i] == minute;
    assert all[0] in all;
  }

  lemma OnePhaseIsFirst(y: seq<real>, w: int, name: SideName)
    requires 1 <= w <= |y| && w % 2 == 1
    requires |Phases(y, w, |y|)| == 1 && Phases(y, w, |y|)[0].side == name
    ensures var all := Confirmations(Oriented(name, y), w, |y|);
            all != [] && Phases(y, w, |y|) == [Phase(name, all[0])]
  {
    hide Confirmed, Confirmations, Phases, Oriented;
    PhasesAlternate(y, w, |y|);
    OrientedCases(y);
    var phase := Phases(y, w, |y|)[0];
    assert IsPhase(phase, y, w, |y|);
    assert name == Long || name == Short;
    NegatedLength(y);
    FirstOfConfirmations(Oriented(name, y), w, phase.firstConfirmation);
  }

  /** A favored path has exactly one phase: the favored side's first confirmation. */
  lemma FavoredPathHasOnePhase(z: seq<real>, c: Config, k: Counts, extremes: Option<Extremes>)
    requires c.a > 0.0 && 1 <= k.w <= |z| && k.w % 2 == 1
    ensures var r := EvaluateCounted(z, c, k, extremes);
            r.Candidate? && r.candidateLabel != NoDirection ==>
              var name := if r.candidateLabel == LongFavored then Long else Short;
              var confirmations := if name == Long then r.long.stats.confirmations else r.short.stats.confirmations;
              confirmations != [] && r.phases == [Phase(name, confirmations[0])]
  {
    hide StatsFor, VerdictOf, Phases, Confirmations, Normalized, Scaled, Negated, Ge;
    var y := Normalized(z, c.a);
    var r := EvaluateCounted(z, c, k, extremes);
    var long, short := StatsFor(Long, y, z, k.w, c.eta), StatsFor(Short, y, z, k.w, c.eta);
    PassesNeedsMean(Long, long, short, c.beta, extremes);
    PassesNeedsMean(Short, short, long, c.beta, extremes);
    MaterialPeakIffConfirmation(Long, y, z, k.w, c.eta);
    MaterialPeakIffConfirmation(Short, y, z, k.w, c.eta);
    StatsCarry(Long, y, z, k.w, c.eta);
    StatsCarry(Short, y, z, k.w, c.eta);
    NegatedWindow(y, 0, 0);
    OrientedCases(y);
    SideChangeIffTwoPhases(y, k.w);
    PhasesListTheSides(y, k.w, |y|, Long);
    PhasesListTheSides(y, k.w, |y|, Short);
    if r.Candidate? && r.candidateLabel != NoDirection {
      OnePhaseIsFirst(y, k.w, if r.candidateLabel == LongFavored then Long else Short);
    }
  }

  // ---------- negating the path swaps the sides ----------

  function SwapLabel(favored: Label): Label {
    match favored
    case LongFavored => ShortFavored
    case ShortFavored => LongFavored
    case NoDirection => NoDirection
  }

  function SwapPhases(phases: seq<Phase>): (r: seq<Phase>)
    ensures |r| == |phases| && forall i :: 0 <= i < |r| ==>
            r[i] == Phase(Opposite(phases[i].side), phases[i].firstConfirmation)
  {
    seq(|phases|, i requires 0 <= i < |phases| => Phase(Opposite(phases[i].side), phases[i].firstConfirmation))
  }

  /** High and low trade places when the path is turned upside down. */
  function Mirrored(extremes: Option<Extremes>): Option<Extremes> {
    match extremes
    case Some(x) => Some(Extremes(Negated(x.low), Negated(x.high)))
    case None => None
  }

  function Mirror(r: Outcome): Outcome {
    match r
    case Candidate(k, verdict, long, short, phases, change) =>
      Candidate(k, SwapLabel(verdict), short, long, SwapPhases(phases), change)
    case _ => r
  }

  lemma {:induction false} NegatedSums(v: seq<real>)
    ensures SumOf(Negated(v)) == -SumOf(v) && ClippedSum(Negated(v)) == -ClippedSum(v)
  {
    if v != [] {
      NegatedSums(v[..|v| - 1]);
      assert Negated(v)[..|v| - 1] == Negated(v[..|v| - 1]);
    }
  }

  lemma NegatedScale(name: SideName, v: seq<real>)
    ensures Scaled(Sign(name), Negated(v)) == Scaled(Sign(Opposite(name)), v)
  {
  }

  lemma NegatedNormal(z: seq<real>, a: real)
    requires a > 0.0
    ensures Normalized(Negated(z), a) == Negated(Normalized(z, a))
  {
    forall i | 0 <= i < |z|
      ensures -z[i] / a == -(z[i] / a)
    {
    }
  }

  lemma OppositeMean(name: SideName, total: real, negated: real, n: real)
    requires n > 0.0 && negated == -total
    ensures Sign(name) * (negated / n) == Sign(Opposite(name)) * (total / n)
  {
    assert -total / n == -(total / n);
  }

  lemma StatsForIs(name: SideName, y: seq<real>, z: seq<real>, w: int, eta: real, j: real, m: real)
    requires 1 <= w <= |y| == |z| && w % 2 == 1
    requires j == Sign(name) * (ClippedSum(y) / |y| as real) && m == Sign(name) * (SumOf(z) / |y| as real)
    ensures StatsFor(name, y, z, w, eta) == SideStats(Scaled(Sign(name), y), Scaled(Sign(name), z), w, eta, j, m)
  {
    hide SideStats, SumOf, ClippedSum;
  }

  lemma StatsSwap(name: SideName, y: seq<real>, z: seq<real>, w: int, eta: real)
    requires 1 <= w <= |y| == |z| && w % 2 == 1
    ensures StatsFor(name, Negated(y), Negated(z), w, eta) == StatsFor(Opposite(name), y, z, w, eta)
  {
    hide SideStats, SumOf, ClippedSum, StatsFor, Scaled, Sign, Opposite;
    var n := |y| as real;
    var j, m := Sign(name) * (ClippedSum(Negated(y)) / n), Sign(name) * (SumOf(Negated(z)) / n);
    NegatedSums(y);
    NegatedSums(z);
    OppositeMean(name, ClippedSum(y), ClippedSum(Negated(y)), n);
    OppositeMean(name, SumOf(z), SumOf(Negated(z)), n);
    StatsForIs(name, Negated(y), Negated(z), w, eta, j, m);
    StatsForIs(Opposite(name), y, z, w, eta, j, m);
    NegatedScale(name, y);
    NegatedScale(name, z);
  }

  lemma VerdictSwap(name: SideName, side: Stats, opposite: Stats, beta: real, extremes: Option<Extremes>)
    ensures VerdictOf(name, side, opposite, beta, Mirrored(extremes))
            == VerdictOf(Opposite(name), side, opposite, beta, extremes)
  {
    hide Peak, Ge, All;
    if extremes.Some? {
      NegatedWindow(extremes.value.low, 0, 0);
      NegatedWindow(extremes.value.high, 0, 0);
    }
  }

  lemma SideSwap(name: SideName, y: seq<real>, z: seq<real>, w: int, beta: real, eta: real, extremes: Option<Extremes>)
    requires 1 <= w <= |y| == |z| && w % 2 == 1
    ensures SideFor(name, Negated(y), Negated(z), w, beta, eta, Mirrored(extremes))
            == SideFor(Opposite(name), y, z, w, beta, eta, extremes)
  {
    hide StatsFor, VerdictOf, Mirrored;
    StatsSwap(name, y, z, w, eta);
    StatsSwap(Opposite(name), y, z, w, eta);
    VerdictSwap(name, StatsFor(Opposite(name), y, z, w, eta), StatsFor(name, y, z, w, eta), beta, extremes);
  }

  lemma StateSwap(y: seq<real>, w: int, end: int)
    requires 1 <= w <= end <= |y| && w % 2 == 1
    ensures StateAt(Negated(y), w, end)
            == match StateAt(y, w, end) case Some(name) => Some(Opposite(name)) case None => None
  {
    hide StateAt, Confirmed, Negated;
    StateIsConfirmation(y, w, end);
    StateIsConfirmation(Negated(y), w, end);
    NegatedWindow(y, 0, 0);
    NoWindowConfirmsBoth(y, w, end);
    SideCases(StateAt(y, w, end));
    SideCases(StateAt(Negated(y), w, end));
  }

  lemma SideCases(state: Option<SideName>)
    ensures state == None || state == Some(Long) || state == Some(Short)
  {
    if state.Some? {
      assert state.value == Long || state.value == Short;
    }
  }

  lemma WithStateSwap(phases: seq<Phase>, state: Option<SideName>, end: int)
    ensures WithState(SwapPhases(phases), match state case Some(name) => Some(Opposite(name)) case None => None, end)
            == SwapPhases(WithState(phases, state, end))
  {
  }

  lemma {:induction false} PhasesSwap(y: seq<real>, w: int, end: int)
    requires 1 <= w && w - 1 <= end <= |y| && w % 2 == 1
    ensures Phases(Negated(y), w, end) == SwapPhases(Phases(y, w, end))
    decreases end
  {
    hide StateAt, WithState;
    if end >= w {
      PhasesSwap(y, w, end - 1);
      StateSwap(y, w, end);
      WithStateSwap(Phases(y, w, end - 1), StateAt(y, w, end), end);
    }
  }

  lemma CountedSwap(z: seq<real>, c: Config, k: Counts, extremes: Option<Extremes>)
    requires c.a > 0.0 && 1 <= k.w <= |z| && k.w % 2 == 1
    ensures EvaluateCounted(Negated(z), c, k, Mirrored(extremes)) == Mirror(EvaluateCounted(z, c, k, extremes))
  {
    hide SideFor, Phases, Mirrored, SwapPhases, Normalized, Negated;
    var y := Normalized(z, c.a);
    NegatedNormal(z, c.a);
    SideSwap(Long, y, z, k.w, c.beta, c.eta, extremes);
    SideSwap(Short, y, z, k.w, c.beta, c.eta, extremes);
    PhasesSwap(y, k.w, |y|);
  }

  function MirroredSeq(v: Option<seq<real>>): Option<seq<real>> {
    match v
    case Some(s) => Some(Negated(s))
    case None => None
  }

  lemma OhlcMirrors(z: seq<real>, x: Extremes)
    ensures ValidOhlc(Negated(z), Extremes(Negated(x.low), Negated(x.high))) <==> ValidOhlc(z, x)
  {
    var other := Extremes(Negated(x.low), Negated(x.high));
    if ValidOhlc(Negated(z), other) {
      forall i | 0 <= i < |z|
        ensures x.low[i] <= z[i] <= x.high[i]
      {
        assert other.low[i] <= Negated(z)[i] <= other.high[i];
      }
    }
  }

  /** The negated path, with high and low negated and exchanged, gets the mirror image of the whole outcome. */
  lemma NegationSwapsSides(z: seq<real>, c: Config, horizon: int, high: Option<seq<real>>, low: Option<seq<real>>)
    requires ValidConfig(c)
    ensures Evaluate(Negated(z), c, horizon, MirroredSeq(low), MirroredSeq(high))
            == Mirror(Evaluate(z, c, horizon, high, low))
  {
    hide EvaluateCounted, ValidOhlc, CountsFor, Negated, SwapPhases;
    var counted := CountsFor(c, horizon, Canonical(horizon));
    CountsRange(c, horizon, Canonical(horizon));
    NegatedLength(z);
    if high.Some? && low.Some? {
      OhlcMirrors(z, Extremes(high.value, low.value));
    }
    if |z| == horizon && counted.Success? {
      if high.Some? && low.Some? {
        CountedSwap(z, c, counted.value, Some(Extremes(high.value, low.value)));
      } else {
        CountedSwap(z, c, counted.value, None);
      }
    }
  }

  lemma NegatedLength(z: seq<real>)
    ensures |Negated(z)| == |z|
  {
  }

  // ---------- J never exceeds the raw occupancy ----------

  lemma {:induction false} ClippedBelowCount(v: seq<real>)
    ensures ClippedSum(v) <= Count((x: real) => x > 0.0, v) as real
  {
    var positive := (x: real) => x > 0.0;
    if v != [] {
      var rest, last := v[..|v| - 1], v[|v| - 1];
      ClippedBelowCount(rest);
      assert v == rest + [last];
      FilterConcat(positive, rest, [last]);
      FilterCons(positive, last, []);
      assert [last] + [] == [last];
    }
  }

  lemma ClippedOriented(name: SideName, y: seq<real>)
    ensures ClippedSum(Scaled(Sign(name), y)) == Sign(name) * ClippedSum(y)
  {
    NegatedWindow(y, 0, 0);
    NegatedSums(y);
  }

  lemma OccupancyOf(v: seq<real>, z: seq<real>, w: int, eta: real, j: real, m: real)
    requires 1 <= w <= |v| && w % 2 == 1
    ensures SideStats(v, z, w, eta, j, m).rawOccupancy == Count((x: real) => x > 0.0, v) as real / |v| as real
    ensures SideStats(v, z, w, eta, j, m).j == j
  {
    hide Median, Confirmed, SumOf, Count, FirstMaterial, Peak, PositivePart, Reestablished, ReturnsAfter, PeakMedian,
         Confirmations, Ge, Negated, MaterialAt;
  }

  /** On each side J is at most the share of strictly favorable minutes. */
  lemma JBelowRawOccupancy(name: SideName, y: seq<real>, z: seq<real>, w: int, eta: real)
    requires 1 <= w <= |y| == |z| && w % 2 == 1
    ensures StatsFor(name, y, z, w, eta).j <= StatsFor(name, y, z, w, eta).rawOccupancy
  {
    hide SideStats, Count, ClippedSum, SumOf, StatsFor, Scaled;
    var v, n := Scaled(Sign(name), y), |y| as real;
    var j, m := Sign(name) * (ClippedSum(y) / n), Sign(name) * (SumOf(z) / n);
    StatsForIs(name, y, z, w, eta, j, m);
    OccupancyOf(v, Scaled(Sign(name), z), w, eta, j, m);
    ClippedOriented(name, y);
    ClippedBelowCount(v);
    ScaledQuotient(Sign(name), ClippedSum(y), n);
    QuotientOrder(ClippedSum(v), Count((x: real) => x > 0.0, v) as real, n);
  }

  lemma ScaledQuotient(q: real, total: real, n: real)
    requires n > 0.0
    ensures q * (total / n) == (q * total) / n
  {
    QuotientTimes(total, n);
    Associate(q, total / n, n);
    TimesQuotient(q * (total / n), n);
  }

  // ---------- areas and occupancies ----------

  lemma {:induction false} PartsBalance(z: seq<real>)
    ensures SumOf(PositivePart(z)) - SumOf(PositivePart(Negated(z))) == SumOf(z)
  {
    if z != [] {
      var rest := z[..|z| - 1];
      PartsBalance(rest);
      assert PositivePart(z)[..|z| - 1] == PositivePart(rest);
      assert PositivePart(Negated(z))[..|z| - 1] == PositivePart(Negated(rest));
    }
  }

  lemma StatsOf(v: seq<real>, z: seq<real>, w: int, eta: real, j: real, m: real)
    requires 1 <= w <= |v| && w % 2 == 1
    ensures var side := SideStats(v, z, w, eta, j, m);
            && side.m == m && side.areaPositive == SumOf(PositivePart(z))
            && side.areaNegative == SumOf(PositivePart(Negated(z)))
            && side.materialOccupancy == Count(MATERIAL, v) as real / |v| as real
            && side.rawOccupancy == Count((x: real) => x > 0.0, v) as real / |v| as real
            && (side.firstSupporting.Some? ==>
                  1 <= side.firstSupporting.value <= |v|
                  && side.materialAfterSupport == Some(Count(MATERIAL, v[side.firstSupporting.value - 1..])))
  {
    hide Median, Confirmed, SumOf, Count, FirstMaterial, Peak, PositivePart, Reestablished, ReturnsAfter, PeakMedian,
         Confirmations, Ge, Negated, MaterialAt;
    ConfirmationRange(v, w, |v|);
    var all := Confirmations(v, w, |v|);
    SupportRange(v, w, if all != [] then Some(all[0]) else None);
  }

  /** The two areas of a side differ by its mean times the horizon. */
  lemma AreasBalance(name: SideName, y: seq<real>, z: seq<real>, w: int, eta: real)
    requires 1 <= w <= |y| == |z| && w % 2 == 1
    ensures var side := StatsFor(name, y, z, w, eta);
            side.areaPositive - side.areaNegative == side.m * |z| as real
  {
    hide SideStats, ClippedSum, SumOf, StatsFor, Scaled, PositivePart, Negated;
    var n := |y| as real;
    var j, m := Sign(name) * (ClippedSum(y) / n), Sign(name) * (SumOf(z) / n);
    StatsForIs(name, y, z, w, eta, j, m);
    StatsOf(Scaled(Sign(name), y), Scaled(Sign(name), z), w, eta, j, m);
    PartsBalance(Scaled(Sign(name), z));
    SummedOriented(name, z);
    ScaledQuotient(Sign(name), SumOf(z), n);
    QuotientTimes(Sign(name) * SumOf(z), n);
  }

  lemma SummedOriented(name: SideName, z: seq<real>)
    ensures SumOf(Scaled(Sign(name), z)) == Sign(name) * SumOf(z)
  {
    NegatedWindow(z, 0, 0);
    NegatedSums(z);
  }

  lemma {:induction false} CountNested(p: real -> bool, q: real -> bool, v: seq<real>)
    requires forall x :: p(x) ==> q(x)
    ensures Count(p, v) <= Count(q, v)
  {
    if v != [] {
      CountNested(p, q, v[1..]);
    }
  }

  /** Material minutes are favorable minutes. */
  lemma MaterialWithinRaw(v: seq<real>, z: seq<real>, w: int, eta: real, j: real, m: real)
    requires 1 <= w <= |v| && w % 2 == 1
    ensures 0.0 <= SideStats(v, z, w, eta, j, m).materialOccupancy <= SideStats(v, z, w, eta, j, m).rawOccupancy <= 1.0
  {
    hide SideStats, Count;
    var positive := (x: real) => x > 0.0;
    StatsOf(v, z, w, eta, j, m);
    CountNested(MATERIAL, positive, v);
    CountSplit(positive, v, |v|);
    assert v[..|v|] == v;
    var n := |v| as real;
    QuotientOrder(0.0, Count(MATERIAL, v) as real, n);
    QuotientOrder(Count(MATERIAL, v) as real, Count(positive, v) as real, n);
    QuotientOrder(Count(positive, v) as real, n, n);
  }

  lemma CountOfTail(v: seq<real>, a: int, b: int, s: int)
    requires 0 <= a <= s <= b <= |v| && Count(MATERIAL, v[a..s]) == 0
    ensures Count(MATERIAL, v[s..]) >= Count(MATERIAL, v[a..b])
  {
    hide Count;
    CountSplit(MATERIAL, v[a..b], s - a);
    assert v[a..b][..s - a] == v[a..s] && v[a..b][s - a..] == v[s..b];
    CountSplit(MATERIAL, v[s..], b - s);
    assert v[s..][..b - s] == v[s..b];
    CountIsNatural(v[s..][b - s..]);
  }

  lemma CountIsNatural(v: seq<real>)
    ensures Count(MATERIAL, v) >= 0
  {
  }

  /** From its support on, a confirmed side has at least p material minutes. */
  lemma MajorityAfterSupport(v: seq<real>, z: seq<real>, p: nat, eta: real, j: real, m: real)
    requires p >= 1 && 2 * p - 1 <= |v|
    ensures var side := SideStats(v, z, 2 * p - 1, eta, j, m);
            side.firstConfirmation.Some? ==> side.materialAfterSupport.Some? && side.materialAfterSupport.value >= p
  {
    hide SideStats, Count, Confirmed, FirstMaterial, MaterialAt, Confirmations;
    var w := 2 * p - 1;
    var side := SideStats(v, z, w, eta, j, m);
    StatsOf(v, z, w, eta, j, m);
    SupportNeverRunsOut(v, z, p, eta, j, m);
    if side.firstConfirmation.Some? {
      FirstSupport(v, z, w, eta, j, m);
      var end, support := side.firstConfirmation.value, side.firstSupporting.value;
      SupportExists(v, p, end);
      ConfirmsIffMajority(v, p, end);
      NoMaterialMinute(v, end - w, support - 1);
      CountOfTail(v, end - w, end, support - 1);
    }
  }

  lemma FirstSupport(v: seq<real>, z: seq<real>, w: int, eta: real, j: real, m: real)
    requires 1 <= w <= |v| && w % 2 == 1
    ensures var side := SideStats(v, z, w, eta, j, m);
            side.firstConfirmation.Some? ==>
              && w <= side.firstConfirmation.value <= |v| && Confirmed(v, w, side.firstConfirmation.value)
              && side.firstSupporting
                 == FirstMaterial(v, side.firstConfirmation.value - w + 1, side.firstConfirmation.value)
  {
    hide Median, Confirmed, SumOf, Count, FirstMaterial, Peak, PositivePart, Reestablished, ReturnsAfter, PeakMedian,
         Confirmations, Ge, Negated, MaterialAt;
    ConfirmationRange(v, w, |v|);
  }

  // ---------- what the side records say about each other ----------

  /** Passing excludes an opposing phase and a retention failure, and each margin's sign decides its predicate. */
  lemma VerdictConsequences(name: SideName, side: Stats, opposite: Stats, beta: real, extremes: Option<Extremes>)
    ensures var v := VerdictOf(name, side, opposite, beta, extremes);
            && |v.predicates| == 6 == |v.margins|
            && (v.passes ==> !v.opposingPhase && !v.retentionFailure)
            && (v.retentionFailure ==> !v.passes && Ge(side.b, 1.0))
            && (forall i :: i in [0, 2, 5] ==> (v.predicates[i] <==> v.margins[i] >= -TAU))
            && (forall i :: i in [1, 4] ==> (v.predicates[i] <==> v.margins[i] > 0.0))
            && (v.predicates[3] <==> v.margins[3] > TAU) && v.predicates[3] == !v.opposingPhase
  {
    hide Peak, All;
    PassesNeedsMean(name, side, opposite, beta, extremes);
  }

  lemma RemainderOf(v: seq<real>, z: seq<real>, w: int, eta: real, j: real, m: real)
    requires 1 <= w <= |v| && w % 2 == 1
    ensures var side := SideStats(v, z, w, eta, j, m);
            && side.e == v[|v| - 1] && side.r <= side.e && side.r <= side.s && (side.r == side.e || side.r == side.s)
            && side.giveback >= 0.0 && (side.b >= side.r ==> side.b - side.giveback == side.r)
            && (side.fullEndpointGiveback <==> Ge(side.b, 1.0) && v[|v| - 1] <= 0.0)
            && side.firstMaterial == FirstMaterial(v, 1, |v|)
            && side.confirmations == Confirmations(v, w, |v|)
            && side.reestablished == Reestablished(v, side.confirmations)
            && (side.firstConfirmation.Some? <==> side.confirmations != [])
            && (side.confirmations != [] ==>
                  side.firstConfirmation == Some(side.confirmations[0]) && 1 <= side.confirmations[0] <= |v|
                  && side.internalReturn == ReturnsAfter(v, side.confirmations[0])
                  && side.minutesAfterConfirmation == Some(|v| - side.confirmations[0]))
            && (side.firstSupporting.Some? ==> side.minutesFromSupport == Some(|v| - side.firstSupporting.value + 1))
  {
    hide Median, Confirmed, SumOf, Count, FirstMaterial, Peak, PositivePart, Reestablished, ReturnsAfter, PeakMedian,
         Confirmations, Ge, Negated, MaterialAt;
    ConfirmationRange(v, w, |v|);
  }

  /** A path that gives everything back at its end fails on that side, by retention. */
  lemma EndpointGivebackNeverPasses(v: seq<real>, z: seq<real>, w: int, eta: real, j: real, m: real, name: SideName,
      opposite: Stats, beta: real, extremes: Option<Extremes>)
    requires 1 <= w <= |v| && w % 2 == 1
    ensures var side := SideStats(v, z, w, eta, j, m);
            side.fullEndpointGiveback ==>
              !VerdictOf(name, side, opposite, beta, extremes).passes
                && VerdictOf(name, side, opposite, beta, extremes).retentionFailure
  {
    hide SideStats, Ge, Peak, All;
    var side := SideStats(v, z, w, eta, j, m);
    RemainderOf(v, z, w, eta, j, m);
    PassesNeedsMean(name, side, opposite, beta, extremes);
  }

  ghost predicate Increases(s: seq<int>, limit: int) {
    (forall i, j :: 0 <= i < j < |s| ==> s[i] < s[j]) && forall i :: 0 <= i < |s| ==> s[i] <= limit
  }

  lemma {:induction false} ConfirmationsIncrease(v: seq<real>, w: int, end: int)
    requires 1 <= w && w - 1 <= end <= |v| && w % 2 == 1
    ensures Increases(Confirmations(v, w, end), end)
    decreases end
  {
    hide Confirmed;
    if end >= w {
      ConfirmationsIncrease(v, w, end - 1);
    }
  }

  /** A reestablishment contains an internal return; the support is no earlier than the first material minute,
      and at least p minutes lie between it and the confirmation. */
  lemma MilestonesAreOrdered(v: seq<real>, z: seq<real>, p: nat, eta: real, j: real, m: real)
    requires p >= 1 && 2 * p - 1 <= |v|
    ensures var side := SideStats(v, z, 2 * p - 1, eta, j, m);
            && (side.reestablished ==> side.internalReturn)
            && (side.firstSupporting.Some? ==>
                side.firstMaterial.Some? && side.firstMaterial.value <= side.firstSupporting.value)
            && (side.firstConfirmation.Some? ==>
                  side.minutesFromSupport.Some? && side.minutesAfterConfirmation.Some?
                  && side.minutesFromSupport.value >= side.minutesAfterConfirmation.value + p)
  {
    hide SideStats, Confirmed, FirstMaterial, MaterialAt, Confirmations, Ge, NonPositiveAt, ReturnsAfter;
    var w := 2 * p - 1;
    var side := SideStats(v, z, w, eta, j, m);
    RemainderOf(v, z, w, eta, j, m);
    SupportNeverRunsOut(v, z, p, eta, j, m);
    FirstMaterialFound(v, 1, |v|);
    ConfirmationsIncrease(v, w, |v|);
    ConfirmationRange(v, w, |v|);
    if side.reestablished {
      var k :| 1 <= k <= |v| && NonPositiveAt(v, k) && (exists e :: e in side.confirmations && e < k);
      var e :| e in side.confirmations && e < k;
      var i :| 0 <= i < |side.confirmations| && side.confirmations[i] == e;
      assert i > 0 ==> side.confirmations[0] < side.confirmations[i];
      LaterReturn(v, side.confirmations[0], k);
    }
    if side.firstConfirmation.Some? {
      FirstSupport(v, z, w, eta, j, m);
      SupportExists(v, p, side.firstConfirmation.value);
    }
  }

  lemma LaterReturn(v: seq<real>, minute: int, k: int)
    requires 0 <= minute < k <= |v| && NonPositiveAt(v, k)
    ensures ReturnsAfter(v, minute)
  {
  }

  // ---------- sensitivity probes ----------

  lemma ProbeProduct(t: int, n: int)
    requires n > 0
    ensures (2 * t - 1) as real / (2 * n) as real * n as real == t as real - 0.5
  {
    var r := (2 * t - 1) as real / (2 * n) as real;
    QuotientTimes((2 * t - 1) as real, (2 * n) as real);
    Associate(r, 2.0, n as real);
    assert (2 * n) as real == 2.0 * n as real;
    assert r * (2.0 * n as real) == 2.0 * (r * n as real);
  }

  /** The rho probe (2t - 1) / 2n gives exactly the target width at its horizon. */
  lemma ProbeHitsTarget(c: Config, t: int, n: int)
    requires n > 0 && t >= 2 && c.rho == (2 * t - 1) as real / (2 * n) as real
    ensures Max(2, Ceiling(c.rho * n as real)) == t
    ensures forall canonical :: CountsFor(c, n, canonical).Success? ==>
              CountsFor(c, n, canonical).value.p == t && CountsFor(c, n, canonical).value.w == 2 * t - 1
  {
    ProbeProduct(t, n);
    assert (-(t as real - 0.5)).Floor == -t;
  }
}
