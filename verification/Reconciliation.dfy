/** The lockstep check that horizon files, diagnostics and the unavailable list all say what the wide file says. */
module Reconciliation {
  import opened Prelude
  import opened Sorting
  import opened HorizonFile

  datatype Cell = Cell(cellLabel: Option<string>, status: string, reasons: string)

  /** One row of the wide file, with one cell per horizon. */
  datatype Wide = Wide(symbol: string, physical: string, origin: string, cells: seq<Cell>, identity: seq<string>,
      calculation: string)

  datatype Entry = Entry(symbol: string, physical: string, origin: string, horizon: int, cell: Cell)

  datatype Side = Side(passes: bool, material: bool, opposing: bool, predicate4: bool)

  datatype Diagnostic = Diagnostic(entry: Entry, long: Side, short: Side)

  datatype Missing = Missing(symbol: string, physical: string, origin: string, horizon: int, status: string,
      reasons: string)

  datatype Expected = Expected(horizons: seq<int>, total: int, identity: seq<string>, calculation: string)

  datatype Mismatch =
    | WideNotSorted | WideIdentity | WideCalculation | HorizonEnded | DiagnosticsEnded | HorizonKey | DiagnosticKey
    | HorizonValues | DiagnosticValues | DiagnosticSemantics | UnavailableEnded | UnavailableRow
    | WideCount | UnavailableExtra | HorizonExtra | DiagnosticsExtra

  /** What horizon number h should say for the wide row. */
  function Projected(x: Expected, w: Wide, h: nat): Entry
    requires h < |x.horizons| && |w.cells| == |x.horizons|
  {
    Entry(w.symbol, w.physical, w.origin, x.horizons[h], w.cells[h])
  }

  /** The wide row for the first n horizons. */
  function Entries(x: Expected, w: Wide, n: nat): (out: seq<Entry>)
    requires n <= |x.horizons| && |w.cells| == |x.horizons|
    ensures |out| == n && forall h :: 0 <= h < n ==> out[h] == Projected(x, w, h)
  {
    seq(n, h requires 0 <= h < n => Projected(x, w, h))
  }

  predicate WellShaped(x: Expected, wide: seq<Wide>) {
    forall i :: 0 <= i < |wide| ==> |wide[i].cells| == |x.horizons|
  }

  /** The wide file row by row, horizon by horizon. */
  function Flat(x: Expected, wide: seq<Wide>): seq<Entry>
    requires WellShaped(x, wide)
  {
    if wide == [] then [] else Flat(x, wide[..|wide| - 1]) + Entries(x, wide[|wide| - 1], |x.horizons|)
  }

  function MissingOf(e: Entry): Missing {
    Missing(e.symbol, e.physical, e.origin, e.horizon, e.cell.status, e.cell.reasons)
  }

  /** The UNAVAILABLE entries as rows of the unavailable list. */
  function MissingRows(entries: seq<Entry>): seq<Missing> {
    if entries == [] then []
    else
      var last := entries[|entries| - 1];
      MissingRows(entries[..|entries| - 1]) + (if last.cell.status == "UNAVAILABLE" then [MissingOf(last)] else [])
  }

  /** What a valid diagnostic row must say about itself. */
  predicate Semantic(d: Diagnostic) {
    d.entry.cell.status == "VALID" ==>
      && !(d.long.passes && d.short.passes)
      && d.entry.cell.cellLabel
         == Some(if d.long.passes then "LONG_FAVORED" else if d.short.passes then "SHORT_FAVORED" else "NO_DIRECTION")
      && d.long.predicate4 == !d.long.opposing && d.short.predicate4 == !d.short.opposing
      && d.long.opposing == d.short.material && d.short.opposing == d.long.material
  }

  function WideKey(w: Wide): Key {
    Key(w.physical, w.origin)
  }

  predicate WideOk(x: Expected, wide: seq<Wide>, i: nat)
    requires i < |wide|
  {
    && (i > 0 ==> KeyBefore(WideKey(wide[i - 1]), WideKey(wide[i])))
    && wide[i].identity == x.identity && wide[i].calculation == x.calculation
  }

  ghost predicate FileOk(x: Expected, wide: seq<Wide>, file: seq<Entry>, h: nat)
    requires WellShaped(x, wide) && h < |x.horizons|
  {
    |file| == |wide| && forall i :: 0 <= i < |wide| ==> file[i] == Projected(x, wide[i], h)
  }

  ghost predicate DiagnosticsOk(x: Expected, wide: seq<Wide>, diagnostics: seq<Diagnostic>)
    requires WellShaped(x, wide)
  {
    var flat := Flat(x, wide);
    && |diagnostics| == |flat|
    && forall k :: 0 <= k < |flat| ==> diagnostics[k].entry == flat[k] && Semantic(diagnostics[k])
  }

  /** Horizon files and diagnostics are projections of the wide file, the unavailable list is its UNAVAILABLE entries,
      and nothing is left over anywhere. */
  ghost predicate Reconciled(x: Expected, wide: seq<Wide>, files: seq<seq<Entry>>, diagnostics: seq<Diagnostic>,
      missing: seq<Missing>)
    requires WellShaped(x, wide) && |files| == |x.horizons|
  {
    && (forall i :: 0 <= i < |wide| ==> WideOk(x, wide, i))
    && (forall h :: 0 <= h < |files| ==> FileOk(x, wide, files[h], h))
    && DiagnosticsOk(x, wide, diagnostics)
    && missing == MissingRows(Flat(x, wide))
    && |wide| == x.total
  }

  // ---------- prefixes of the flattened wide file ----------

  lemma FlatStep(x: Expected, wide: seq<Wide>, i: nat)
    requires WellShaped(x, wide) && i < |wide|
    ensures WellShaped(x, wide[..i]) && WellShaped(x, wide[..i + 1])
    ensures Flat(x, wide[..i + 1]) == Flat(x, wide[..i]) + Entries(x, wide[i], |x.horizons|)
  {
    assert wide[..i + 1][..i] == wide[..i];
  }

  /** The entries before horizon h of row i, read in lockstep order. */
  function Before(x: Expected, wide: seq<Wide>, i: nat, h: nat): seq<Entry>
    requires WellShaped(x, wide) && i < |wide| && h <= |x.horizons|
  {
    Flat(x, wide[..i]) + Entries(x, wide[i], h)
  }

  lemma BeforeStep(x: Expected, wide: seq<Wide>, i: nat, h: nat)
    requires WellShaped(x, wide) && i < |wide| && h < |x.horizons|
    ensures Before(x, wide, i, h + 1) == Before(x, wide, i, h) + [Projected(x, wide[i], h)]
  {
    hide Flat;
    assert Entries(x, wide[i], h + 1) == Entries(x, wide[i], h) + [Projected(x, wide[i], h)];
  }

  lemma {:induction false} BeforeIsPrefix(x: Expected, wide: seq<Wide>, i: nat, h: nat)
    requires WellShaped(x, wide) && i < |wide| && h <= |x.horizons|
    ensures Before(x, wide, i, h) <= Flat(x, wide)
    decreases |wide| - i
  {
    hide Flat;
    assert Entries(x, wide[i], h) == Entries(x, wide[i], |x.horizons|)[..h];
    FlatStep(x, wide, i);
    if i + 1 < |wide| {
      BeforeIsPrefix(x, wide, i + 1, 0);
      assert Before(x, wide, i + 1, 0) == Flat(x, wide[..i + 1]);
    } else {
      assert wide[..i + 1] == wide;
    }
  }

  lemma {:induction false} MissingOfConcat(a: seq<Entry>, b: seq<Entry>)
    ensures MissingRows(a + b) == MissingRows(a) + MissingRows(b)
  {
    if b == [] {
      assert a + b == a;
    } else {
      assert (a + b)[..|a + b| - 1] == a + b[..|b| - 1];
      MissingOfConcat(a, b[..|b| - 1]);
    }
  }

  lemma MissingStep(entries: seq<Entry>, e: Entry)
    ensures MissingRows(entries + [e])
            == MissingRows(entries) + (if e.cell.status == "UNAVAILABLE" then [MissingOf(e)] else [])
  {
    assert (entries + [e])[..|entries|] == entries;
  }

  lemma MissingPrefix(a: seq<Entry>, b: seq<Entry>)
    requires a <= b
    ensures MissingRows(a) <= MissingRows(b)
  {
    hide MissingRows;
    assert b == a + b[|a|..];
    MissingOfConcat(a, b[|a|..]);
  }

  // ---------- refusals are justified ----------

  datatype Files = Files(wide: seq<Wide>, horizons: seq<seq<Entry>>, diagnostics: seq<Diagnostic>,
      missing: seq<Missing>)

  predicate Usable(x: Expected, f: Files) {
    WellShaped(x, f.wide) && |f.horizons| == |x.horizons|
  }

  ghost predicate AllReconciled(x: Expected, f: Files)
    requires Usable(x, f)
  {
    Reconciled(x, f.wide, f.horizons, f.diagnostics, f.missing)
  }

  /** Row i of horizon file h says what the wide file says. */
  predicate Matches(x: Expected, f: Files, i: nat, h: nat)
    requires Usable(x, f) && i < |f.wide| && h < |x.horizons|
  {
    i < |f.horizons[h]| && f.horizons[h][i] == Projected(x, f.wide[i], h)
  }

  /** The files agree with the wide file up to row i, horizon h; u rows of the unavailable list are used. */
  ghost predicate InStep(x: Expected, f: Files, i: nat, h: nat, u: nat)
    requires Usable(x, f) && i < |f.wide| && h <= |x.horizons|
  {
    var before := Before(x, f.wide, i, h);
    && |before| <= |f.diagnostics|
    && (forall k :: 0 <= k < |before| ==> f.diagnostics[k].entry == before[k] && Semantic(f.diagnostics[k]))
    && u <= |f.missing| && f.missing[..u] == MissingRows(before)
  }

  lemma DiagnosticRefused(x: Expected, f: Files, i: nat, h: nat, k: nat)
    requires Usable(x, f) && i < |f.wide| && h < |x.horizons| && k == |Before(x, f.wide, i, h)|
    requires k >= |f.diagnostics| || f.diagnostics[k].entry != Projected(x, f.wide[i], h) || !Semantic(f.diagnostics[k])
    ensures !AllReconciled(x, f)
  {
    hide Flat, Before, Semantic, MissingRows;
    BeforeStep(x, f.wide, i, h);
    BeforeIsPrefix(x, f.wide, i, h + 1);
    assert Before(x, f.wide, i, h + 1)[k] == Projected(x, f.wide[i], h);
  }

  lemma FileRefused(x: Expected, f: Files, i: nat, h: nat)
    requires Usable(x, f) && i < |f.wide| && h < |x.horizons|
    requires i >= |f.horizons[h]| || f.horizons[h][i] != Projected(x, f.wide[i], h)
    ensures !AllReconciled(x, f)
  {
    hide Flat, Semantic, MissingRows;
    assert !FileOk(x, f.wide, f.horizons[h], h);
  }

  lemma MissingRefused(x: Expected, f: Files, i: nat, h: nat, u: nat)
    requires Usable(x, f) && i < |f.wide| && h < |x.horizons|
    requires u <= |f.missing| && f.missing[..u] == MissingRows(Before(x, f.wide, i, h))
    requires Projected(x, f.wide[i], h).cell.status == "UNAVAILABLE"
    requires u >= |f.missing| || f.missing[u] != MissingOf(Projected(x, f.wide[i], h))
    ensures !AllReconciled(x, f)
  {
    hide Flat, Before, Semantic, MissingRows;
    BeforeStep(x, f.wide, i, h);
    BeforeIsPrefix(x, f.wide, i, h + 1);
    MissingStep(Before(x, f.wide, i, h), Projected(x, f.wide[i], h));
    MissingPrefix(Before(x, f.wide, i, h + 1), Flat(x, f.wide));
    assert MissingRows(Before(x, f.wide, i, h + 1))[u] == MissingOf(Projected(x, f.wide[i], h));
  }

  // ---------- the lockstep scan ----------

  /** `_validate_diagnostic_semantics`, check by check. */
  method CheckSemantics(d: Diagnostic) returns (ok: bool)
    ensures ok <==> Semantic(d)
  {
    if d.entry.cell.status != "VALID" {
      return true;
    }
    if d.long.passes && d.short.passes {
      return false;
    }
    var expected := "NO_DIRECTION";
    if d.long.passes {
      expected := "LONG_FAVORED";
    } else if d.short.passes {
      expected := "SHORT_FAVORED";
    }
    if d.entry.cell.cellLabel != Some(expected) {
      return false;
    }
    if d.long.predicate4 == d.long.opposing || d.short.predicate4 == d.short.opposing {
      return false;
    }
    ok := d.long.opposing == d.short.material && d.short.opposing == d.long.material;
  }

  /** The checks on one horizon of one wide row; answers the new position in the unavailable list. */
  method CheckHorizon(x: Expected, f: Files, i: nat, h: nat, d: nat, u: nat) returns (r: Result<nat, Mismatch>)
    requires Usable(x, f) && i < |f.wide| && h < |x.horizons|
    requires InStep(x, f, i, h, u) && d == |Before(x, f.wide, i, h)|
    ensures r.Success? ==> InStep(x, f, i, h + 1, r.value) && Matches(x, f, i, h)
    ensures r.Success? ==> |Before(x, f.wide, i, h + 1)| == d + 1
    ensures r.Failure? ==> !AllReconciled(x, f)
  {
    hide Flat, Before, Semantic, MissingRows, AllReconciled;
    var expected := Projected(x, f.wide[i], h);
    BeforeStep(x, f.wide, i, h);
    if i >= |f.horizons[h]| {
      FileRefused(x, f, i, h);
      return Failure(HorizonEnded);
    }
    if d >= |f.diagnostics| {
      DiagnosticRefused(x, f, i, h, d);
      return Failure(DiagnosticsEnded);
    }
    var row, diagnostic := f.horizons[h][i], f.diagnostics[d];
    if (row.symbol, row.physical, row.origin, row.horizon)
       != (expected.symbol, expected.physical, expected.origin, expected.horizon) {
      FileRefused(x, f, i, h);
      return Failure(HorizonKey);
    }
    var entry := diagnostic.entry;
    if (entry.symbol, entry.physical, entry.origin, entry.horizon)
       != (expected.symbol, expected.physical, expected.origin, expected.horizon) {
      DiagnosticRefused(x, f, i, h, d);
      return Failure(DiagnosticKey);
    }
    if row.cell != expected.cell {
      FileRefused(x, f, i, h);
      return Failure(HorizonValues);
    }
    if entry.cell != expected.cell {
      DiagnosticRefused(x, f, i, h, d);
      return Failure(DiagnosticValues);
    }
    var sound := CheckSemantics(diagnostic);
    if !sound {
      DiagnosticRefused(x, f, i, h, d);
      return Failure(DiagnosticSemantics);
    }
    MissingStep(Before(x, f.wide, i, h), expected);
    if expected.cell.status == "UNAVAILABLE" {
      if u >= |f.missing| {
        MissingRefused(x, f, i, h, u);
        return Failure(UnavailableEnded);
      }
      if f.missing[u] != MissingOf(expected) {
        MissingRefused(x, f, i, h, u);
        return Failure(UnavailableRow);
      }
      assert f.missing[..u + 1] == f.missing[..u] + [f.missing[u]];
      return Success(u + 1);
    }
    r := Success(u);
  }

  /** Rows before i are checked on every file. */
  ghost predicate RowsDone(x: Expected, f: Files, i: nat)
    requires Usable(x, f) && i <= |f.wide|
  {
    && (forall j :: 0 <= j < i ==> WideOk(x, f.wide, j))
    && (forall h, j :: 0 <= h < |x.horizons| && 0 <= j < i ==> Matches(x, f, j, h))
  }

  ghost predicate ReadSoFar(x: Expected, f: Files, i: nat, d: nat, u: nat)
    requires Usable(x, f) && i <= |f.wide|
  {
    var flat := Flat(x, f.wide[..i]);
    && d == |flat| <= |f.diagnostics|
    && (forall k :: 0 <= k < |flat| ==> f.diagnostics[k].entry == flat[k] && Semantic(f.diagnostics[k]))
    && u <= |f.missing| && f.missing[..u] == MissingRows(flat)
  }

  lemma StartRow(x: Expected, f: Files, i: nat, d: nat, u: nat)
    requires Usable(x, f) && i < |f.wide| && ReadSoFar(x, f, i, d, u)
    ensures InStep(x, f, i, 0, u) && d == |Before(x, f.wide, i, 0)|
  {
    hide Flat, Semantic, MissingRows;
    assert Before(x, f.wide, i, 0) == Flat(x, f.wide[..i]);
  }

  lemma EndRow(x: Expected, f: Files, i: nat, u: nat)
    requires Usable(x, f) && i < |f.wide| && InStep(x, f, i, |x.horizons|, u)
    ensures ReadSoFar(x, f, i + 1, |Before(x, f.wide, i, |x.horizons|)|, u)
  {
    hide Flat, Semantic, MissingRows;
    FlatStep(x, f.wide, i);
    assert Before(x, f.wide, i, |x.horizons|) == Flat(x, f.wide[..i + 1]);
  }

  /** All horizons of one wide row; answers the new positions in the diagnostics and in the unavailable list. */
  method CheckRow(x: Expected, f: Files, i: nat, d0: nat, u0: nat) returns (r: Result<(nat, nat), Mismatch>)
    requires Usable(x, f) && i < |f.wide| && ReadSoFar(x, f, i, d0, u0)
    ensures r.Success? ==> ReadSoFar(x, f, i + 1, r.value.0, r.value.1)
    ensures r.Success? ==> forall h :: 0 <= h < |x.horizons| ==> Matches(x, f, i, h)
    ensures r.Failure? ==> !AllReconciled(x, f)
  {
    hide Flat, Before, Semantic, MissingRows, AllReconciled, InStep, ReadSoFar;
    StartRow(x, f, i, d0, u0);
    var d, u := d0, u0;
    for h := 0 to |x.horizons|
      invariant InStep(x, f, i, h, u) && d == |Before(x, f.wide, i, h)|
      invariant forall k :: 0 <= k < h ==> Matches(x, f, i, k)
    {
      var checked := CheckHorizon(x, f, i, h, d, u);
      if checked.Failure? {
        return Failure(checked.error);
      }
      d, u := d + 1, checked.value;
    }
    EndRow(x, f, i, u);
    r := Success((d, u));
  }

  lemma WideRefused(x: Expected, f: Files, i: nat)
    requires Usable(x, f) && i < |f.wide| && !WideOk(x, f.wide, i)
    ensures !AllReconciled(x, f)
  {
    hide Flat, Semantic, MissingRows, KeyBefore;
  }

  lemma ReadAll(x: Expected, f: Files, d: nat, u: nat)
    requires Usable(x, f) && RowsDone(x, f, |f.wide|) && ReadSoFar(x, f, |f.wide|, d, u)
    ensures AllReconciled(x, f) <==>
              |f.wide| == x.total && u == |f.missing| && d == |f.diagnostics|
              && forall h :: 0 <= h < |x.horizons| ==> |f.horizons[h]| == |f.wide|
  {
    hide Flat, Semantic, MissingRows, WideOk;
    assert f.wide[..|f.wide|] == f.wide;
    assert f.missing[..|f.missing|] == f.missing;
    if |f.wide| == x.total && u == |f.missing| && d == |f.diagnostics|
       && forall h :: 0 <= h < |x.horizons| ==> |f.horizons[h]| == |f.wide| {
      forall h | 0 <= h < |f.horizons|
        ensures FileOk(x, f.wide, f.horizons[h], h)
      {
        forall i | 0 <= i < |f.wide|
          ensures f.horizons[h][i] == Projected(x, f.wide[i], h)
        {
          assert Matches(x, f, i, h);
        }
      }
    }
    if AllReconciled(x, f) {
      forall h | 0 <= h < |x.horizons|
        ensures |f.horizons[h]| == |f.wide|
      {
        assert FileOk(x, f.wide, f.horizons[h], h);
      }
    }
  }

  /** `_reconcile_outputs`: accepts exactly the outputs that are projections of the wide file with nothing left over. */
  method ReconcileOutputs(x: Expected, f: Files) returns (r: Result<nat, Mismatch>)
    requires Usable(x, f)
    ensures r.Success? <==> AllReconciled(x, f)
    ensures r.Success? ==> r.value == |f.wide|
  {
    hide Flat, Semantic, MissingRows, AllReconciled, ReadSoFar, KeyBefore;
    var previous: Option<Key> := None;
    var d: nat, u: nat := 0, 0;
    NothingRead(x, f);
    for i := 0 to |f.wide|
      invariant previous == if i == 0 then None else Some(WideKey(f.wide[i - 1]))
      invariant RowsDone(x, f, i) && ReadSoFar(x, f, i, d, u)
    {
      var wide := f.wide[i];
      if previous.Some? && !KeyBefore(previous.value, WideKey(wide)) {
        WideRefused(x, f, i);
        return Failure(WideNotSorted);
      }
      previous := Some(WideKey(wide));
      if wide.identity != x.identity {
        WideRefused(x, f, i);
        return Failure(WideIdentity);
      }
      if wide.calculation != x.calculation {
        WideRefused(x, f, i);
        return Failure(WideCalculation);
      }
      var checked := CheckRow(x, f, i, d, u);
      if checked.Failure? {
        return Failure(checked.error);
      }
      d, u := checked.value.0, checked.value.1;
    }
    ReadAll(x, f, d, u);
    if |f.wide| != x.total {
      return Failure(WideCount);
    }
    if u < |f.missing| {
      return Failure(UnavailableExtra);
    }
    for h := 0 to |x.horizons|
      invariant forall k :: 0 <= k < h ==> |f.horizons[k]| == |f.wide|
    {
      if |f.wide| < |f.horizons[h]| {
        return Failure(HorizonExtra);
      }
      FileReachesRows(x, f, h);
    }
    if d < |f.diagnostics| {
      return Failure(DiagnosticsExtra);
    }
    ReadBounds(x, f, d, u);
    r := Success(|f.wide|);
  }

  lemma NothingRead(x: Expected, f: Files)
    requires Usable(x, f)
    ensures RowsDone(x, f, 0) && ReadSoFar(x, f, 0, 0, 0)
  {
  }

  lemma FileReachesRows(x: Expected, f: Files, h: nat)
    requires Usable(x, f) && RowsDone(x, f, |f.wide|) && h < |x.horizons|
    ensures |f.horizons[h]| >= |f.wide|
  {
    hide WideOk;
    if |f.wide| > 0 {
      var last := |f.wide| - 1;
      assert Matches(x, f, last, h);
    }
  }

  lemma ReadBounds(x: Expected, f: Files, d: nat, u: nat)
    requires Usable(x, f) && ReadSoFar(x, f, |f.wide|, d, u)
    ensures d <= |f.diagnostics| && u <= |f.missing|
  {
  }

  // ---------- what an accepted reconciliation means ----------

  predicate IsUnavailable(e: Entry) {
    e.cell.status == "UNAVAILABLE"
  }

  /** The unavailable list holds the UNAVAILABLE entries of the wide file, in order, and only those. */
  lemma {:induction false} MissingRowsAreFiltered(entries: seq<Entry>)
    ensures |MissingRows(entries)| == |Filter(IsUnavailable, entries)|
    ensures forall k :: 0 <= k < |MissingRows(entries)| ==>
              var row, e := MissingRows(entries)[k], Filter(IsUnavailable, entries)[k];
              && e.cell.status == "UNAVAILABLE" == row.status && row.reasons == e.cell.reasons
              && row.symbol == e.symbol && row.physical == e.physical && row.origin == e.origin
              && row.horizon == e.horizon
  {
    if entries != [] {
      var earlier, last := entries[..|entries| - 1], entries[|entries| - 1];
      MissingRowsAreFiltered(earlier);
      assert entries == earlier + [last];
      FilterConcat(IsUnavailable, earlier, [last]);
      FilterCons(IsUnavailable, last, []);
      assert [last] + [] == [last];
      FilterMembers(IsUnavailable, entries);
    }
  }

  /** Accepted outputs determine the wide file's content: two wide files
      reconciled with the same horizon files agree. */
  lemma HorizonFilesDetermineTheWideFile(x: Expected, f: Files, g: Files)
    requires Usable(x, f) && Usable(x, g) && AllReconciled(x, f) && AllReconciled(x, g)
    requires f.horizons == g.horizons && |x.horizons| > 0
    ensures f.wide == g.wide && f.missing == g.missing
  {
    hide Flat, Semantic, MissingRows;
    forall i | 0 <= i < |f.wide|
      ensures f.wide[i] == g.wide[i]
    {
      forall h | 0 <= h < |x.horizons|
        ensures f.wide[i].cells[h] == g.wide[i].cells[h] && f.wide[i].symbol == g.wide[i].symbol
                && f.wide[i].physical == g.wide[i].physical && f.wide[i].origin == g.wide[i].origin
      {
        assert FileOk(x, f.wide, f.horizons[h], h) && FileOk(x, g.wide, g.horizons[h], h);
        assert f.horizons[h][i] == Projected(x, f.wide[i], h) && g.horizons[h][i] == Projected(x, g.wide[i], h);
      }
      assert WideOk(x, f.wide, i) && WideOk(x, g.wide, i);
      assert f.wide[i].cells == g.wide[i].cells;
    }
    assert FileOk(x, f.wide, f.horizons[0], 0) && FileOk(x, g.wide, g.horizons[0], 0);
    assert f.wide == g.wide;
  }
}
