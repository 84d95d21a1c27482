/** The streaming check of one horizon's label file: keys on the full
    symbol-by-origin grid, rows well formed, counts as expected. */
module HorizonFile {
  import opened Prelude
  import opened Sorting
  import opened TextOrder
  import opened Totals

  datatype Row = Row(
    symbol: string, physical: string, origin: string, horizon: int, rowLabel: Option<string>, status: string,
    reasons: string, identity: seq<string>, calculation: string)

  /** What the file is checked against. `grid` holds the origins of one symbol in order. */
  datatype Setup = Setup(
    symbols: seq<string>, logical: map<string, string>, grid: seq<string>, total: int, labels: set<string>,
    identity: seq<string>, calculation: string, expectedCounts: map<string, int>)

  datatype Fault =
    | NotSorted | UnsupportedSymbol | LogicalMismatch | ExcessOrigins | GridMismatch | HorizonMismatch | InvalidLabel
    | ValidWithReasons | UnavailableWithLabel | ReasonMissing | IdentityMismatch | CalculationMismatch
    | RowCount | Population | ConformanceCounts

  datatype Key = Key(physical: string, origin: string)

  predicate KeyBefore(a: Key, b: Key) {
    TextLess(a.physical, b.physical) || (a.physical == b.physical && TextLess(a.origin, b.origin))
  }

  const BY_KEY: (Key, Key) -> bool := KeyBefore

  lemma ByKeyIsWeakOrder()
    ensures WeakOrder(BY_KEY)
    ensures forall a: Key, b: Key, c: Key :: BY_KEY(a, b) && BY_KEY(b, c) ==> BY_KEY(a, c)
  {
    hide TextLess;
    forall a: Key, b: Key | BY_KEY(a, b)
      ensures !BY_KEY(b, a)
    {
      KeyAsymmetric(a, b);
    }
    forall a: Key, b: Key, c: Key | !BY_KEY(a, b) && !BY_KEY(b, c)
      ensures !BY_KEY(a, c)
    {
      KeyNegativelyTransitive(a, b, c);
    }
    forall a: Key, b: Key, c: Key | BY_KEY(a, b) && BY_KEY(b, c)
      ensures BY_KEY(a, c)
    {
      KeyTransitive(a, b, c);
    }
  }

  lemma KeyAsymmetric(a: Key, b: Key)
    requires BY_KEY(a, b)
    ensures !BY_KEY(b, a)
  {
    hide TextLess;
    if TextLess(a.physical, b.physical) {
      TextLessAsymmetric(a.physical, b.physical);
      TextLessIrreflexive(a.physical);
    } else {
      TextLessIrreflexive(a.physical);
      TextLessAsymmetric(a.origin, b.origin);
    }
  }

  lemma KeyNegativelyTransitive(a: Key, b: Key, c: Key)
    requires !BY_KEY(a, b) && !BY_KEY(b, c)
    ensures !BY_KEY(a, c)
  {
    hide TextLess;
    NotTextLessTransitive(a.physical, b.physical, c.physical);
    TextLessTotal(a.physical, b.physical);
    TextLessTotal(b.physical, c.physical);
    if a.physical == c.physical {
      if a.physical != b.physical {
        TextLessAsymmetric(b.physical, a.physical);
      } else {
        NotTextLessTransitive(a.origin, b.origin, c.origin);
      }
    }
  }

  lemma KeyTransitive(a: Key, b: Key, c: Key)
    requires BY_KEY(a, b) && BY_KEY(b, c)
    ensures BY_KEY(a, c)
  {
    hide TextLess;
    if TextLess(a.physical, b.physical) && TextLess(b.physical, c.physical) {
      TextLessTransitive(a.physical, b.physical, c.physical);
    }
    if TextLess(a.origin, b.origin) && TextLess(b.origin, c.origin) {
      TextLessTransitive(a.origin, b.origin, c.origin);
    }
  }

  // ---------- the full grid ----------

  function Block(symbol: string, grid: seq<string>): (keys: seq<Key>)
    ensures |keys| == |grid| && forall p :: 0 <= p < |grid| ==> keys[p] == Key(symbol, grid[p])
  {
    seq(|grid|, p requires 0 <= p < |grid| => Key(symbol, grid[p]))
  }

  /** The sorted symbols crossed with the origin grid, in order. */
  function Product(symbols: seq<string>, grid: seq<string>): seq<Key> {
    if symbols == [] then [] else Block(symbols[0], grid) + Product(symbols[1..], grid)
  }

  function CountKeys(keys: seq<Key>, physical: string): nat {
    if keys == [] then 0
    else CountKeys(keys[..|keys| - 1], physical) + if keys[|keys| - 1].physical == physical then 1 else 0
  }

  const BY_TEXT: (string, string) -> bool := TextLess

  ghost predicate Ordered(s: Setup) {
    s.symbols != [] && StrictlySorted(BY_TEXT, s.symbols) && StrictlySorted(BY_TEXT, s.grid)
    && |s.grid| == s.total / |s.symbols| && s.total >= 0 && forall x :: x in s.symbols ==> x in s.logical
  }

  lemma {:induction false} CountOfConcat(a: seq<Key>, b: seq<Key>, physical: string)
    ensures CountKeys(a + b, physical) == CountKeys(a, physical) + CountKeys(b, physical)
  {
    if b == [] {
      assert a + b == a;
    } else {
      assert (a + b)[..|a + b| - 1] == a + b[..|b| - 1];
      CountOfConcat(a, b[..|b| - 1], physical);
    }
  }

  lemma {:induction false} CountUniform(keys: seq<Key>, physical: string, symbol: string)
    requires forall i :: 0 <= i < |keys| ==> keys[i].physical == symbol
    ensures CountKeys(keys, physical) == if symbol == physical then |keys| else 0
  {
    if keys != [] {
      CountUniform(keys[..|keys| - 1], physical, symbol);
    }
  }

  lemma {:induction false} ProductMembers(symbols: seq<string>, grid: seq<string>, key: Key)
    ensures key in Product(symbols, grid) <==> key.physical in symbols && key.origin in grid
  {
    if symbols != [] {
      ProductMembers(symbols[1..], grid, key);
      assert symbols == [symbols[0]] + symbols[1..];
      BlockMembers(symbols[0], grid, key);
    }
  }

  lemma BlockMembers(symbol: string, grid: seq<string>, key: Key)
    ensures key in Block(symbol, grid) <==> key.physical == symbol && key.origin in grid
  {
    if key.physical == symbol && key.origin in grid {
      var p :| 0 <= p < |grid| && grid[p] == key.origin;
      assert Block(symbol, grid)[p] == key;
    }
  }

  lemma RestIsSorted(symbols: seq<string>)
    requires symbols != [] && StrictlySorted(BY_TEXT, symbols)
    ensures StrictlySorted(BY_TEXT, symbols[1..])
  {
    hide TextLess;
    var rest := symbols[1..];
    forall i, j | 0 <= i < j < |rest|
      ensures BY_TEXT(rest[i], rest[j])
    {
      assert BY_TEXT(symbols[i + 1], symbols[j + 1]);
    }
  }

  lemma {:induction false} ProductIsSorted(symbols: seq<string>, grid: seq<string>)
    requires StrictlySorted(BY_TEXT, symbols) && StrictlySorted(BY_TEXT, grid)
    ensures StrictlySorted(BY_KEY, Product(symbols, grid))
  {
    hide TextLess;
    if symbols != [] {
      var first, rest := Block(symbols[0], grid), Product(symbols[1..], grid);
      RestIsSorted(symbols);
      ProductIsSorted(symbols[1..], grid);
      forall i, j | 0 <= i < j < |first + rest|
        ensures BY_KEY((first + rest)[i], (first + rest)[j])
      {
        if j < |first| {
          assert BY_TEXT(grid[i], grid[j]);
        } else if i < |first| {
          var later := rest[j - |first|];
          assert later in rest;
          ProductMembers(symbols[1..], grid, later);
          var k :| 0 <= k < |symbols[1..]| && symbols[1..][k] == later.physical;
          assert BY_TEXT(symbols[0], symbols[k + 1]);
        }
      }
    }
  }

  /** In the full grid, the key at index i has as origin the one numbered by the earlier keys of its symbol. */
  lemma {:induction false} PositionInProduct(symbols: seq<string>, grid: seq<string>, i: nat)
    requires StrictlySorted(BY_TEXT, symbols) && i < |Product(symbols, grid)|
    ensures var keys := Product(symbols, grid);
            var p := CountKeys(keys[..i], keys[i].physical);
            keys[i].physical in symbols && p < |grid| && keys[i].origin == grid[p]
  {
    hide TextLess, CountKeys;
    var keys, first, rest := Product(symbols, grid), Block(symbols[0], grid), Product(symbols[1..], grid);
    assert symbols == [symbols[0]] + symbols[1..];
    if i < |grid| {
      CountUniform(keys[..i], symbols[0], symbols[0]);
    } else {
      var j := i - |grid|;
      RestIsSorted(symbols);
      PositionInProduct(symbols[1..], grid, j);
      assert keys[..i] == first + rest[..j];
      CountOfConcat(first, rest[..j], keys[i].physical);
      CountUniform(first, keys[i].physical, symbols[0]);
      LaterSymbolsDiffer(symbols, keys[i].physical);
    }
  }

  lemma LaterSymbolsDiffer(symbols: seq<string>, symbol: string)
    requires symbols != [] && StrictlySorted(BY_TEXT, symbols) && symbol in symbols[1..]
    ensures symbol != symbols[0]
  {
    hide TextLess;
    var k :| 0 <= k < |symbols[1..]| && symbols[1..][k] == symbol;
    assert BY_TEXT(symbols[0], symbols[k + 1]);
    TextLessIrreflexive(symbols[0]);
  }

  lemma {:induction false} ProductCounts(symbols: seq<string>, grid: seq<string>, symbol: string)
    requires StrictlySorted(BY_TEXT, symbols)
    ensures CountKeys(Product(symbols, grid), symbol) == if symbol in symbols then |grid| else 0
    ensures |Product(symbols, grid)| == |symbols| * |grid|
  {
    hide TextLess, CountKeys;
    if symbols == [] {
      NoKeys(symbol);
    } else {
      assert symbols == [symbols[0]] + symbols[1..];
      RestIsSorted(symbols);
      ProductCounts(symbols[1..], grid, symbol);
      CountOfConcat(Block(symbols[0], grid), Product(symbols[1..], grid), symbol);
      CountUniform(Block(symbols[0], grid), symbol, symbols[0]);
      if symbol in symbols[1..] {
        LaterSymbolsDiffer(symbols, symbol);
      }
      OneMoreBlock(|symbols|, |grid|);
    }
  }

  lemma OneMoreBlock(n: nat, size: nat)
    requires n >= 1
    ensures size + (n - 1) * size == n * size
  {
  }

  lemma NoKeys(symbol: string)
    ensures CountKeys([], symbol) == 0
  {
  }

  // ---------- what the scan checks of the keys ----------

  function KeyOf(r: Row): Key {
    Key(r.physical, r.origin)
  }

  function Keys(rows: seq<Row>): (keys: seq<Key>)
    ensures |keys| == |rows| && forall i :: 0 <= i < |rows| ==> keys[i] == KeyOf(rows[i])
  {
    seq(|rows|, i requires 0 <= i < |rows| => KeyOf(rows[i]))
  }

  /** The checks on the key at index i, given the keys before it. */
  ghost predicate KeyOk(s: Setup, keys: seq<Key>, i: nat)
    requires i < |keys|
  {
    && (i > 0 ==> BY_KEY(keys[i - 1], keys[i]))
    && keys[i].physical in s.symbols
    && var p := CountKeys(keys[..i], keys[i].physical); p < |s.grid| && keys[i].origin == s.grid[p]
  }

  ghost predicate KeysOk(s: Setup, keys: seq<Key>) {
    && (forall i :: 0 <= i < |keys| ==> KeyOk(s, keys, i))
    && |keys| == s.total
    && forall x :: x in s.symbols ==> CountKeys(keys, x) == |s.grid| && CountKeys(keys, x) > 0
  }

  lemma {:induction false} AdjacentIsSorted(s: Setup, keys: seq<Key>, n: nat)
    requires n <= |keys| && forall i :: 0 <= i < |keys| ==> KeyOk(s, keys, i)
    ensures StrictlySorted(BY_KEY, keys[..n])
  {
    hide CountKeys, KeyBefore;
    ByKeyIsWeakOrder();
    if n > 0 {
      AdjacentIsSorted(s, keys, n - 1);
      assert KeyOk(s, keys, n - 1);
      forall i, j | 0 <= i < j < n
        ensures BY_KEY(keys[i], keys[j])
      {
        if j == n - 1 && i < n - 2 {
          assert BY_KEY(keys[..n - 1][i], keys[..n - 1][n - 2]);
        } else if j < n - 1 {
          assert BY_KEY(keys[..n - 1][i], keys[..n - 1][j]);
        }
      }
    }
  }

  /** Every number below the final count is the position of some key of the symbol. */
  lemma {:induction false} PositionReached(keys: seq<Key>, physical: string, p: nat) returns (i: nat)
    requires p < CountKeys(keys, physical)
    ensures i < |keys| && keys[i].physical == physical && CountKeys(keys[..i], physical) == p
  {
    var n := |keys| - 1;
    if CountKeys(keys[..n], physical) == p {
      i := n;
    } else {
      i := PositionReached(keys[..n], physical, p);
      assert keys[..n][..i] == keys[..i];
    }
  }

  lemma KeysOkMembers(s: Setup, keys: seq<Key>, key: Key)
    requires KeysOk(s, keys)
    ensures key in keys <==> key in Product(s.symbols, s.grid)
  {
    hide CountKeys, KeyBefore;
    ProductMembers(s.symbols, s.grid, key);
    if key in keys {
      var i :| 0 <= i < |keys| && keys[i] == key;
      assert KeyOk(s, keys, i);
    }
    if key.physical in s.symbols && key.origin in s.grid {
      var p :| 0 <= p < |s.grid| && s.grid[p] == key.origin;
      var i := PositionReached(keys, key.physical, p);
      assert KeyOk(s, keys, i);
      assert keys[i] == key;
    }
  }

  /** The local checks accept exactly the full grid in order, when there is at least one origin per symbol. */
  lemma KeysOkIffProduct(s: Setup, keys: seq<Key>)
    requires Ordered(s)
    ensures KeysOk(s, keys) <==> keys == Product(s.symbols, s.grid) && |keys| == s.total && |s.grid| > 0
  {
    hide CountKeys, KeyBefore, TextLess, Product;
    var all := Product(s.symbols, s.grid);
    ProductIsSorted(s.symbols, s.grid);
    ByKeyIsWeakOrder();
    if KeysOk(s, keys) {
      AdjacentIsSorted(s, keys, |keys|);
      assert keys[..|keys|] == keys;
      forall key
        ensures key in keys <==> key in all
      {
        KeysOkMembers(s, keys, key);
      }
      StrictlySortedIsUnique(BY_KEY, keys, all);
      assert s.symbols[0] in s.symbols;
    }
    if keys == all && |keys| == s.total && |s.grid| > 0 {
      forall i | 0 <= i < |keys|
        ensures KeyOk(s, keys, i)
      {
        PositionInProduct(s.symbols, s.grid, i);
        assert i > 0 ==> BY_KEY(keys[i - 1], keys[i]);
      }
      forall x | x in s.symbols
        ensures CountKeys(keys, x) == |s.grid|
      {
        ProductCounts(s.symbols, s.grid, x);
      }
    }
  }

  // ---------- rows and counts ----------

  /** The checks on one row that do not depend on other rows. */
  predicate RowOk(s: Setup, r: Row, horizon: int) {
    && r.physical in s.logical && r.symbol == s.logical[r.physical]
    && r.horizon == horizon
    && (if r.status == "VALID" then r.rowLabel.Some? && r.rowLabel.value in s.labels && r.reasons == "[]"
        else r.status == "UNAVAILABLE" && r.rowLabel.None? && r.reasons != "[]")
    && r.identity == s.identity && r.calculation == s.calculation
  }

  function Bump(m: map<string, int>, key: string): map<string, int> {
    m[key := IntGet(m, key) + 1]
  }

  function TallyRow(m: map<string, int>, r: Row): map<string, int> {
    if r.status == "VALID" then Bump(Bump(m, "VALID"), r.rowLabel.GetOr("")) else Bump(m, "UNAVAILABLE")
  }

  /** The counter after the rows. */
  function Tally(rows: seq<Row>): map<string, int> {
    if rows == [] then map[] else TallyRow(Tally(rows[..|rows| - 1]), rows[|rows| - 1])
  }

  /** The file is exactly the full grid in order, every row is well formed, and the counts are the expected ones. */
  ghost predicate Accepted(s: Setup, rows: seq<Row>, horizon: int) {
    && Keys(rows) == Product(s.symbols, s.grid) && |rows| == s.total && |s.grid| > 0
    && (forall i :: 0 <= i < |rows| ==> RowOk(s, rows[i], horizon))
    && Tally(rows) == s.expectedCounts
  }

  predicate Falls(r: Row, key: string) {
    r.status == key || (r.status == "VALID" && r.rowLabel == Some(key))
  }

  function CountFalls(rows: seq<Row>, key: string): nat {
    if rows == [] then 0
    else CountFalls(rows[..|rows| - 1], key) + if Falls(rows[|rows| - 1], key) then 1 else 0
  }

  /** The counter holds, under each key, the number of rows with that status or label, and no other entries. */
  lemma {:induction false} TallyIsCount(s: Setup, rows: seq<Row>, horizon: int, key: string)
    requires forall r :: r in rows ==> RowOk(s, r, horizon)
    requires "VALID" !in s.labels && "UNAVAILABLE" !in s.labels
    ensures IntGet(Tally(rows), key) == CountFalls(rows, key)
    ensures key in Tally(rows) <==> CountFalls(rows, key) > 0
  {
    if rows != [] {
      var earlier, last := rows[..|rows| - 1], rows[|rows| - 1];
      assert rows == earlier + [last];
      assert last in rows;
      TallyIsCount(s, earlier, horizon, key);
    }
  }

  // ---------- the scan ----------

  /** One row's checks, in the order the validator makes them; None when the row passes. */
  method CheckRow(s: Setup, previous: Option<Key>, position: int, row: Row, horizon: int) returns (fault: Option<Fault>)
    requires position >= 0 && forall x :: x in s.symbols ==> x in s.logical
    ensures fault.None? <==>
              (previous.Some? ==> BY_KEY(previous.value, KeyOf(row))) && row.physical in s.symbols
              && position < |s.grid| && row.origin == s.grid[position] && RowOk(s, row, horizon)
  {
    hide KeyBefore;
    var key := KeyOf(row);
    if previous.Some? && !BY_KEY(previous.value, key) {
      return Some(NotSorted);
    }
    if row.physical !in s.symbols {
      return Some(UnsupportedSymbol);
    }
    if row.symbol != s.logical[row.physical] {
      return Some(LogicalMismatch);
    }
    if position >= |s.grid| {
      return Some(ExcessOrigins);
    }
    if row.origin != s.grid[position] {
      return Some(GridMismatch);
    }
    if row.horizon != horizon {
      return Some(HorizonMismatch);
    }
    if row.status == "VALID" {
      if row.rowLabel.None? || row.rowLabel.value !in s.labels {
        return Some(InvalidLabel);
      }
      if row.reasons != "[]" {
        return Some(ValidWithReasons);
      }
    } else {
      if row.status != "UNAVAILABLE" || row.rowLabel.Some? {
        return Some(UnavailableWithLabel);
      }
      if row.reasons == "[]" {
        return Some(ReasonMissing);
      }
    }
    if row.identity != s.identity {
      return Some(IdentityMismatch);
    }
    if row.calculation != s.calculation {
      return Some(CalculationMismatch);
    }
    fault := None;
  }

  datatype Report = Report(counts: map<string, int>, symbolCounts: map<string, map<string, int>>, rows: int)

  function RowsOf(rows: seq<Row>, physical: string): seq<Row> {
    Filter((r: Row) => r.physical == physical, rows)
  }

  function SymbolCounts(m: map<string, map<string, int>>, physical: string): map<string, int> {
    if physical in m then m[physical] else map[]
  }

  lemma RowsOfStep(rows: seq<Row>, i: nat, physical: string)
    requires i < |rows|
    ensures Tally(RowsOf(rows[..i + 1], physical))
            == if rows[i].physical == physical then TallyRow(Tally(RowsOf(rows[..i], physical)), rows[i])
              else Tally(RowsOf(rows[..i], physical))
  {
    hide TallyRow;
    var keep := (r: Row) => r.physical == physical;
    assert rows[..i + 1] == rows[..i] + [rows[i]];
    FilterConcat(keep, rows[..i], [rows[i]]);
    FilterCons(keep, rows[i], []);
    var before := RowsOf(rows[..i], physical);
    if rows[i].physical == physical {
      assert RowsOf(rows[..i + 1], physical) == before + [rows[i]];
      assert (before + [rows[i]])[..|before|] == before;
    } else {
      assert RowsOf(rows[..i + 1], physical) == before;
    }
  }

  lemma TallyStep(rows: seq<Row>, i: nat)
    requires i < |rows|
    ensures Tally(rows[..i + 1]) == TallyRow(Tally(rows[..i]), rows[i])
  {
    hide TallyRow;
    assert rows[..i + 1][..i] == rows[..i];
  }

  lemma CountStep(rows: seq<Row>, i: nat, physical: string)
    requires i < |rows|
    ensures CountKeys(Keys(rows[..i + 1]), physical)
            == CountKeys(Keys(rows[..i]), physical) + if rows[i].physical == physical then 1 else 0
    ensures Keys(rows)[..i] == Keys(rows[..i]) && CountKeys(Keys(rows[..i]), physical) >= 0
  {
    assert Keys(rows[..i + 1])[..i] == Keys(rows[..i]);
  }

  /** The counters and positions after the first i rows, all of which passed. */
  ghost predicate Scanned(s: Setup, rows: seq<Row>, i: nat, horizon: int, positions: map<string, int>,
      counts: map<string, int>, symbolCounts: map<string, map<string, int>>)
    requires i <= |rows|
  {
    && counts == Tally(rows[..i])
    && (forall x :: IntGet(positions, x) == CountKeys(Keys(rows[..i]), x))
    && (forall x :: x in positions <==> IntGet(positions, x) > 0)
    && (forall x :: SymbolCounts(symbolCounts, x) == Tally(RowsOf(rows[..i], x)))
    && forall j :: 0 <= j < i ==> KeyOk(s, Keys(rows), j) && RowOk(s, rows[j], horizon)
  }

  lemma ScanStarts(s: Setup, rows: seq<Row>, horizon: int)
    ensures Scanned(s, rows, 0, horizon, map[], map[], map[])
  {
    NothingScanned();
    assert rows[..0] == [];
  }

  lemma ScanStep(s: Setup, rows: seq<Row>, i: nat, horizon: int, positions: map<string, int>, counts: map<string, int>,
        symbolCounts: map<string, map<string, int>>)
    requires i < |rows| && Scanned(s, rows, i, horizon, positions, counts, symbolCounts)
    requires KeyOk(s, Keys(rows), i) && RowOk(s, rows[i], horizon)
    ensures var x := rows[i].physical;
            Scanned(s, rows, i + 1, horizon, positions[x := IntGet(positions, x) + 1], TallyRow(counts, rows[i]),
                    symbolCounts[x := TallyRow(SymbolCounts(symbolCounts, x), rows[i])])
  {
    hide CountKeys, Keys, KeyOk, RowOk, TallyRow, RowsOf, Tally;
    TallyStep(rows, i);
    var more := positions[rows[i].physical := IntGet(positions, rows[i].physical) + 1];
    var physical := rows[i].physical;
    var tallies := symbolCounts[physical := TallyRow(SymbolCounts(symbolCounts, physical), rows[i])];
    forall x
      ensures IntGet(more, x) == CountKeys(Keys(rows[..i + 1]), x)
      ensures x in more <==> IntGet(more, x) > 0
      ensures SymbolCounts(tallies, x) == Tally(RowsOf(rows[..i + 1], x))
    {
      CountStep(rows, i, x);
      RowsOfStep(rows, i, x);
      assert SymbolCounts(symbolCounts, x) == Tally(RowsOf(rows[..i], x));
    }
  }

  lemma ScanEnds(s: Setup, rows: seq<Row>, horizon: int, positions: map<string, int>, counts: map<string, int>,
        symbolCounts: map<string, map<string, int>>)
    requires Ordered(s) && Scanned(s, rows, |rows|, horizon, positions, counts, symbolCounts)
    ensures counts == Tally(rows) && forall x :: SymbolCounts(symbolCounts, x) == Tally(RowsOf(rows, x))
    ensures Accepted(s, rows, horizon) <==>
              |rows| == s.total && positions.Keys == (set x | x in s.symbols)
              && (forall x :: x in s.symbols ==> x in positions && positions[x] == |s.grid|)
              && counts == s.expectedCounts
  {
    hide CountKeys, KeyOk, RowOk, RowsOf, Tally, Product, KeysOk;
    assert rows[..|rows|] == rows;
    KeysOkIffProduct(s, Keys(rows));
    FinalVerdict(s, rows, positions);
  }

  lemma ScanRefuses(s: Setup, rows: seq<Row>, i: nat, horizon: int)
    requires Ordered(s) && i < |rows| && !(KeyOk(s, Keys(rows), i) && RowOk(s, rows[i], horizon))
    ensures !Accepted(s, rows, horizon)
  {
    hide CountKeys, KeyOk, RowOk, Tally, Product;
    KeysOkIffProduct(s, Keys(rows));
  }

  /** `_validate_horizon_file`: accepts exactly the files that are the
      full grid, well formed, with the expected counts. */
  method ValidateHorizonFile(s: Setup, rows: seq<Row>, horizon: int) returns (r: Result<Report, Fault>)
    requires Ordered(s)
    ensures r.Success? <==> Accepted(s, rows, horizon)
    ensures r.Success? ==> r.value.counts == Tally(rows) && r.value.rows == |rows|
    ensures r.Success? ==> forall x :: x in s.symbols ==>
            SymbolCounts(r.value.symbolCounts, x) == Tally(RowsOf(rows, x))
  {
    hide CountKeys, KeyBefore, KeyOk, RowOk, TallyRow, Scanned, Accepted, Ordered, SymbolCounts, Tally, RowsOf;
    SymbolsAreLogical(s);
    var counts: map<string, int>, positions: map<string, int> := map[], map[];
    var symbolCounts: map<string, map<string, int>> := map[];
    var previous: Option<Key> := None;
    var count := 0;
    ScanStarts(s, rows, horizon);
    for i := 0 to |rows|
      invariant count == i && previous == if i == 0 then None else Some(KeyOf(rows[i - 1]))
      invariant Scanned(s, rows, i, horizon, positions, counts, symbolCounts)
    {
      var row := rows[i];
      PositionIsCount(s, rows, i, horizon, positions, counts, symbolCounts);
      var position := IntGet(positions, row.physical);
      var fault := CheckRow(s, previous, position, row, horizon);
      RowVerdict(s, rows, i, previous, position, horizon);
      if fault.Some? {
        ScanRefuses(s, rows, i, horizon);
        return Failure(fault.value);
      }
      ScanStep(s, rows, i, horizon, positions, counts, symbolCounts);
      previous := Some(KeyOf(row));
      positions := positions[row.physical := position + 1];
      counts := TallyRow(counts, row);
      symbolCounts := symbolCounts[row.physical := TallyRow(SymbolCounts(symbolCounts, row.physical), row)];
      count := count + 1;
    }
    ScanEnds(s, rows, horizon, positions, counts, symbolCounts);
    if count != s.total {
      return Failure(RowCount);
    }
    if positions.Keys != set x | x in s.symbols {
      return Failure(Population);
    }
    if exists x | x in s.symbols :: positions[x] != |s.grid| {
      return Failure(Population);
    }
    if counts != s.expectedCounts {
      return Failure(ConformanceCounts);
    }
    r := Success(Report(counts, symbolCounts, count));
  }

  lemma PositionIsCount(s: Setup, rows: seq<Row>, i: nat, horizon: int, positions: map<string, int>,
      counts: map<string, int>, symbolCounts: map<string, map<string, int>>)
    requires i < |rows| && Scanned(s, rows, i, horizon, positions, counts, symbolCounts)
    ensures IntGet(positions, rows[i].physical) == CountKeys(Keys(rows[..i]), rows[i].physical)
  {
  }

  lemma SymbolsAreLogical(s: Setup)
    requires Ordered(s)
    ensures forall x :: x in s.symbols ==> x in s.logical
  {
  }

  lemma NothingScanned()
    ensures forall x :: CountKeys(Keys([]), x) == 0 && Tally(RowsOf([], x)) == map[]
  {
  }

  /** The local check of row i is the spec's, once position and previous are what the loop keeps. */
  lemma RowVerdict(s: Setup, rows: seq<Row>, i: nat, previous: Option<Key>, position: int, horizon: int)
    requires i < |rows| && previous == if i == 0 then None else Some(KeyOf(rows[i - 1]))
    requires position == CountKeys(Keys(rows[..i]), rows[i].physical)
    ensures KeyOk(s, Keys(rows), i) <==>
              (previous.Some? ==> BY_KEY(previous.value, KeyOf(rows[i]))) && rows[i].physical in s.symbols
              && position < |s.grid| && rows[i].origin == s.grid[position]
  {
    hide CountKeys, KeyBefore;
    CountStep(rows, i, rows[i].physical);
  }

  lemma FinalVerdict(s: Setup, rows: seq<Row>, positions: map<string, int>)
    requires forall x :: IntGet(positions, x) == CountKeys(Keys(rows), x)
    requires forall x :: x in positions <==> IntGet(positions, x) > 0
    requires forall j :: 0 <= j < |rows| ==> KeyOk(s, Keys(rows), j)
    ensures KeysOk(s, Keys(rows)) <==>
              |rows| == s.total && positions.Keys == (set x | x in s.symbols)
              && forall x :: x in s.symbols ==> x in positions && positions[x] == |s.grid|
  {
    hide CountKeys, KeyBefore;
    forall x | x in positions
      ensures x in s.symbols
    {
      var i := PositionReached(Keys(rows), x, 0);
      assert KeyOk(s, Keys(rows), i);
    }
  }
}
