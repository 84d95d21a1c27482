/** Raw-trade pages merged into one conflict-free trade population, and the aggressive volume delta over it. */
module RawTradeMerge {
  import opened Prelude
  import opened Sorting
  import opened TextOrder
  import opened Rationals

  datatype Side = Buy | Sell

  datatype SourceIdentity = SourceIdentity(logical: string, instrument: string, revision: string, manifest: string)

  /** The faults are what the checks that look at one page alone found, if anything. */
  datatype Header = Header(
    pageFault: Option<string>, pageId: string, snapshotId: string, pageIndex: string, selectionDigest: string,
    payloadFault: Option<string>, endpoint: string, identity: SourceIdentity, dataFault: Option<string>,
    coverage: string)

  /** A row as received; None stands for a field that does not parse. */
  datatype Row = NotAMapping | Row(
    tradeId: string, occurredAt: Option<int>, takerSide: Option<Side>,
    price: Option<Fraction>, quantity: Option<Fraction>, notional: Option<Fraction>)

  datatype Page = Page(header: Header, rows: seq<Row>)

  datatype Trade = Trade(tradeId: string, occurredAt: int, side: Side, price: Fraction, quantity: Fraction,
      notional: Fraction)

  datatype Source = Source(tradeId: string, pageId: string, snapshotId: string, endpoint: string)

  datatype Entry = Entry(trade: Trade, source: Source)

  datatype Sourced = Sourced(trade: Trade, sources: seq<Source>)

  datatype PageSource = PageSource(
    pageId: string, pageIndex: string, selectionDigest: string, snapshotId: string, endpoint: string, coverage: string)

  datatype Merge = Merge(trades: seq<Trade>, population: seq<Sourced>, pages: seq<PageSource>, identity: SourceIdentity)

  datatype Reason =
    | MissingRawTrades | Fault(text: string) | DuplicatePageId | SelectionDigestMissing | PageSetInconsistent
    | RowMalformed | RowOutOfInterval | TakerSideUnavailable | DuplicateConflict

  type Parsed = Result<Entry, Reason>

  datatype Interval = Interval(from: int, until: int)

  predicate Positive(x: Option<Fraction>) {
    x.Some? && x.value.num > 0
  }

  function ParseRow(row: Row, header: Header, interval: Interval): Parsed {
    if row.NotAMapping? || row.tradeId == "" || row.occurredAt.None? then Failure(RowMalformed)
    else if !(interval.from <= row.occurredAt.value < interval.until) then Failure(RowOutOfInterval)
    else if row.takerSide.None? then Failure(TakerSideUnavailable)
    else if !Positive(row.price) || !Positive(row.quantity) || !Positive(row.notional) then Failure(RowMalformed)
    else Success(Entry(
      Trade(row.tradeId, row.occurredAt.value, row.takerSide.value, row.price.value, row.quantity.value,
            row.notional.value),
      Source(row.tradeId, header.pageId, header.snapshotId, header.endpoint)))
  }

  // ---------- orders ----------

  predicate KeysLess(a: seq<string>, b: seq<string>) {
    b != [] && (a == [] || TextLess(a[0], b[0]) || (a[0] == b[0] && KeysLess(a[1..], b[1..])))
  }

  lemma {:induction false} KeysLessAsymmetric(a: seq<string>, b: seq<string>)
    requires KeysLess(a, b)
    ensures !KeysLess(b, a)
  {
    hide TextLess;
    if a != [] {
      TextLessIrreflexive(a[0]);
      if TextLess(a[0], b[0]) {
        TextLessAsymmetric(a[0], b[0]);
      } else {
        KeysLessAsymmetric(a[1..], b[1..]);
      }
    }
  }

  lemma {:induction false} NotKeysLessTransitive(a: seq<string>, b: seq<string>, c: seq<string>)
    requires !KeysLess(a, b) && !KeysLess(b, c)
    ensures !KeysLess(a, c)
  {
    hide TextLess;
    if a != [] && b != [] && c != [] {
      NotTextLessTransitive(a[0], b[0], c[0]);
      TextLessTotal(a[0], b[0]);
      TextLessTotal(b[0], c[0]);
      NoTextBetween(a[0], b[0], c[0]);
      if a[0] == b[0] && b[0] == c[0] {
        NotKeysLessTransitive(a[1..], b[1..], c[1..]);
      }
    }
  }

  lemma NoTextBetween(s: string, t: string, u: string)
    ensures s == u && !TextLess(s, t) && !TextLess(t, u) ==> s == t
  {
    TextLessTotal(s, t);
  }

  lemma {:induction false} KeysLessTotal(a: seq<string>, b: seq<string>)
    ensures KeysLess(a, b) || a == b || KeysLess(b, a)
  {
    hide TextLess;
    if a != [] && b != [] {
      TextLessTotal(a[0], b[0]);
      KeysLessTotal(a[1..], b[1..]);
      assert a == [a[0]] + a[1..] && b == [b[0]] + b[1..];
    }
  }

  predicate TradeBefore(a: Trade, b: Trade) {
    a.occurredAt < b.occurredAt || (a.occurredAt == b.occurredAt && TextLess(a.tradeId, b.tradeId))
  }

  const BY_TIME: (Trade, Trade) -> bool := TradeBefore

  predicate SourceBefore(a: Source, b: Source) {
    KeysLess([a.snapshotId, a.pageId, a.endpoint], [b.snapshotId, b.pageId, b.endpoint])
  }

  const BY_SOURCE: (Source, Source) -> bool := SourceBefore

  predicate PageBefore(a: PageSource, b: PageSource) {
    KeysLess([a.pageIndex, a.pageId], [b.pageIndex, b.pageId])
  }

  const BY_PAGE: (PageSource, PageSource) -> bool := PageBefore

  lemma OrdersAreWeak()
    ensures WeakOrder(BY_TIME) && WeakOrder(BY_SOURCE) && WeakOrder(BY_PAGE)
  {
    hide TextLess, KeysLess;
    forall a: Trade, b: Trade
      ensures BY_TIME(a, b) ==> !BY_TIME(b, a)
    {
      TradeOrderAsymmetric(a, b);
    }
    forall a: Trade, b: Trade, c: Trade
      ensures !BY_TIME(a, b) && !BY_TIME(b, c) ==> !BY_TIME(a, c)
    {
      TradeOrderTransitive(a, b, c);
    }
    SourceOrderIsWeak();
    PageOrderIsWeak();
  }

  lemma TradeOrderAsymmetric(a: Trade, b: Trade)
    ensures BY_TIME(a, b) ==> !BY_TIME(b, a)
  {
    hide TextLess;
    if TextLess(a.tradeId, b.tradeId) {
      TextLessAsymmetric(a.tradeId, b.tradeId);
    }
  }

  lemma TradeOrderTransitive(a: Trade, b: Trade, c: Trade)
    ensures !BY_TIME(a, b) && !BY_TIME(b, c) ==> !BY_TIME(a, c)
  {
    hide TextLess;
    if !TextLess(a.tradeId, b.tradeId) && !TextLess(b.tradeId, c.tradeId) {
      NotTextLessTransitive(a.tradeId, b.tradeId, c.tradeId);
    }
  }

  lemma SourceOrderIsWeak()
    ensures WeakOrder(BY_SOURCE)
  {
    hide KeysLess;
    forall a: Source, b: Source | BY_SOURCE(a, b)
      ensures !BY_SOURCE(b, a)
    {
      KeysLessAsymmetric([a.snapshotId, a.pageId, a.endpoint], [b.snapshotId, b.pageId, b.endpoint]);
    }
    forall a: Source, b: Source, c: Source | !BY_SOURCE(a, b) && !BY_SOURCE(b, c)
      ensures !BY_SOURCE(a, c)
    {
      NotKeysLessTransitive([a.snapshotId, a.pageId, a.endpoint], [b.snapshotId, b.pageId, b.endpoint],
                            [c.snapshotId, c.pageId, c.endpoint]);
    }
  }

  lemma PageOrderIsWeak()
    ensures WeakOrder(BY_PAGE)
  {
    hide KeysLess;
    forall a: PageSource, b: PageSource | BY_PAGE(a, b)
      ensures !BY_PAGE(b, a)
    {
      KeysLessAsymmetric([a.pageIndex, a.pageId], [b.pageIndex, b.pageId]);
    }
    forall a: PageSource, b: PageSource, c: PageSource | !BY_PAGE(a, b) && !BY_PAGE(b, c)
      ensures !BY_PAGE(a, c)
    {
      NotKeysLessTransitive([a.pageIndex, a.pageId], [b.pageIndex, b.pageId], [c.pageIndex, c.pageId]);
    }
  }

  // ---------- what a merge is, without an order of pages or rows ----------

  function PageRows(page: Page, interval: Interval): (out: seq<Parsed>)
    ensures |out| == |page.rows|
    ensures forall j :: 0 <= j < |out| ==> out[j] == ParseRow(page.rows[j], page.header, interval)
  {
    seq(|page.rows|, j requires 0 <= j < |page.rows| => ParseRow(page.rows[j], page.header, interval))
  }

  /** Every row of every page, parsed. */
  function AllRows(pages: seq<Page>, interval: Interval): seq<Parsed> {
    if pages == [] then [] else AllRows(pages[..|pages| - 1], interval) + PageRows(pages[|pages| - 1], interval)
  }

  function SourceOf(header: Header): PageSource {
    PageSource(header.pageId, header.pageIndex, header.selectionDigest, header.snapshotId, header.endpoint,
               header.coverage)
  }

  function Headers(pages: seq<Page>): (out: seq<Header>)
    ensures |out| == |pages| && forall i :: 0 <= i < |pages| ==> out[i] == pages[i].header
  {
    seq(|pages|, i requires 0 <= i < |pages| => pages[i].header)
  }

  predicate Sound(header: Header) {
    header.pageFault.None? && header.selectionDigest != "" && header.payloadFault.None? && header.dataFault.None?
  }

  ghost predicate HeadersAgree(headers: seq<Header>) {
    && (forall i :: 0 <= i < |headers| ==> Sound(headers[i]))
    && (forall i, j :: 0 <= i < j < |headers| ==> headers[i].pageId != headers[j].pageId)
    && (forall h, k :: h in headers && k in headers ==>
        h.selectionDigest == k.selectionDigest && h.identity == k.identity)
  }

  /** All rows parse and no trade id is used for two different trades. */
  ghost predicate RowsAgree(rows: seq<Parsed>) {
    && (forall r :: r in rows ==> r.Success?)
    && (forall d, e :: Success(d) in rows && Success(e) in rows && d.trade.tradeId == e.trade.tradeId ==>
        d.trade == e.trade)
  }

  ghost predicate Consistent(pages: seq<Page>, interval: Interval) {
    pages != [] && HeadersAgree(Headers(pages)) && RowsAgree(AllRows(pages, interval))
  }

  ghost predicate TradeOccurs(rows: seq<Parsed>, trade: Trade) {
    exists s :: Success(Entry(trade, s)) in rows
  }

  ghost predicate IsMerge(pages: seq<Page>, interval: Interval, m: Merge) {
    var rows := AllRows(pages, interval);
    && StrictlySorted(BY_TIME, m.trades)
    && (forall t :: t in m.trades <==> TradeOccurs(rows, t))
    && |m.population| == |m.trades|
    && (forall i :: 0 <= i < |m.trades| ==> IsSourced(rows, m.trades[i], m.population[i]))
    && StrictlySorted(BY_PAGE, m.pages)
    && (forall p :: p in m.pages <==> exists h :: h in Headers(pages) && p == SourceOf(h))
    && pages != [] && m.identity == pages[0].header.identity
  }

  ghost predicate IsSourced(rows: seq<Parsed>, trade: Trade, sourced: Sourced) {
    sourced.trade == trade && StrictlySorted(BY_SOURCE, sourced.sources)
    && forall s :: s in sourced.sources <==> Success(Entry(trade, s)) in rows
  }

  // ---------- the merge does not depend on the arrangement ----------

  /** The same pages, carrying the same facts, however arranged and however often repeated. */
  ghost predicate SameEvidence(pages: seq<Page>, others: seq<Page>, interval: Interval) {
    multiset(Headers(pages)) == multiset(Headers(others))
    && forall r :: r in AllRows(pages, interval) <==> r in AllRows(others, interval)
  }

  lemma HeadersAgreeAnyOrder(headers: seq<Header>, others: seq<Header>)
    requires multiset(headers) == multiset(others) && HeadersAgree(headers)
    ensures HeadersAgree(others)
  {
    hide Sound;
    MembersOfPermutation(headers, others);
    var id := (h: Header) => h.pageId;
    assert Distinct(id, headers);
    DistinctAfterPermutation(id, others, headers);
    forall i, j | 0 <= i < j < |others|
      ensures others[i].pageId != others[j].pageId
    {
      assert id(others[i]) != id(others[j]);
    }
    forall i | 0 <= i < |others|
      ensures Sound(others[i])
    {
      assert others[i] in headers;
    }
  }

  lemma RowsAgreeAnyOrder(rows: seq<Parsed>, others: seq<Parsed>)
    requires (forall r :: r in rows <==> r in others) && RowsAgree(rows)
    ensures RowsAgree(others)
  {
  }

  lemma SameConsistency(pages: seq<Page>, others: seq<Page>, interval: Interval)
    requires SameEvidence(pages, others, interval) && Consistent(pages, interval)
    ensures Consistent(others, interval)
  {
    hide HeadersAgree, RowsAgree;
    HeadersAgreeAnyOrder(Headers(pages), Headers(others));
    RowsAgreeAnyOrder(AllRows(pages, interval), AllRows(others, interval));
    MembersOfPermutation(Headers(pages), Headers(others));
  }

  lemma SameSourced(rows: seq<Parsed>, others: seq<Parsed>, trade: Trade, a: Sourced, b: Sourced)
    requires forall r :: r in rows <==> r in others
    requires IsSourced(rows, trade, a) && IsSourced(others, trade, b)
    ensures a == b
  {
    hide KeysLess, SourceBefore;
    OrdersAreWeak();
    forall s
      ensures s in a.sources <==> s in b.sources
    {
      assert Success(Entry(trade, s)) in rows <==> Success(Entry(trade, s)) in others;
    }
    StrictlySortedIsUnique(BY_SOURCE, a.sources, b.sources);
  }

  lemma SameTrades(rows: seq<Parsed>, others: seq<Parsed>, a: seq<Trade>, b: seq<Trade>)
    requires forall r :: r in rows <==> r in others
    requires StrictlySorted(BY_TIME, a) && forall t :: t in a <==> TradeOccurs(rows, t)
    requires StrictlySorted(BY_TIME, b) && forall t :: t in b <==> TradeOccurs(others, t)
    ensures a == b
  {
    hide TextLess;
    OrdersAreWeak();
    forall t
      ensures t in a <==> t in b
    {
      if s :| Success(Entry(t, s)) in rows {
        assert Success(Entry(t, s)) in others;
      }
      if s :| Success(Entry(t, s)) in others {
        assert Success(Entry(t, s)) in rows;
      }
    }
    StrictlySortedIsUnique(BY_TIME, a, b);
  }

  /** Reordering pages or rows, or repeating rows, neither turns a merge into a refusal nor changes its result. */
  lemma MergeIgnoresArrangement(pages: seq<Page>, others: seq<Page>, interval: Interval, m: Merge, n: Merge)
    requires SameEvidence(pages, others, interval)
    ensures Consistent(pages, interval) <==> Consistent(others, interval)
    ensures Consistent(pages, interval) && IsMerge(pages, interval, m) && IsMerge(others, interval, n) ==> m == n
  {
    hide Consistent, AllRows, IsSourced, KeysLess;
    if Consistent(pages, interval) {
      SameConsistency(pages, others, interval);
    }
    if Consistent(others, interval) {
      SameConsistency(others, pages, interval);
    }
    if Consistent(pages, interval) && IsMerge(pages, interval, m) && IsMerge(others, interval, n) {
      UniqueMerge(pages, others, interval, m, n);
    }
  }

  lemma UniqueMerge(pages: seq<Page>, others: seq<Page>, interval: Interval, m: Merge, n: Merge)
    requires SameEvidence(pages, others, interval) && Consistent(pages, interval)
    requires IsMerge(pages, interval, m) && IsMerge(others, interval, n)
    ensures m == n
  {
    hide AllRows, IsSourced, KeysLess, RowsAgree, PageBefore, TradeBefore, SourceBefore;
    var rows, again := AllRows(pages, interval), AllRows(others, interval);
    SameTrades(rows, again, m.trades, n.trades);
    forall i | 0 <= i < |m.trades|
      ensures m.population[i] == n.population[i]
    {
      SameSourced(rows, again, m.trades[i], m.population[i], n.population[i]);
    }
    MembersOfPermutation(Headers(pages), Headers(others));
    OrdersAreWeak();
    forall p
      ensures p in m.pages <==> p in n.pages
    {
    }
    StrictlySortedIsUnique(BY_PAGE, m.pages, n.pages);
    assert pages[0].header == Headers(pages)[0] && others[0].header == Headers(others)[0];
    assert m.identity == n.identity;
  }

  // ---------- arrangements that carry the same evidence ----------

  ghost predicate RowsReordered(page: Page, other: Page) {
    page.header == other.header && multiset(page.rows) == multiset(other.rows)
  }

  lemma {:induction false} InAllRows(pages: seq<Page>, interval: Interval, r: Parsed)
    ensures r in AllRows(pages, interval)
            <==> exists i :: 0 <= i < |pages| && r in PageRows(pages[i], interval)
  {
    hide ParseRow;
    if pages != [] {
      var n := |pages| - 1;
      InAllRows(pages[..n], interval, r);
      if r in AllRows(pages[..n], interval) {
        var i :| 0 <= i < n && r in PageRows(pages[..n][i], interval);
        assert r in PageRows(pages[i], interval);
      }
      if i :| 0 <= i < |pages| && r in PageRows(pages[i], interval) {
        assert i == n || r in PageRows(pages[..n][i], interval);
      }
    }
  }

  lemma InPageRows(page: Page, interval: Interval, r: Parsed)
    ensures r in PageRows(page, interval)
            <==> exists row :: row in page.rows && r == ParseRow(row, page.header, interval)
  {
    hide ParseRow;
    if r in PageRows(page, interval) {
      var j :| 0 <= j < |page.rows| && PageRows(page, interval)[j] == r;
      assert page.rows[j] in page.rows;
    }
    if row :| row in page.rows && r == ParseRow(row, page.header, interval) {
      var j :| 0 <= j < |page.rows| && page.rows[j] == row;
      assert PageRows(page, interval)[j] == r;
    }
  }

  lemma SamePageRows(page: Page, other: Page, interval: Interval)
    requires page.header == other.header && forall row :: row in page.rows <==> row in other.rows
    ensures forall r :: r in PageRows(page, interval) <==> r in PageRows(other, interval)
  {
    hide ParseRow, PageRows;
    forall r
      ensures r in PageRows(page, interval) <==> r in PageRows(other, interval)
    {
      InPageRows(page, interval, r);
      InPageRows(other, interval, r);
    }
  }

  /** Pages in any order, and the rows of each page in any order. */
  lemma ReorderingIsSameEvidence(pages: seq<Page>, moved: seq<Page>, others: seq<Page>, interval: Interval)
    requires multiset(pages) == multiset(moved)
    requires |moved| == |others| && forall i :: 0 <= i < |moved| ==> RowsReordered(moved[i], others[i])
    ensures SameEvidence(pages, others, interval)
  {
    hide ParseRow, PageRows, AllRows;
    MembersOfPermutation(pages, moved);
    HeadersOfPermutation(pages, moved);
    assert Headers(moved) == Headers(others);
    forall i | 0 <= i < |moved|
      ensures forall r :: r in PageRows(moved[i], interval) <==> r in PageRows(others[i], interval)
    {
      MembersOfPermutation(moved[i].rows, others[i].rows);
      SamePageRows(moved[i], others[i], interval);
    }
    forall r
      ensures r in AllRows(pages, interval) <==> r in AllRows(others, interval)
    {
      InAllRows(pages, interval, r);
      InAllRows(moved, interval, r);
      InAllRows(others, interval, r);
      SameUnion(pages, moved, interval, r);
      SameUnion(moved, pages, interval, r);
    }
  }

  lemma SameUnion(pages: seq<Page>, moved: seq<Page>, interval: Interval, r: Parsed)
    requires forall p :: p in pages ==> p in moved
    ensures (exists i :: 0 <= i < |pages| && r in PageRows(pages[i], interval))
            ==> exists i :: 0 <= i < |moved| && r in PageRows(moved[i], interval)
  {
    hide ParseRow, PageRows;
    if i :| 0 <= i < |pages| && r in PageRows(pages[i], interval) {
      assert pages[i] in moved;
      var j :| 0 <= j < |moved| && moved[j] == pages[i];
      assert r in PageRows(moved[j], interval);
    }
  }

  lemma HeadersWithout(pages: seq<Page>, k: nat)
    requires k < |pages|
    ensures multiset(Headers(pages)) == multiset{pages[k].header} + multiset(Headers(Without(pages, k)))
  {
    assert Headers(Without(pages, k)) == Headers(pages)[..k] + Headers(pages)[k + 1..];
    RemoveOne(Headers(pages), k);
  }

  lemma {:induction false} HeadersOfPermutation(pages: seq<Page>, moved: seq<Page>)
    requires multiset(pages) == multiset(moved)
    ensures multiset(Headers(pages)) == multiset(Headers(moved))
    decreases |pages|
  {
    hide Headers, Without;
    MembersOfPermutation(pages, moved);
    if pages == [] {
      assert moved == [];
    } else {
      assert pages[0] in moved;
      var k :| 0 <= k < |moved| && moved[k] == pages[0];
      RemoveOne(pages, 0);
      RemoveOne(moved, k);
      HeadersOfPermutation(Without(pages, 0), Without(moved, k));
      HeadersWithout(pages, 0);
      HeadersWithout(moved, k);
    }
  }

  /** Repeating a row that the page already carries adds nothing. */
  lemma RepeatedRowIsSameEvidence(pages: seq<Page>, i: nat, row: Row, interval: Interval)
    requires i < |pages| && row in pages[i].rows
    ensures SameEvidence(pages, pages[i := pages[i].(rows := pages[i].rows + [row])], interval)
  {
    hide ParseRow, PageRows, AllRows;
    var more := pages[i := pages[i].(rows := pages[i].rows + [row])];
    assert Headers(more) == Headers(pages);
    SamePageRows(pages[i], more[i], interval);
    forall r
      ensures r in AllRows(pages, interval) <==> r in AllRows(more, interval)
    {
      InAllRows(pages, interval, r);
      InAllRows(more, interval, r);
      forall j | 0 <= j < |pages|
        ensures r in PageRows(pages[j], interval) <==> r in PageRows(more[j], interval)
      {
      }
    }
  }

  /** In a merge every trade id counts once. */
  lemma TradeIdsAreUnique(pages: seq<Page>, interval: Interval, m: Merge)
    requires Consistent(pages, interval) && IsMerge(pages, interval, m)
    ensures Distinct((t: Trade) => t.tradeId, m.trades)
  {
    hide AllRows, IsSourced, KeysLess, HeadersAgree, TextLess;
    forall i, j | 0 <= i < j < |m.trades|
      ensures m.trades[i].tradeId != m.trades[j].tradeId
    {
      assert m.trades[i] in m.trades && m.trades[j] in m.trades;
      assert BY_TIME(m.trades[i], m.trades[j]);
      TextLessIrreflexive(m.trades[i].tradeId);
    }
  }

  // ---------- merging in loops ----------

  /** Two dictionaries and the insertion order they share, after the rows in `rows`. */
  ghost predicate Gathered(rows: seq<Parsed>, order: seq<string>, byId: map<string, Trade>,
      sources: map<string, seq<Source>>) {
    && (forall r :: r in rows ==> r.Success?)
    && (forall e :: Success(e) in rows ==> e.trade.tradeId in byId && byId[e.trade.tradeId] == e.trade)
    && (forall e :: Success(e) in rows ==> e.trade.tradeId in sources && e.source in sources[e.trade.tradeId])
    && sources.Keys == byId.Keys
    && (forall id :: id in order <==> id in byId)
    && (forall i, j :: 0 <= i < j < |order| ==> order[i] != order[j])
    && (forall id :: id in byId ==> byId[id].tradeId == id && TradeOccurs(rows, byId[id]))
    && (forall id :: id in sources ==> ListsSources(rows, byId[id], sources[id]))
  }

  ghost predicate ListsSources(rows: seq<Parsed>, trade: Trade, list: seq<Source>) {
    (forall i, j :: 0 <= i < j < |list| ==> list[i] != list[j])
    && forall s :: s in list ==> Success(Entry(trade, s)) in rows && s.tradeId == trade.tradeId
  }

  lemma MoreRows(rows: seq<Parsed>, all: seq<Parsed>, trade: Trade, list: seq<Source>)
    requires (forall r :: r in rows ==> r in all) && TradeOccurs(rows, trade) && ListsSources(rows, trade, list)
    ensures TradeOccurs(all, trade) && ListsSources(all, trade, list)
  {
    var s :| Success(Entry(trade, s)) in rows;
    assert Success(Entry(trade, s)) in all;
  }

  lemma AppendedRow(rows: seq<Parsed>, e: Entry)
    ensures forall r :: r in rows + [Success(e)] <==> r in rows || r == Success(e)
    ensures TradeOccurs(rows + [Success(e)], e.trade)
  {
    var all: seq<Parsed> := rows + [Success(e)];
    assert all[|rows|] == Success(e);
    assert Success(Entry(e.trade, e.source)) in all;
  }

  lemma GatheredNewTrade(rows: seq<Parsed>, order: seq<string>, byId: map<string, Trade>,
      sources: map<string, seq<Source>>, e: Entry)
    requires Gathered(rows, order, byId, sources) && e.trade.tradeId !in byId && e.source.tradeId == e.trade.tradeId
    ensures Gathered(rows + [Success(e)], order + [e.trade.tradeId], byId[e.trade.tradeId := e.trade],
                     sources[e.trade.tradeId := [e.source]])
  {
    hide ListsSources, TradeOccurs;
    var all: seq<Parsed> := rows + [Success(e)];
    AppendedRow(rows, e);
    FirstSource(all, e);
    forall id | id in byId
      ensures TradeOccurs(all, byId[id]) && ListsSources(all, byId[id], sources[id])
    {
      MoreRows(rows, all, byId[id], sources[id]);
    }
  }

  lemma FirstSource(all: seq<Parsed>, e: Entry)
    requires Success(e) in all && e.source.tradeId == e.trade.tradeId
    ensures ListsSources(all, e.trade, [e.source])
  {
    assert e == Entry(e.trade, e.source);
  }

  function WithSource(list: seq<Source>, s: Source): seq<Source> {
    if s in list then list else list + [s]
  }

  lemma OneMoreSource(all: seq<Parsed>, list: seq<Source>, e: Entry)
    requires Success(e) in all && e.source.tradeId == e.trade.tradeId && ListsSources(all, e.trade, list)
    ensures ListsSources(all, e.trade, WithSource(list, e.source)) && e.source in WithSource(list, e.source)
    ensures forall s :: s in list ==> s in WithSource(list, e.source)
  {
    assert e == Entry(e.trade, e.source);
  }

  lemma GatheredKnownTrade(rows: seq<Parsed>, order: seq<string>, byId: map<string, Trade>,
      sources: map<string, seq<Source>>, e: Entry)
    requires Gathered(rows, order, byId, sources) && e.trade.tradeId in byId && byId[e.trade.tradeId] == e.trade
    requires e.source.tradeId == e.trade.tradeId
    ensures Gathered(rows + [Success(e)], order, byId,
                     sources[e.trade.tradeId := WithSource(sources[e.trade.tradeId], e.source)])
  {
    hide ListsSources, TradeOccurs, WithSource;
    var all: seq<Parsed> := rows + [Success(e)];
    AppendedRow(rows, e);
    forall id | id in byId
      ensures TradeOccurs(all, byId[id]) && ListsSources(all, byId[id], sources[id])
    {
      MoreRows(rows, all, byId[id], sources[id]);
    }
    OneMoreSource(all, sources[e.trade.tradeId], e);
  }

  /** Why the merge is refused, in terms of the pages alone. */
  ghost predicate Explains(reason: Reason, pages: seq<Page>, interval: Interval) {
    var headers, rows := Headers(pages), AllRows(pages, interval);
    match reason
    case MissingRawTrades => pages == []
    case Fault(text) =>
      exists h :: h in headers
        && (h.pageFault == Some(text) || h.payloadFault == Some(text) || h.dataFault == Some(text))
    case DuplicatePageId => exists i, j :: 0 <= i < j < |headers| && headers[i].pageId == headers[j].pageId
    case SelectionDigestMissing => exists h :: h in headers && h.selectionDigest == ""
    case PageSetInconsistent =>
      exists h, k ::
        h in headers && k in headers && (h.selectionDigest != k.selectionDigest || h.identity != k.identity)
    case DuplicateConflict => Conflicting(rows)
    case RowMalformed => Failure(RowMalformed) in rows
    case RowOutOfInterval => Failure(RowOutOfInterval) in rows
    case TakerSideUnavailable => Failure(TakerSideUnavailable) in rows
  }

  /** Why rows are refused, in terms of the rows alone. */
  ghost predicate RowsExplain(reason: Reason, rows: seq<Parsed>) {
    if reason == DuplicateConflict then Conflicting(rows)
    else
      Failure(reason) in rows && (reason.RowMalformed? || reason.RowOutOfInterval? || reason.TakerSideUnavailable?)
  }

  ghost predicate Conflicting(rows: seq<Parsed>) {
    exists d, e :: Success(d) in rows && Success(e) in rows && d.trade.tradeId == e.trade.tradeId && d.trade != e.trade
  }

  lemma ExplainedIsInconsistent(reason: Reason, pages: seq<Page>, interval: Interval)
    requires Explains(reason, pages, interval)
    ensures !Consistent(pages, interval)
  {
    hide AllRows, Headers;
  }

  /** The rows of one page added to the dictionaries; None when every row is accepted. */
  method AddRows(page: Page, interval: Interval, ghost before: seq<Parsed>, order0: seq<string>,
      byId0: map<string, Trade>, sources0: map<string, seq<Source>>)
    returns (refused: Option<Reason>, order: seq<string>, byId: map<string, Trade>, sources: map<string, seq<Source>>)
    requires Gathered(before, order0, byId0, sources0)
    ensures refused.None? ==> Gathered(before + PageRows(page, interval), order, byId, sources)
    ensures refused.Some? ==>
              var all := before + PageRows(page, interval);
              RowsExplain(refused.value, all)
  {
    hide Gathered;
    ghost var all := PageRows(page, interval);
    order, byId, sources := order0, byId0, sources0;
    refused := None;
    assert before + all[..0] == before;
    for k := 0 to |page.rows|
      invariant Gathered(before + all[..k], order, byId, sources)
    {
      var parsed := ParseRow(page.rows[k], page.header, interval);
      assert parsed == all[k] && parsed in all && parsed in before + all;
      if parsed.Failure? {
        refused := Some(parsed.error);
        return;
      }
      var entry := parsed.value;
      var id := entry.trade.tradeId;
      assert before + all[..k + 1] == (before + all[..k]) + [parsed];
      if id !in byId {
        GatheredNewTrade(before + all[..k], order, byId, sources, entry);
        order, byId, sources := order + [id], byId[id := entry.trade], sources[id := [entry.source]];
        continue;
      }
      KnownTradeOccurs(before + all[..k], order, byId, sources, id);
      if byId[id] != entry.trade {
        ConflictFound(before, all, k, byId[id], entry);
        refused := Some(DuplicateConflict);
        return;
      }
      GatheredKnownTrade(before + all[..k], order, byId, sources, entry);
      if entry.source !in sources[id] {
        sources := sources[id := sources[id] + [entry.source]];
      }
      SourcesUnchanged(sources, id);
    }
    assert all[..|page.rows|] == all;
  }

  lemma SourcesUnchanged(sources: map<string, seq<Source>>, id: string)
    requires id in sources
    ensures sources[id := sources[id]] == sources
  {
  }

  lemma KnownTradeOccurs(rows: seq<Parsed>, order: seq<string>, byId: map<string, Trade>,
      sources: map<string, seq<Source>>, id: string)
    requires Gathered(rows, order, byId, sources) && id in byId
    ensures byId[id].tradeId == id && TradeOccurs(rows, byId[id]) && id in sources
  {
  }

  lemma ConflictFound(before: seq<Parsed>, all: seq<Parsed>, k: nat, trade: Trade, entry: Entry)
    requires k < |all| && all[k] == Success(entry) && TradeOccurs(before + all[..k], trade)
    requires trade.tradeId == entry.trade.tradeId && trade != entry.trade
    ensures Conflicting(before + all)
  {
    var s :| Success(Entry(trade, s)) in before + all[..k];
    assert Success(Entry(trade, s)) in before + all;
    assert (before + all)[|before| + k] == Success(entry);
    assert Success(entry) in before + all;
  }

  /** What the headers read so far allow. */
  ghost predicate HeadersRead(headers: seq<Header>, pageIds: set<string>, digest: Option<string>,
      identity: Option<SourceIdentity>, list: seq<PageSource>) {
    && HeadersAgree(headers)
    && (forall id :: id in pageIds <==> exists h :: h in headers && h.pageId == id)
    && (headers == [] ==> digest.None? && identity.None?)
    && (headers != [] ==> digest == Some(headers[0].selectionDigest) && identity == Some(headers[0].identity))
    && |list| == |headers| && forall i :: 0 <= i < |headers| ==> list[i] == SourceOf(headers[i])
  }

  lemma ReadOneMore(headers: seq<Header>, pageIds: set<string>, digest: Option<string>,
      identity: Option<SourceIdentity>, list: seq<PageSource>, h: Header)
    requires HeadersRead(headers, pageIds, digest, identity, list)
    requires Sound(h) && h.pageId !in pageIds
    requires digest.Some? ==> digest.value == h.selectionDigest
    requires identity.Some? ==> identity.value == h.identity
    ensures HeadersRead(headers + [h], pageIds + {h.pageId}, Some(h.selectionDigest), Some(h.identity),
                        list + [SourceOf(h)])
  {
    hide Sound;
    var more := headers + [h];
    assert more[|headers|] == h;
    forall i, j | 0 <= i < j < |more|
      ensures more[i].pageId != more[j].pageId
    {
      if j == |headers| {
        assert headers[i] in headers;
      }
    }
    forall k | k in more
      ensures k.selectionDigest == h.selectionDigest && k.identity == h.identity
    {
      if k != h {
        assert k in headers && headers[0] in headers;
      }
    }
    forall id
      ensures id in pageIds + {h.pageId} <==> exists k :: k in more && k.pageId == id
    {
      if id == h.pageId {
        assert h in more;
      }
    }
  }

  /** The checks on one page header, in the order the merge makes them. */
  function CheckHeader(h: Header, pageIds: set<string>, digest: Option<string>,
      identity: Option<SourceIdentity>): Option<Reason> {
    if h.pageFault.Some? then Some(Fault(h.pageFault.value))
    else if h.pageId in pageIds then Some(DuplicatePageId)
    else if h.selectionDigest == "" then Some(SelectionDigestMissing)
    else if digest.Some? && h.selectionDigest != digest.value then Some(PageSetInconsistent)
    else if h.payloadFault.Some? then Some(Fault(h.payloadFault.value))
    else if identity.Some? && h.identity != identity.value then Some(PageSetInconsistent)
    else if h.dataFault.Some? then Some(Fault(h.dataFault.value))
    else None
  }

  lemma HeaderRefused(pages: seq<Page>, i: nat, interval: Interval, pageIds: set<string>, digest: Option<string>,
        identity: Option<SourceIdentity>, list: seq<PageSource>)
    requires i < |pages| && HeadersRead(Headers(pages[..i]), pageIds, digest, identity, list)
    requires CheckHeader(pages[i].header, pageIds, digest, identity).Some?
    ensures Explains(CheckHeader(pages[i].header, pageIds, digest, identity).value, pages, interval)
  {
    hide AllRows, HeadersAgree, ParseRow;
    var headers, h := Headers(pages), pages[i].header;
    assert headers[i] == h && h in headers;
    assert i > 0 ==> headers[0] == Headers(pages[..i])[0] && headers[0] in headers;
    if h.pageId in pageIds {
      var k :| k in Headers(pages[..i]) && k.pageId == h.pageId;
      var j :| 0 <= j < i && Headers(pages[..i])[j] == k;
      assert headers[j].pageId == headers[i].pageId;
    }
  }

  lemma {:induction false} AllRowsPrefix(pages: seq<Page>, i: nat, interval: Interval)
    requires i < |pages|
    ensures AllRows(pages[..i + 1], interval) == AllRows(pages[..i], interval) + PageRows(pages[i], interval)
    ensures forall r :: r in AllRows(pages[..i + 1], interval) ==> r in AllRows(pages, interval)
    decreases |pages| - i
  {
    hide PageRows;
    assert pages[..i + 1][..i] == pages[..i];
    if i + 1 < |pages| {
      AllRowsPrefix(pages, i + 1, interval);
    } else {
      assert pages[..i + 1] == pages;
    }
  }

  lemma RowsRefused(pages: seq<Page>, i: nat, interval: Interval, reason: Reason)
    requires i < |pages|
    requires var all := AllRows(pages[..i], interval) + PageRows(pages[i], interval);
             RowsExplain(reason, all)
    ensures Explains(reason, pages, interval)
  {
    hide AllRows, PageRows;
    AllRowsPrefix(pages, i, interval);
    if reason == DuplicateConflict {
      var part := AllRows(pages[..i + 1], interval);
      var d: Entry, e: Entry :| Success(d) in part && Success(e) in part && d.trade.tradeId == e.trade.tradeId
        && d.trade != e.trade;
      assert Success(d) in AllRows(pages, interval) && Success(e) in AllRows(pages, interval);
    }
  }

  /** `_parse_aggressive_raw_trades_pages`. */
  method MergePages(pages: seq<Page>, interval: Interval) returns (r: Result<Merge, Reason>)
    ensures r.Success? <==> Consistent(pages, interval)
    ensures r.Success? ==> IsMerge(pages, interval, r.value)
    ensures r.Failure? ==> Explains(r.error, pages, interval)
  {
    hide HeadersAgree, RowsAgree, Gathered, HeadersRead, IsMerge, Explains, AllRows, Sound, PageRows, SourceOf;
    if pages == [] {
      NoPages(interval);
      return Failure(MissingRawTrades);
    }
    var pageIds: set<string>, digest: Option<string>, identity: Option<SourceIdentity> := {}, None, None;
    var list: seq<PageSource> := [];
    var order: seq<string>, byId: map<string, Trade>, sources: map<string, seq<Source>> := [], map[], map[];
    NothingRead(interval);
    for i := 0 to |pages|
      invariant HeadersRead(Headers(pages[..i]), pageIds, digest, identity, list)
      invariant Gathered(AllRows(pages[..i], interval), order, byId, sources)
    {
      var page := pages[i];
      var refused := CheckHeader(page.header, pageIds, digest, identity);
      if refused.Some? {
        HeaderRefused(pages, i, interval, pageIds, digest, identity, list);
        ExplainedIsInconsistent(refused.value, pages, interval);
        return Failure(refused.value);
      }
      HeaderAccepted(page.header, pageIds, digest, identity);
      ReadOneMore(Headers(pages[..i]), pageIds, digest, identity, list, page.header);
      assert Headers(pages[..i + 1]) == Headers(pages[..i]) + [page.header];
      pageIds := pageIds + {page.header.pageId};
      digest, identity := Some(page.header.selectionDigest), Some(page.header.identity);
      list := list + [SourceOf(page.header)];
      AllRowsPrefix(pages, i, interval);
      refused, order, byId, sources := AddRows(page, interval, AllRows(pages[..i], interval), order, byId, sources);
      if refused.Some? {
        RowsRefused(pages, i, interval, refused.value);
        ExplainedIsInconsistent(refused.value, pages, interval);
        return Failure(refused.value);
      }
    }
    assert pages[..|pages|] == pages;
    GatheredRowsAgree(AllRows(pages, interval), order, byId, sources);
    ReadHeadersAgree(Headers(pages), pageIds, digest, identity, list);
    var trades := TradesInOrder(AllRows(pages, interval), order, byId, sources);
    var population := SourcedTrades(AllRows(pages, interval), order, byId, sources, trades);
    SortedPages(Headers(pages), pageIds, digest, identity, list);
    var merge := Merge(trades, population, Sort(BY_PAGE, list), identity.value);
    MergeMade(pages, interval, merge);
    r := Success(merge);
  }

  lemma MergeMade(pages: seq<Page>, interval: Interval, m: Merge)
    requires pages != [] && m.identity == pages[0].header.identity
    requires StrictlySorted(BY_TIME, m.trades)
    requires forall t :: t in m.trades <==> TradeOccurs(AllRows(pages, interval), t)
    requires |m.population| == |m.trades|
    requires forall i :: 0 <= i < |m.trades| ==> IsSourced(AllRows(pages, interval), m.trades[i], m.population[i])
    requires StrictlySorted(BY_PAGE, m.pages)
    requires forall p :: p in m.pages <==> exists h :: h in Headers(pages) && p == SourceOf(h)
    ensures IsMerge(pages, interval, m)
  {
    hide AllRows, IsSourced, KeysLess;
  }

  lemma NoPages(interval: Interval)
    ensures Explains(MissingRawTrades, [], interval)
  {
  }

  lemma NothingRead(interval: Interval)
    ensures HeadersRead(Headers([]), {}, None, None, [])
    ensures Gathered(AllRows([], interval), [], map[], map[])
  {
  }

  lemma HeaderAccepted(h: Header, pageIds: set<string>, digest: Option<string>, identity: Option<SourceIdentity>)
    requires CheckHeader(h, pageIds, digest, identity).None?
    ensures Sound(h) && h.pageId !in pageIds
    ensures digest.Some? ==> digest.value == h.selectionDigest
    ensures identity.Some? ==> identity.value == h.identity
  {
  }

  lemma GatheredRowsAgree(rows: seq<Parsed>, order: seq<string>, byId: map<string, Trade>,
      sources: map<string, seq<Source>>)
    requires Gathered(rows, order, byId, sources)
    ensures RowsAgree(rows)
  {
  }

  lemma ReadHeadersAgree(headers: seq<Header>, pageIds: set<string>, digest: Option<string>,
      identity: Option<SourceIdentity>, list: seq<PageSource>)
    requires HeadersRead(headers, pageIds, digest, identity, list) && headers != []
    ensures HeadersAgree(headers) && identity == Some(headers[0].identity)
  {
  }

  lemma SortedPages(headers: seq<Header>, pageIds: set<string>, digest: Option<string>,
      identity: Option<SourceIdentity>, list: seq<PageSource>)
    requires HeadersRead(headers, pageIds, digest, identity, list)
    ensures StrictlySorted(BY_PAGE, Sort(BY_PAGE, list))
    ensures forall p :: p in Sort(BY_PAGE, list) <==> exists h :: h in headers && p == SourceOf(h)
  {
    hide Sort, KeysLess, Sound;
    OrdersAreWeak();
    SortIsSorted(BY_PAGE, list);
    SortIsPermutation(BY_PAGE, list);
    var id := (p: PageSource) => p.pageId;
    assert Distinct(id, list);
    DistinctAfterPermutation(id, Sort(BY_PAGE, list), list);
    MembersOfPermutation(Sort(BY_PAGE, list), list);
    DistinctPagesAreOrdered(Sort(BY_PAGE, list));
    SortedDistinctIsStrict(BY_PAGE, Sort(BY_PAGE, list));
    forall p
      ensures p in list <==> exists h :: h in headers && p == SourceOf(h)
    {
      if p in list {
        var i :| 0 <= i < |list| && list[i] == p;
        assert headers[i] in headers;
      }
      if h :| h in headers && p == SourceOf(h) {
        var i :| 0 <= i < |headers| && headers[i] == h;
        assert list[i] == p;
      }
    }
  }

  lemma DistinctPagesAreOrdered(s: seq<PageSource>)
    requires Distinct((p: PageSource) => p.pageId, s)
    ensures DistinctKeys(BY_PAGE, s)
  {
    hide KeysLess;
    forall i, j | 0 <= i < j < |s|
      ensures BY_PAGE(s[i], s[j]) || BY_PAGE(s[j], s[i])
    {
      KeysLessTotal([s[i].pageIndex, s[i].pageId], [s[j].pageIndex, s[j].pageId]);
      assert [s[i].pageIndex, s[i].pageId][1] != [s[j].pageIndex, s[j].pageId][1];
    }
  }

  /** `sorted(by_trade_id.values(), key=(occurred_at, trade_id))`. */
  method TradesInOrder(ghost rows: seq<Parsed>, order: seq<string>, byId: map<string, Trade>,
      ghost sources: map<string, seq<Source>>)
    returns (trades: seq<Trade>)
    requires Gathered(rows, order, byId, sources)
    ensures StrictlySorted(BY_TIME, trades) && forall t :: t in trades <==> TradeOccurs(rows, t)
    ensures forall t :: t in trades ==> t.tradeId in byId && byId[t.tradeId] == t
  {
    hide Sort, TextLess;
    var values: seq<Trade> := [];
    for i := 0 to |order|
      invariant |values| == i && forall j :: 0 <= j < i ==> order[j] in byId && values[j] == byId[order[j]]
    {
      assert order[i] in byId;
      values := values + [byId[order[i]]];
    }
    trades := Sort(BY_TIME, values);
    OrderedTrades(rows, order, byId, sources, values);
  }

  lemma OrderedTrades(rows: seq<Parsed>, order: seq<string>, byId: map<string, Trade>,
      sources: map<string, seq<Source>>, values: seq<Trade>)
    requires Gathered(rows, order, byId, sources)
    requires |values| == |order| && forall j :: 0 <= j < |order| ==> order[j] in byId && values[j] == byId[order[j]]
    ensures var trades := Sort(BY_TIME, values);
            StrictlySorted(BY_TIME, trades) && (forall t :: t in trades <==> TradeOccurs(rows, t))
            && forall t :: t in trades ==> t.tradeId in byId && byId[t.tradeId] == t
  {
    hide Sort, TextLess;
    OrdersAreWeak();
    SortIsSorted(BY_TIME, values);
    SortIsPermutation(BY_TIME, values);
    var id := (t: Trade) => t.tradeId;
    assert Distinct(id, values);
    DistinctAfterPermutation(id, Sort(BY_TIME, values), values);
    MembersOfPermutation(Sort(BY_TIME, values), values);
    DistinctTradesAreOrdered(Sort(BY_TIME, values));
    SortedDistinctIsStrict(BY_TIME, Sort(BY_TIME, values));
    forall t
      ensures t in values <==> TradeOccurs(rows, t)
    {
      if t in values {
        var j :| 0 <= j < |values| && values[j] == t;
        assert order[j] in byId;
      }
      if s :| Success(Entry(t, s)) in rows {
        assert t.tradeId in order;
        var j :| 0 <= j < |order| && order[j] == t.tradeId;
        assert values[j] == t;
      }
    }
  }

  lemma DistinctTradesAreOrdered(s: seq<Trade>)
    requires Distinct((t: Trade) => t.tradeId, s)
    ensures DistinctKeys(BY_TIME, s)
  {
    hide TextLess;
    forall i, j | 0 <= i < j < |s|
      ensures BY_TIME(s[i], s[j]) || BY_TIME(s[j], s[i])
    {
      TextLessTotal(s[i].tradeId, s[j].tradeId);
    }
  }

  /** Each trade with its sorted source provenance. */
  method SourcedTrades(ghost rows: seq<Parsed>, ghost order: seq<string>, ghost byId: map<string, Trade>,
      sources: map<string, seq<Source>>, trades: seq<Trade>)
    returns (population: seq<Sourced>)
    requires Gathered(rows, order, byId, sources)
    requires forall t :: t in trades ==> t.tradeId in byId && byId[t.tradeId] == t
    ensures |population| == |trades| && forall i :: 0 <= i < |trades| ==> IsSourced(rows, trades[i], population[i])
  {
    hide Sort, KeysLess, Gathered, IsSourced;
    population := [];
    for i := 0 to |trades|
      invariant |population| == i && forall j :: 0 <= j < i ==> IsSourced(rows, trades[j], population[j])
    {
      var trade := trades[i];
      assert trade in trades;
      SortedSources(rows, order, byId, sources, trade);
      population := population + [Sourced(trade, Sort(BY_SOURCE, sources[trade.tradeId]))];
    }
  }

  lemma SortedSources(rows: seq<Parsed>, order: seq<string>, byId: map<string, Trade>,
      sources: map<string, seq<Source>>, trade: Trade)
    requires Gathered(rows, order, byId, sources) && trade.tradeId in byId && byId[trade.tradeId] == trade
    ensures trade.tradeId in sources
    ensures IsSourced(rows, trade, Sourced(trade, Sort(BY_SOURCE, sources[trade.tradeId])))
  {
    hide Sort, KeysLess;
    var list := sources[trade.tradeId];
    assert ListsSources(rows, trade, list);
    OrdersAreWeak();
    SortIsSorted(BY_SOURCE, list);
    SortIsPermutation(BY_SOURCE, list);
    var same := (s: Source) => s;
    assert Distinct(same, list);
    DistinctAfterPermutation(same, Sort(BY_SOURCE, list), list);
    MembersOfPermutation(Sort(BY_SOURCE, list), list);
    DistinctSourcesAreOrdered(Sort(BY_SOURCE, list), trade.tradeId);
    SortedDistinctIsStrict(BY_SOURCE, Sort(BY_SOURCE, list));
  }

  lemma DistinctSourcesAreOrdered(list: seq<Source>, id: string)
    requires Distinct((s: Source) => s, list) && forall s :: s in list ==> s.tradeId == id
    ensures DistinctKeys(BY_SOURCE, list)
  {
    hide KeysLess;
    forall i, j | 0 <= i < j < |list|
      ensures BY_SOURCE(list[i], list[j]) || BY_SOURCE(list[j], list[i])
    {
      var a, b := list[i], list[j];
      assert a in list && b in list;
      var ka, kb := [a.snapshotId, a.pageId, a.endpoint], [b.snapshotId, b.pageId, b.endpoint];
      KeysLessTotal(ka, kb);
      TripleEqual(a.snapshotId, a.pageId, a.endpoint, b.snapshotId, b.pageId, b.endpoint);
    }
  }

  lemma TripleEqual(a: string, b: string, c: string, x: string, y: string, z: string)
    ensures [a, b, c] == [x, y, z] ==> a == x && b == y && c == z
  {
    assert [a, b, c][0] == a && [a, b, c][1] == b && [a, b, c][2] == c;
    assert [x, y, z][0] == x && [x, y, z][1] == y && [x, y, z][2] == z;
  }

  // ---------- rows and orders in words ----------

  /** Which rows are accepted, what they become, and the first reason why the others are not. */
  lemma RowsInWords(row: Row, header: Header, interval: Interval)
    ensures var r := ParseRow(row, header, interval);
            && (r.Success? <==>
                  row.Row? && row.tradeId != "" && row.occurredAt.Some? && row.takerSide.Some?
                  && interval.from <= row.occurredAt.value < interval.until
                  && row.price.Some? && Val(row.price.value) > 0.0
                  && row.quantity.Some? && Val(row.quantity.value) > 0.0
                  && row.notional.Some? && Val(row.notional.value) > 0.0)
            && (r == Failure(RowOutOfInterval) <==>
                  row.Row? && row.tradeId != "" && row.occurredAt.Some?
                  && (row.occurredAt.value < interval.from || row.occurredAt.value >= interval.until))
            && (r == Failure(TakerSideUnavailable) <==>
                  row.Row? && row.tradeId != "" && row.occurredAt.Some? && row.takerSide.None?
                  && interval.from <= row.occurredAt.value < interval.until)
            && (r.Success? ==>
                  && r.value.trade.tradeId == row.tradeId == r.value.source.tradeId
                  && r.value.trade.occurredAt == row.occurredAt.value && r.value.trade.side == row.takerSide.value
                  && r.value.trade.price == row.price.value && r.value.trade.quantity == row.quantity.value
                  && r.value.trade.notional == row.notional.value && r.value.source.pageId == header.pageId
                  && r.value.source.snapshotId == header.snapshotId && r.value.source.endpoint == header.endpoint)
  {
    hide Val;
    if row.Row? && row.price.Some? {
      ValSign(row.price.value);
    }
    if row.Row? && row.quantity.Some? {
      ValSign(row.quantity.value);
    }
    if row.Row? && row.notional.Some? {
      ValSign(row.notional.value);
    }
  }

  lemma FirstKeyDecides(a: seq<string>, b: seq<string>)
    requires |a| == |b| > 0
    ensures KeysLess(a, b) <==> Precedes(a[0], b[0]) || (a[0] == b[0] && KeysLess(a[1..], b[1..]))
  {
    hide TextLess, Precedes;
    TextLessIsFirstDifference(a[0], b[0]);
  }

  lemma TwoKeys(a: string, b: string, c: string, d: string)
    ensures KeysLess([a, b], [c, d]) <==> Precedes(a, c) || (a == c && Precedes(b, d))
  {
    hide KeysLess, Precedes;
    FirstKeyDecides([a, b], [c, d]);
    assert [a, b][1..] == [b] && [c, d][1..] == [d];
    FirstKeyDecides([b], [d]);
    NoKeys([b], [d]);
  }

  lemma NoKeys(a: seq<string>, b: seq<string>)
    requires |a| == |b| == 1
    ensures !KeysLess(a[1..], b[1..])
  {
  }

  /** Trades ascend by time and then by id, sources by snapshot, page and endpoint, pages by index text and then id. */
  lemma OrdersInWords(t: Trade, u: Trade, r: Source, s: Source, p: PageSource, q: PageSource)
    ensures BY_TIME(t, u)
            <==> t.occurredAt < u.occurredAt || (t.occurredAt == u.occurredAt && Precedes(t.tradeId, u.tradeId))
    ensures BY_SOURCE(r, s)
            <==> Precedes(r.snapshotId, s.snapshotId)
                 || (r.snapshotId == s.snapshotId && Precedes(r.pageId, s.pageId))
                 || (r.snapshotId == s.snapshotId && r.pageId == s.pageId && Precedes(r.endpoint, s.endpoint))
    ensures BY_PAGE(p, q)
            <==> Precedes(p.pageIndex, q.pageIndex) || (p.pageIndex == q.pageIndex && Precedes(p.pageId, q.pageId))
  {
    hide KeysLess, Precedes, TextLess;
    TextLessIsFirstDifference(t.tradeId, u.tradeId);
    TwoKeys(p.pageIndex, p.pageId, q.pageIndex, q.pageId);
    FirstKeyDecides([r.snapshotId, r.pageId, r.endpoint], [s.snapshotId, s.pageId, s.endpoint]);
    assert [r.snapshotId, r.pageId, r.endpoint][1..] == [r.pageId, r.endpoint];
    assert [s.snapshotId, s.pageId, s.endpoint][1..] == [s.pageId, s.endpoint];
    TwoKeys(r.pageId, r.endpoint, s.pageId, s.endpoint);
  }

  /** What a merge says about its pages: one entry for each, with its own words, and the source they all share. */
  lemma PagesInWords(pages: seq<Page>, interval: Interval, m: Merge, i: nat)
    requires Consistent(pages, interval) && IsMerge(pages, interval, m) && i < |pages|
    ensures var h := pages[i].header;
            && m.identity == h.identity
            && PageSource(h.pageId, h.pageIndex, h.selectionDigest, h.snapshotId, h.endpoint, h.coverage) in m.pages
    ensures forall p :: p in m.pages ==>
              exists j :: 0 <= j < |pages| && p.pageId == pages[j].header.pageId
                          && p.pageIndex == pages[j].header.pageIndex
                          && p.selectionDigest == pages[j].header.selectionDigest
                          && p.snapshotId == pages[j].header.snapshotId && p.endpoint == pages[j].header.endpoint
                          && p.coverage == pages[j].header.coverage
  {
    hide AllRows, IsSourced, KeysLess, RowsAgree, Sound, TradeOccurs;
    var headers := Headers(pages);
    assert headers[i] == pages[i].header && headers[i] in headers;
    assert headers[0] == pages[0].header && headers[0] in headers;
    assert SourceOf(headers[i]) in m.pages;
    forall p | p in m.pages
      ensures exists j :: 0 <= j < |pages| && p == SourceOf(pages[j].header)
    {
      var h :| h in headers && p == SourceOf(h);
      var j :| 0 <= j < |headers| && headers[j] == h;
      assert p == SourceOf(pages[j].header);
    }
  }
}
