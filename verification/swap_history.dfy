/**
 Serving a page of swap history: the request, the compiled list query over the joined tables, the
 total count with its counter-table fast path, and how pages and total fit together
 (src/controllers/trading/swap_history.rs, src/types/trading/swap_history.rs).
 */
module SwapHistory {
  import opened Arithmetic
  import opened Prelude
  import opened Paging
  import opened StableSort
  import SaltAddress
  import Q = SwapQuery

  // ----- Requests -----

  const MAX_LIMIT: int := 100

  datatype Request = Request(
    page: int, limit: int, ascending: bool,
    ranges: Option<seq<Q.VolumeRange>>, accountId: Option<string>, tradeType: string)

  /** What deserialisation and `SwapQuery::validate` let through. */
  predicate Validated(checksum: SaltAddress.Address -> string, r: Request) {
    && 1 <= r.page && 1 <= r.limit <= MAX_LIMIT
    && (r.ranges.Some? ==> r.ranges.value != [])
    && (r.accountId.Some? ==> SaltAddress.ValidAccountId(checksum, r.accountId.value).Some?)
    && (r.tradeType == "BUY" || r.tradeType == "SELL" || r.tradeType == "ALL")
  }

  function ToFilter(checksum: SaltAddress.Address -> string, tokenId: string, r: Request): Q.Filter {
    var account := if r.accountId.Some? then SaltAddress.ValidAccountId(checksum, r.accountId.value) else None;
    Q.Filter(tokenId, account, r.tradeType, r.ranges)
  }

  /** What a row has to meet to answer a request, said of the request's own fields. */
  predicate Answers(checksum: SaltAddress.Address -> string, tokenId: string, r: Request, row: Q.SwapRow) {
    && row.tokenId == tokenId
    && (r.accountId.Some? ==>
          var address := SaltAddress.ParseAddress(r.accountId.value);
          address.Some? && row.accountId == checksum(address.value))
    && (r.tradeType == "BUY" ==> row.isBuy) && (r.tradeType == "SELL" ==> !row.isBuy)
    && (r.ranges.Some? ==> exists range :: range in r.ranges.value && Q.InDollars(range, row.value))
  }

  /** For a validated request the filter keeps all of that and nothing else. */
  lemma FilterIsRequest(checksum: SaltAddress.Address -> string, tokenId: string, r: Request, row: Q.SwapRow)
    requires Validated(checksum, r)
    ensures Q.Matches(ToFilter(checksum, tokenId, r), row) <==> Answers(checksum, tokenId, r, row)
  {
    hide SaltAddress.ParseAddress, Q.InRange, Q.InDollars;
    Q.RangesPartition(row.value);
    if r.ranges.Some? {
      var ranges := r.ranges.value;
      if range :| range in ranges && Q.InDollars(range, row.value) {
        var i :| 0 <= i < |ranges| && ranges[i] == range;
        assert Q.InRange(ranges[i], row.value);
      }
      if Q.InSome(ranges, row.value) {
        var i :| 0 <= i < |ranges| && Q.InRange(ranges[i], row.value);
        assert ranges[i] in ranges;
      }
    }
  }

  // ----- Tables -----

  datatype Counts = Counts(all: nat, buys: nat, sells: nat)

  /** `markets` names the token of each row of `market`; `counts` is the table `swap_count`. */
  datatype Db = Db(swaps: seq<Q.SwapRow>, accounts: set<string>, markets: seq<string>, counts: map<string, Counts>)

  /** Rows that the list query keeps: its WHERE text and its join with the accounts. */
  function ListKeeps(db: Db, f: Q.Filter): Q.SwapRow -> bool {
    row => Q.Accepts(Q.ListWhere(f), Q.Binds(f), row) == Some(true) && row.accountId in db.accounts
  }

  function CountKeeps(db: Db, f: Q.Filter): Q.SwapRow -> bool {
    row => Q.Accepts(Q.CountWhere(f), Q.Binds(f), row) == Some(true) && row.accountId in db.accounts
  }

  /** Rows a request asks for, without reference to any SQL. */
  function Asked(db: Db, f: Q.Filter): Q.SwapRow -> bool {
    row => Q.Matches(f, row) && row.accountId in db.accounts
  }

  predicate Before(a: Q.SwapRow, b: Q.SwapRow) {
    a.block < b.block || (a.block == b.block &&
      (a.txIndex < b.txIndex || (a.txIndex == b.txIndex && a.logIndex <= b.logIndex)))
  }

  function OrderBy(ascending: bool): (Q.SwapRow, Q.SwapRow) -> bool {
    (a, b) => if ascending then Before(a, b) else Before(b, a)
  }

  lemma OrderByIsPreorder(ascending: bool)
    ensures TotalPreorder(OrderBy(ascending))
  {
  }

  function OfToken(t: string): string -> bool { (token: string) => token == t }

  function MarketRows(db: Db, t: string): nat { |Filter(OfToken(t), db.markets)| }

  function Copies(row: Q.SwapRow, n: nat): seq<Q.SwapRow> { if n == 0 then [] else [row] + Copies(row, n - 1) }

  /** JOIN market: a row appears once for every market row of its token. The count query has no such join. */
  function Joined(db: Db, rows: seq<Q.SwapRow>): seq<Q.SwapRow> {
    if rows == [] then [] else Copies(rows[0], MarketRows(db, rows[0].tokenId)) + Joined(db, rows[1..])
  }

  function RunList(db: Db, f: Q.Filter, ascending: bool): seq<Q.SwapRow> {
    Sort(OrderBy(ascending), Joined(db, Filter(ListKeeps(db, f), db.swaps)))
  }

  function RunCount(db: Db, f: Q.Filter): nat { |Filter(CountKeeps(db, f), db.swaps)| }

  /** `get_cached_count`: a missing row counts as zero. */
  function CachedCount(db: Db, f: Q.Filter): nat {
    if f.tokenId !in db.counts then 0
    else if f.tradeType == "BUY" then db.counts[f.tokenId].buys
    else if f.tradeType == "SELL" then db.counts[f.tokenId].sells
    else db.counts[f.tokenId].all
  }

  predicate HasFastPath(f: Q.Filter) { f.ranges.None? && f.account.None? }

  function Total(db: Db, f: Q.Filter): nat {
    if HasFastPath(f) then CachedCount(db, f) else RunCount(db, f)
  }

  /** Rows of a token on one side of the market, or on both. */
  function OfSide(db: Db, tokenId: string, isBuy: Option<bool>): Q.SwapRow -> bool {
    (row: Q.SwapRow) =>
      row.tokenId == tokenId && row.accountId in db.accounts && (isBuy.Some? ==> row.isBuy == isBuy.value)
  }

  function RowsOfSide(db: Db, tokenId: string, isBuy: Option<bool>): nat {
    |Filter(OfSide(db, tokenId, isBuy), db.swaps)|
  }

  /** The counter table is maintained: each column counts its rows, and only tokens without rows are missing. */
  ghost predicate CountersTrue(db: Db) {
    forall t :: if t in db.counts
      then
        && db.counts[t].all == RowsOfSide(db, t, None)
        && db.counts[t].buys == RowsOfSide(db, t, Some(true))
        && db.counts[t].sells == RowsOfSide(db, t, Some(false))
      else RowsOfSide(db, t, None) == 0
  }

  /** The rows of existing accounts that answer a request. */
  function Answering(db: Db, checksum: SaltAddress.Address -> string, tokenId: string, r: Request): Q.SwapRow -> bool {
    (row: Q.SwapRow) => Answers(checksum, tokenId, r, row) && row.accountId in db.accounts
  }

  /** By block, transaction and log index, upwards or downwards. */
  predicate InOrder(ascending: bool, rows: seq<Q.SwapRow>) {
    forall i, j :: 0 <= i < j < |rows| ==>
      var a, b := if ascending then rows[i] else rows[j], if ascending then rows[j] else rows[i];
      || a.block < b.block
      || (a.block == b.block && a.txIndex < b.txIndex)
      || (a.block == b.block && a.txIndex == b.txIndex && a.logIndex <= b.logIndex)
  }

  lemma InOrderIff(ascending: bool, rows: seq<Q.SwapRow>)
    ensures Sorted(OrderBy(ascending), rows) <==> InOrder(ascending, rows)
  {
  }

  lemma AnsweringIsAsked(db: Db, checksum: SaltAddress.Address -> string, tokenId: string, r: Request)
    requires Validated(checksum, r)
    ensures Filter(Asked(db, ToFilter(checksum, tokenId, r)), db.swaps)
         == Filter(Answering(db, checksum, tokenId, r), db.swaps)
  {
    hide Validated;
    forall row | row in db.swaps
      ensures Asked(db, ToFilter(checksum, tokenId, r))(row) == Answering(db, checksum, tokenId, r)(row)
    {
      FilterIsRequest(checksum, tokenId, r, row);
    }
    FilterSame(Asked(db, ToFilter(checksum, tokenId, r)), Answering(db, checksum, tokenId, r), db.swaps);
  }

  /** A response, said of the request alone: only answering rows, in order, and a total that counts them all. */
  ghost predicate IsResponse(
    db: Db, checksum: SaltAddress.Address -> string, tokenId: string, r: Request, swaps: seq<Q.SwapRow>, total: nat)
  {
    && |swaps| <= r.limit && InOrder(r.ascending, swaps)
    && (forall row :: row in swaps ==> row in db.swaps && Answering(db, checksum, tokenId, r)(row))
    && (CountersTrue(db) && swaps != [] ==> total == |Filter(Answering(db, checksum, tokenId, r), db.swaps)|)
    && (swaps == [] ==> total == 0)
  }

  /** One response: the page, and a total that is only computed for a non-empty page. */
  method GetSwapsByToken(db: Db, checksum: SaltAddress.Address -> string, tokenId: string, r: Request)
    returns (swaps: seq<Q.SwapRow>, totalCount: nat)
    requires ValidPage(r.page, r.limit)
    ensures var f := ToFilter(checksum, tokenId, r);
      && swaps == Page(RunList(db, f, r.ascending), r.page, r.limit)
      && totalCount == if swaps == [] then 0 else Total(db, f)
    ensures Validated(checksum, r) ==> IsResponse(db, checksum, tokenId, r, swaps, totalCount)
  {
    var f := ToFilter(checksum, tokenId, r);
    var sql, binds := Q.BuildList(f);
    var keeps := (row: Q.SwapRow) => Q.Accepts(sql, binds, row) == Some(true) && row.accountId in db.accounts;
    FilterSame(keeps, ListKeeps(db, f), db.swaps);
    var rows := Joined(db, Filter(keeps, db.swaps));
    swaps := Page(Sort(OrderBy(r.ascending), rows), r.page, r.limit);
    if swaps == [] {
      totalCount := 0;
    } else {
      totalCount := GetTotalCount(db, f);
    }
    if Validated(checksum, r) {
      ResponseFits(db, checksum, tokenId, r);
    }
  }

  method GetTotalCount(db: Db, f: Q.Filter) returns (count: nat)
    ensures count == Total(db, f)
  {
    if f.ranges.None? && f.account.None? && f.tradeType == "ALL" {
      return CachedCount(db, f);
    }
    if f.ranges.None? && f.account.None? {
      return CachedCount(db, f);
    }
    var sql, binds := Q.BuildCount(f);
    var keeps := (row: Q.SwapRow) => Q.Accepts(sql, binds, row) == Some(true) && row.accountId in db.accounts;
    FilterSame(keeps, CountKeeps(db, f), db.swaps);
    count := |Filter(keeps, db.swaps)|;
  }

  // ----- List, count and counters agree -----

  lemma ListKeepsAsked(db: Db, f: Q.Filter)
    ensures Filter(ListKeeps(db, f), db.swaps) == Filter(Asked(db, f), db.swaps)
  {
    forall row | row in db.swaps ensures ListKeeps(db, f)(row) == Asked(db, f)(row) {
      Q.ListMeansFilter(f, row);
    }
    FilterSame(ListKeeps(db, f), Asked(db, f), db.swaps);
  }

  lemma CountKeepsAsked(db: Db, f: Q.Filter)
    ensures Filter(CountKeeps(db, f), db.swaps) == Filter(Asked(db, f), db.swaps)
  {
    forall row | row in db.swaps ensures CountKeeps(db, f)(row) == Asked(db, f)(row) {
      Q.CountMeansFilter(f, row);
    }
    FilterSame(CountKeeps(db, f), Asked(db, f), db.swaps);
  }

  /** The column that the fast path reads counts exactly the rows the request asks for. */
  lemma CachedCountIsTrue(db: Db, f: Q.Filter)
    requires CountersTrue(db) && HasFastPath(f)
    ensures CachedCount(db, f) == |Filter(Asked(db, f), db.swaps)|
  {
    var side := if f.tradeType == "BUY" then Some(true) else if f.tradeType == "SELL" then Some(false) else None;
    forall row | row in db.swaps ensures Asked(db, f)(row) == OfSide(db, f.tokenId, side)(row) {
      assert Q.RangesOf(f) == [];
    }
    FilterSame(Asked(db, f), OfSide(db, f.tokenId, side), db.swaps);
    if f.tokenId !in db.counts {
      NoRowsOnEitherSide(db, f.tokenId, side);
    }
  }

  lemma NoRowsOnEitherSide(db: Db, tokenId: string, isBuy: Option<bool>)
    requires RowsOfSide(db, tokenId, None) == 0
    ensures RowsOfSide(db, tokenId, isBuy) == 0
  {
    FilterMembers(OfSide(db, tokenId, None), db.swaps);
    FilterNone(OfSide(db, tokenId, isBuy), db.swaps);
  }

  lemma {:induction false} CopiesLength(row: Q.SwapRow, n: nat)
    ensures |Copies(row, n)| == n
  {
    if n == 0 {
    } else {
      CopiesLength(row, n - 1);
    }
  }

  lemma {:induction false} JoinedLength(db: Db, rows: seq<Q.SwapRow>, t: string)
    requires forall row :: row in rows ==> row.tokenId == t
    ensures |Joined(db, rows)| == Product(|rows|, MarketRows(db, t))
  {
    hide MarketRows, Product;
    var k := MarketRows(db, t);
    if rows == [] {
      ProductZero(k);
    } else {
      JoinedLength(db, rows[1..], t);
      CopiesLength(rows[0], k);
      ProductSucc(|rows| - 1, k);
    }
  }

  lemma ProductZero(k: nat)
    ensures Product(0, k) == 0
  {
  }

  lemma {:induction false} JoinedOnce(db: Db, rows: seq<Q.SwapRow>, t: string)
    requires MarketRows(db, t) == 1 && forall row :: row in rows ==> row.tokenId == t
    ensures Joined(db, rows) == rows
  {
    hide MarketRows;
    if rows == [] {
    } else {
      JoinedOnce(db, rows[1..], t);
      assert Copies(rows[0], 1) == [rows[0]];
      assert rows == [rows[0]] + rows[1..];
    }
  }

  lemma AskedOfToken(db: Db, f: Q.Filter)
    ensures forall row :: row in Filter(Asked(db, f), db.swaps) ==> row.tokenId == f.tokenId
  {
    FilterMembers(Asked(db, f), db.swaps);
  }

  lemma ListLength(db: Db, f: Q.Filter, ascending: bool)
    ensures |RunList(db, f, ascending)| == Product(|Filter(Asked(db, f), db.swaps)|, MarketRows(db, f.tokenId))
  {
    hide Sort, Filter, MarketRows;
    ListKeepsAsked(db, f);
    AskedOfToken(db, f);
    var rows := Joined(db, Filter(Asked(db, f), db.swaps));
    JoinedLength(db, Filter(Asked(db, f), db.swaps), f.tokenId);
    SameElements(Sort(OrderBy(ascending), rows), rows);
  }

  /** The total, on the fast path or by the count query, is the number of rows asked for. */
  lemma TotalIsAsked(db: Db, f: Q.Filter)
    requires CountersTrue(db)
    ensures Total(db, f) == |Filter(Asked(db, f), db.swaps)|
  {
    CountKeepsAsked(db, f);
    if HasFastPath(f) {
      CachedCountIsTrue(db, f);
    }
  }

  /** Whenever the list has a row, its token has a market row. */
  lemma NonEmptyListHasMarket(db: Db, f: Q.Filter, ascending: bool)
    requires RunList(db, f, ascending) != []
    ensures MarketRows(db, f.tokenId) > 0
  {
    hide Sort, Filter, RunList, MarketRows;
    ListLength(db, f, ascending);
    ProductSwap(|Filter(Asked(db, f), db.swaps)|, 0);
  }

  /** The total is the length of the whole list exactly if the token has one market row, or nothing is asked for. */
  lemma TotalMatchesIff(db: Db, f: Q.Filter, ascending: bool)
    requires CountersTrue(db)
    ensures |RunList(db, f, ascending)| == Total(db, f) <==> MarketRows(db, f.tokenId) == 1 || Total(db, f) == 0
  {
    hide RunList, Total, Filter, MarketRows;
    TotalIsAsked(db, f);
    ListLength(db, f, ascending);
    ProductSwap(Total(db, f), MarketRows(db, f.tokenId));
    ProductIsOne(MarketRows(db, f.tokenId), Total(db, f));
  }

  /** With one market row the list is the sorted rows asked for, and the total is its length on every path. */
  lemma TotalIsListLength(db: Db, f: Q.Filter, ascending: bool)
    requires CountersTrue(db) && MarketRows(db, f.tokenId) == 1
    ensures Total(db, f) == |RunList(db, f, ascending)|
    ensures RunList(db, f, ascending) == Sort(OrderBy(ascending), Filter(Asked(db, f), db.swaps))
    ensures multiset(RunList(db, f, ascending)) == multiset(Filter(Asked(db, f), db.swaps))
  {
    hide Sort, Filter, MarketRows, Total;
    TotalMatchesIff(db, f, ascending);
    ListKeepsAsked(db, f);
    AskedOfToken(db, f);
    JoinedOnce(db, Filter(Asked(db, f), db.swaps), f.tokenId);
  }

  lemma {:induction false} CopiesMembers(row: Q.SwapRow, n: nat)
    ensures forall x :: x in Copies(row, n) ==> x == row
  {
    if n == 0 {
    } else {
      CopiesMembers(row, n - 1);
    }
  }

  lemma {:induction false} JoinedMembers(db: Db, rows: seq<Q.SwapRow>)
    ensures forall x :: x in Joined(db, rows) ==> x in rows
  {
    hide MarketRows;
    if rows == [] {
    } else {
      CopiesMembers(rows[0], MarketRows(db, rows[0].tokenId));
      JoinedMembers(db, rows[1..]);
    }
  }

  lemma ListedRows(db: Db, checksum: SaltAddress.Address -> string, tokenId: string, r: Request)
    requires Validated(checksum, r)
    ensures var all := RunList(db, ToFilter(checksum, tokenId, r), r.ascending);
      && InOrder(r.ascending, all)
      && forall row :: row in all ==> row in db.swaps && Answering(db, checksum, tokenId, r)(row)
  {
    hide Sort, Answers, InOrder, Validated;
    var f := ToFilter(checksum, tokenId, r);
    var keep := Answering(db, checksum, tokenId, r);
    var rows := Filter(keep, db.swaps);
    ListKeepsAsked(db, f);
    AnsweringIsAsked(db, checksum, tokenId, r);
    OrderByIsPreorder(r.ascending);
    SortSorted(OrderBy(r.ascending), Joined(db, rows));
    InOrderIff(r.ascending, Sort(OrderBy(r.ascending), Joined(db, rows)));
    SameElements(Sort(OrderBy(r.ascending), Joined(db, rows)), Joined(db, rows));
    JoinedMembers(db, rows);
    FilterMembers(keep, db.swaps);
  }

  lemma ResponseFits(db: Db, checksum: SaltAddress.Address -> string, tokenId: string, r: Request)
    requires Validated(checksum, r) && ValidPage(r.page, r.limit)
    ensures var f := ToFilter(checksum, tokenId, r);
            var swaps := Page(RunList(db, f, r.ascending), r.page, r.limit);
            IsResponse(db, checksum, tokenId, r, swaps, if swaps == [] then 0 else Total(db, f))
  {
    hide RunList, Answering, Total, CountersTrue;
    var f := ToFilter(checksum, tokenId, r);
    ListedRows(db, checksum, tokenId, r);
    PageNonEmpty(RunList(db, f, r.ascending), r.page, r.limit);
    AnsweringIsAsked(db, checksum, tokenId, r);
    if CountersTrue(db) {
      TotalIsAsked(db, f);
    }
  }

  lemma NonEmptyPages<T>(all: seq<T>, limit: int, pages: nat)
    requires pages > 0 && ValidPage(pages, limit)
    requires (pages - 1) * limit < |all| <= pages * limit
    ensures forall p :: ValidPage(p, limit) ==> (Page(all, p, limit) != [] <==> p <= pages)
  {
    forall p | ValidPage(p, limit) ensures Page(all, p, limit) != [] <==> p <= pages {
      PageNonEmpty(all, p, limit);
      if p <= pages {
        MulMonotone(p - 1, pages - 1, limit);
      } else {
        MulMonotone(pages, p - 1, limit);
      }
    }
  }

  /**
   Main result. For a non-empty page of any validated request, with true counters and one market row of
   the token, the reported total is the number of rows asked for; pages 1 to ceil(total / limit) joined
   together are those rows, each exactly once and in order; and exactly those pages are non-empty.
   */
  lemma TotalCountsAllPages(
      db: Db, checksum: SaltAddress.Address -> string, tokenId: string, r: Request, pages: nat)
    requires Validated(checksum, r) && CountersTrue(db) && MarketRows(db, tokenId) == 1
    requires pages > 0 && ValidPage(pages, r.limit)
    requires var total := Total(db, ToFilter(checksum, tokenId, r)); (pages - 1) * r.limit < total <= pages * r.limit
    ensures var f := ToFilter(checksum, tokenId, r);
            var all := RunList(db, f, r.ascending);
      && Total(db, f) == |all|
      && Pages(all, r.limit, pages) == all
      && multiset(all) == multiset(Filter(Answering(db, checksum, tokenId, r), db.swaps))
      && InOrder(r.ascending, all)
      && (forall p :: ValidPage(p, r.limit) ==> (Page(all, p, r.limit) != [] <==> p <= pages))
  {
    hide Sort, Filter, MarketRows, Total, CountersTrue, RunList, Answering, InOrder;
    var f := ToFilter(checksum, tokenId, r);
    var all := RunList(db, f, r.ascending);
    TotalIsListLength(db, f, r.ascending);
    AnsweringIsAsked(db, checksum, tokenId, r);
    ListedRows(db, checksum, tokenId, r);
    AllPages(all, r.limit, pages);
    NonEmptyPages(all, r.limit, pages);
  }
}
