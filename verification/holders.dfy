/**
 The holder list of a token (src/controllers/trading/position.rs): wallet and LP holders in one
 list, each with the floored share of the pool behind its LP position, sorted and paged.
 Balances are integers and quotients are exact.
 */
module Holders {
  import opened Arithmetic
  import opened Text
  import opened StableSort
  import opened Paging

  /** A row of `pool`. */
  datatype Pool = Pool(token0: string, token1: string, reserve0: nat, reserve1: nat, supply: nat)

  /** A row of `market`. */
  datatype Market = Market(token: string, pool: string)

  /** The tables with their primary keys; `markets` may hold several rows of a token. */
  datatype Db = Db(
    balances: map<(string, string), nat>,        // (token, account)
    positions: map<(string, string), nat>,       // (pool, account)
    accounts: set<string>, markets: seq<Market>, pools: map<string, Pool>)

  datatype Row = Row(account: string, wallet: nat, lp: nat, total: nat)

  // ----- The queries -----

  predicate HoldsWallet(db: Db, t: string, a: string) { (t, a) in db.balances && db.balances[(t, a)] > 0 }

  predicate HoldsLp(db: Db, t: string, a: string) {
    exists m :: m in db.markets && m.token == t && (m.pool, a) in db.positions && db.positions[(m.pool, a)] > 0
  }

  predicate IsHolder(db: Db, t: string, a: string) { a in db.accounts && (HoldsWallet(db, t, a) || HoldsLp(db, t, a)) }

  /** COUNT(DISTINCT h.account_id) */
  function Count(db: Db, t: string): nat { |set a | a in db.accounts && IsHolder(db, t, a)| }

  /** `scan` lists the distinct holders in the order in which the plan happens to produce them. */
  ghost predicate Scans(db: Db, t: string, scan: seq<string>) {
    Distinct(scan) && forall a :: a in scan <==> IsHolder(db, t, a)
  }

  /** FLOOR(balance * reserve / NULLIF(supply, 0)), NULL counting as 0. */
  function Share(balance: nat, reserve: nat, supply: nat): nat {
    if supply == 0 then 0 else Floor(balance * reserve, supply)
  }

  /** The reserve on the token's side of its pool. */
  function ReserveOf(p: Pool, t: string): nat {
    if p.token0 == t then p.reserve0 else if p.token1 == t then p.reserve1 else 0
  }

  function PositionOf(db: Db, m: Market, a: string): nat {
    if (m.pool, a) in db.positions then db.positions[(m.pool, a)] else 0
  }

  function LpOf(db: Db, m: Market, a: string): nat {
    if m.pool in db.pools
    then Share(PositionOf(db, m, a), ReserveOf(db.pools[m.pool], m.token), db.pools[m.pool].supply)
    else 0
  }

  function RowOf(db: Db, m: Market, a: string): Row {
    var wallet := if (m.token, a) in db.balances then db.balances[(m.token, a)] else 0;
    Row(a, wallet, LpOf(db, m, a), wallet + LpOf(db, m, a))
  }

  function OfToken(t: string): Market -> bool { (m: Market) => m.token == t }

  function RowsFor(db: Db, m: Market, scan: seq<string>): seq<Row> {
    if scan == [] then [] else [RowOf(db, m, scan[0])] + RowsFor(db, m, scan[1..])
  }

  /** The join of the holders with the market rows. */
  function Joined(db: Db, ms: seq<Market>, scan: seq<string>): seq<Row> {
    if ms == [] then [] else RowsFor(db, ms[0], scan) + Joined(db, ms[1..], scan)
  }

  /** ORDER BY total_balance DESC, account_id ASC */
  predicate NotAfter(x: Row, y: Row) {
    x.total > y.total || (x.total == y.total && !Less(y.account, x.account))
  }

  function List(db: Db, t: string, scan: seq<string>): seq<Row> {
    Sort(NotAfter, Joined(db, Filter(OfToken(t), db.markets), scan))
  }

  datatype Response = Response(holders: seq<Row>, total: nat)

  /** `fetch_holders_by_token`: the count is only asked for when the page is not empty. */
  function Fetch(db: Db, t: string, scan: seq<string>, page: int, limit: int): Response
    requires ValidPage(page, limit)
  {
    var rows := Page(List(db, t, scan), page, limit);
    Response(rows, if rows == [] then 0 else Count(db, t))
  }

  // ----- The order -----

  lemma NotAfterIsOrder()
    ensures TotalPreorder(NotAfter)
  {
    forall x, y ensures NotAfter(x, y) || NotAfter(y, x) {
      LessTotal(x.account, y.account);
    }
    forall x, y, z | NotAfter(x, y) && NotAfter(y, z) ensures NotAfter(x, z) {
      NotAfterTransitive(x, y, z);
    }
  }

  lemma NotAfterTransitive(x: Row, y: Row, z: Row)
    requires NotAfter(x, y) && NotAfter(y, z)
    ensures NotAfter(x, z)
  {
    if x.total == y.total && y.total == z.total {
      LessTotal(x.account, y.account);
      LessTotal(y.account, z.account);
      LessTotal(x.account, z.account);
      if Less(x.account, y.account) && Less(y.account, z.account) {
        LessTransitive(x.account, y.account, z.account);
      }
    }
  }

  lemma TiedSameAccount(x: Row, y: Row)
    requires Tied(NotAfter, x, y)
    ensures x.account == y.account
  {
    LessTotal(x.account, y.account);
  }

  // ----- The list of a token with one market row -----

  lemma {:induction false} RowsIndexed(db: Db, m: Market, scan: seq<string>)
    ensures |RowsFor(db, m, scan)| == |scan|
    ensures forall i :: 0 <= i < |scan| ==> RowsFor(db, m, scan)[i] == RowOf(db, m, scan[i])
  {
    if scan == [] {
    } else {
      RowsIndexed(db, m, scan[1..]);
    }
  }

  lemma RowsDistinct(db: Db, m: Market, scan: seq<string>)
    requires Distinct(scan)
    ensures Distinct(RowsFor(db, m, scan))
  {
    hide LpOf;
    RowsIndexed(db, m, scan);
  }

  lemma OneMarket(db: Db, t: string, m: Market, scan: seq<string>)
    requires Filter(OfToken(t), db.markets) == [m]
    ensures m.token == t && Joined(db, Filter(OfToken(t), db.markets), scan) == RowsFor(db, m, scan)
  {
    FilterMembers(OfToken(t), db.markets);
    assert m in [m];
    assert RowsFor(db, m, scan) + [] == RowsFor(db, m, scan);
    assert [m][1..] == [];
  }

  lemma {:induction false} CountIsLength(db: Db, t: string, scan: seq<string>)
    requires Scans(db, t, scan)
    ensures Count(db, t) == |scan|
  {
    var ids := set a | a in db.accounts && IsHolder(db, t, a);
    assert forall a :: a in ids <==> a in scan;
    DistinctSize(scan, ids);
  }

  lemma {:induction false} DistinctSize(xs: seq<string>, s: set<string>)
    requires Distinct(xs) && forall x :: x in s <==> x in xs
    ensures |s| == |xs|
  {
    if xs == [] {
      assert s == {};
    } else {
      assert xs == [xs[0]] + xs[1..];
      DistinctSize(xs[1..], s - {xs[0]});
    }
  }

  /** The account has a positive wallet balance of the token, or a positive position in its pool. */
  predicate Holds(db: Db, t: string, pool: string, a: string) {
    && a in db.accounts
    && (((t, a) in db.balances && db.balances[(t, a)] > 0)
        || ((pool, a) in db.positions && db.positions[(pool, a)] > 0))
  }

  /**
   The wallet balance, and the floored share of the reserve on the token's side of its pool that the
   position's part of the supply stands for, with their sum.
   */
  predicate RowFits(db: Db, t: string, pool: string, r: Row) {
    && r.wallet == (if (t, r.account) in db.balances then db.balances[(t, r.account)] else 0)
    && r.total == r.wallet + r.lp
    && (if pool !in db.pools || db.pools[pool].supply == 0 then r.lp == 0
        else
          var Pool(token0, token1, reserve0, reserve1, supply) := db.pools[pool];
          var position := if (pool, r.account) in db.positions then db.positions[(pool, r.account)] else 0;
          var reserve := if t == token0 then reserve0 else if t == token1 then reserve1 else 0;
          r.lp * supply <= position * reserve < (r.lp + 1) * supply)
  }

  /** The larger total first; of equal totals the account whose text is smaller where they first differ. */
  ghost predicate Before(x: Row, y: Row) {
    x.total > y.total || (x.total == y.total && exists k :: DifferAt(x.account, y.account, k))
  }

  lemma RowOfFits(db: Db, m: Market, a: string)
    ensures RowFits(db, m.token, m.pool, RowOf(db, m, a)) && RowOf(db, m, a).account == a
  {
    hide Share, Floor;
    if m.pool in db.pools && db.pools[m.pool].supply > 0 {
      ShareBounds(PositionOf(db, m, a), ReserveOf(db.pools[m.pool], m.token), db.pools[m.pool].supply);
    } else if m.pool in db.pools {
      NoShare(PositionOf(db, m, a), ReserveOf(db.pools[m.pool], m.token));
    }
  }

  lemma NoShare(balance: nat, reserve: nat)
    ensures Share(balance, reserve, 0) == 0
  {
  }

  lemma HolderIff(db: Db, m: Market, a: string)
    requires Filter(OfToken(m.token), db.markets) == [m]
    ensures IsHolder(db, m.token, a) <==> Holds(db, m.token, m.pool, a)
  {
    FilterMembers(OfToken(m.token), db.markets);
    assert m in [m];
    assert forall m' :: m' in db.markets && OfToken(m.token)(m') ==> m' in [m];
  }

  lemma {:induction false} ListFacts(db: Db, t: string, m: Market, scan: seq<string>)
    requires Filter(OfToken(t), db.markets) == [m] && Scans(db, t, scan)
    ensures var list := List(db, t, scan);
      && m.token == t && Sorted(NotAfter, list) && Distinct(list) && |list| == Count(db, t)
      && (forall a :: IsHolder(db, t, a) <==> RowOf(db, m, a) in list)
      && (forall r :: r in list ==> r == RowOf(db, m, r.account) && IsHolder(db, t, r.account))
  {
    hide Sort, NotAfter, LpOf, Filter, IsHolder, Count, Joined;
    var rows := RowsFor(db, m, scan);
    OneMarket(db, t, m, scan);
    NotAfterIsOrder();
    SortSorted(NotAfter, rows);
    RowsIndexed(db, m, scan);
    RowsDistinct(db, m, scan);
    SortDistinct(NotAfter, rows);
    CountIsLength(db, t, scan);
    forall a ensures a in scan <==> RowOf(db, m, a) in rows {
      RowInRows(db, m, scan, a);
    }
    forall r | r in rows ensures r == RowOf(db, m, r.account) && r.account in scan {
      var i :| 0 <= i < |rows| && rows[i] == r;
    }
  }

  lemma SortedIsBefore(x: Row, y: Row)
    requires NotAfter(x, y) && x.account != y.account
    ensures Before(x, y)
  {
    LessTotal(x.account, y.account);
    LessIff(x.account, y.account);
  }

  /**
   Main result. For a token with one market row the list is sorted by (total desc, account asc), names
   every wallet or LP holder exactly once with its balances, has the length the count query reports, and
   pages of any size concatenate to it.
   */
  lemma HoldersArePaged(db: Db, t: string, m: Market, scan: seq<string>, limit: int, pages: nat)
    requires Filter(OfToken(t), db.markets) == [m] && Scans(db, t, scan)
    requires limit >= 1 && (pages > 0 ==> ValidPage(pages, limit))
    ensures var list := List(db, t, scan);
      && (forall i, j :: 0 <= i < j < |list| ==> list[i].account != list[j].account && Before(list[i], list[j]))
      && (forall r :: r in list ==> RowFits(db, t, m.pool, r) && Holds(db, t, m.pool, r.account))
      && (forall a :: Holds(db, t, m.pool, a) ==> exists r :: r in list && r.account == a)
      && |list| == Count(db, t) && (Count(db, t) <= Product(pages, limit) ==> Pages(list, limit, pages) == list)
  {
    hide Sort, NotAfter, Filter, IsHolder, Holds, Count, Joined, RowFits, RowOf, Before;
    ListFacts(db, t, m, scan);
    var list := List(db, t, scan);
    forall i, j | 0 <= i < j < |list| ensures list[i].account != list[j].account && Before(list[i], list[j]) {
      assert list[i] in list && list[j] in list;
      assert list[i] != list[j];
      SortedIsBefore(list[i], list[j]);
    }
    forall r | r in list ensures RowFits(db, t, m.pool, r) && Holds(db, t, m.pool, r.account) {
      RowOfFits(db, m, r.account);
      HolderIff(db, m, r.account);
    }
    forall a | Holds(db, t, m.pool, a) ensures exists r :: r in list && r.account == a {
      HolderIff(db, m, a);
      RowOfFits(db, m, a);
      assert RowOf(db, m, a) in list;
    }
    if Count(db, t) <= Product(pages, limit) {
      AllPages(list, limit, pages);
    }
  }

  lemma RowInRows(db: Db, m: Market, scan: seq<string>, a: string)
    ensures a in scan <==> RowOf(db, m, a) in RowsFor(db, m, scan)
  {
    hide LpOf;
    RowsIndexed(db, m, scan);
    if a in scan {
      var i :| 0 <= i < |scan| && scan[i] == a;
      assert RowsFor(db, m, scan)[i] == RowOf(db, m, a);
    }
    if RowOf(db, m, a) in RowsFor(db, m, scan) {
      var i :| 0 <= i < |scan| && RowsFor(db, m, scan)[i] == RowOf(db, m, a);
      assert scan[i] == a;
    }
  }

  /** The list, and so every page, does not depend on the order in which the plan finds the holders. */
  lemma ListIsDeterministic(db: Db, t: string, m: Market, scan: seq<string>, other: seq<string>)
    requires Filter(OfToken(t), db.markets) == [m] && Scans(db, t, scan) && Scans(db, t, other)
    ensures List(db, t, scan) == List(db, t, other)
  {
    hide Sort, NotAfter, LpOf, Filter, IsHolder, Count, List;
    ListFacts(db, t, m, scan);
    ListFacts(db, t, m, other);
    var a, b := List(db, t, scan), List(db, t, other);
    forall x, y | x in a && y in a && Tied(NotAfter, x, y) ensures x == y {
      TiedSameAccount(x, y);
    }
    forall x ensures x in a <==> x in b {
      assert x in a ==> x == RowOf(db, m, x.account) && IsHolder(db, t, x.account);
      assert x in b ==> x == RowOf(db, m, x.account) && IsHolder(db, t, x.account);
    }
    StrictUnique(NotAfter, a, b);
  }

  lemma {:induction false} JoinedLength(db: Db, ms: seq<Market>, scan: seq<string>)
    ensures |Joined(db, ms, scan)| == Product(|ms|, |scan|)
  {
    if ms == [] {
    } else {
      JoinedLength(db, ms[1..], scan);
      RowsIndexed(db, ms[0], scan);
      ProductSucc(|ms| - 1, |scan|);
    }
  }

  /** The count query agrees with the list exactly when the token has one market row, or no holder. */
  lemma CountMatchesIff(db: Db, t: string, scan: seq<string>)
    requires Scans(db, t, scan)
    ensures |List(db, t, scan)| == Count(db, t) <==> |Filter(OfToken(t), db.markets)| == 1 || Count(db, t) == 0
  {
    hide Sort, IsHolder, Filter, Count, Joined;
    var ms := Filter(OfToken(t), db.markets);
    CountIsLength(db, t, scan);
    JoinedLength(db, ms, scan);
    SameElements(List(db, t, scan), Joined(db, ms, scan));
    ProductIsOne(|ms|, |scan|);
  }

  /** A non-empty page reports the length of the whole list; an empty one reports 0. */
  lemma TotalIsListLength(db: Db, t: string, m: Market, scan: seq<string>, page: int, limit: int)
    requires ValidPage(page, limit) && Filter(OfToken(t), db.markets) == [m] && Scans(db, t, scan)
    ensures var r := Fetch(db, t, scan, page, limit);
            r.total == if Offset(page, limit) < |List(db, t, scan)| then |List(db, t, scan)| else 0
  {
    hide List, Count, Filter, IsHolder;
    ListFacts(db, t, m, scan);
    PageNonEmpty(List(db, t, scan), page, limit);
  }

  // ----- Conservation of LP shares -----

  function LpSum(rows: seq<Row>): nat { if rows == [] then 0 else rows[0].lp + LpSum(rows[1..]) }

  function PositionSum(db: Db, m: Market, scan: seq<string>): nat {
    if scan == [] then 0 else PositionOf(db, m, scan[0]) + PositionSum(db, m, scan[1..])
  }

  function LpHolders(db: Db, m: Market, scan: seq<string>): nat {
    if scan == [] then 0
    else (if PositionOf(db, m, scan[0]) > 0 then 1 else 0) + LpHolders(db, m, scan[1..])
  }

  lemma ShareBounds(balance: nat, reserve: nat, supply: nat)
    requires supply > 0
    ensures var q := Share(balance, reserve, supply);
            q * supply <= balance * reserve < (q + 1) * supply && (balance == 0 ==> q == 0)
  {
    FloorBounds(balance * reserve, supply);
  }

  /** Sum of shares against sum of positions, scaled by the supply. */
  lemma {:induction false} SharesBracketed(db: Db, m: Market, scan: seq<string>, reserve: nat, supply: nat)
    requires m.pool in db.pools && supply > 0
    requires reserve == ReserveOf(db.pools[m.pool], m.token) && supply == db.pools[m.pool].supply
    ensures var lp, n := LpSum(RowsFor(db, m, scan)), LpHolders(db, m, scan);
      && lp * supply <= PositionSum(db, m, scan) * reserve
      && PositionSum(db, m, scan) * reserve <= (lp + n) * supply
      && (n > 0 ==> PositionSum(db, m, scan) * reserve < (lp + n) * supply)
  {
    if scan == [] {
    } else {
      var rest, p := scan[1..], PositionOf(db, m, scan[0]);
      SharesBracketed(db, m, rest, reserve, supply);
      ShareBounds(p, reserve, supply);
      var lp, n := LpSum(RowsFor(db, m, rest)), LpHolders(db, m, rest);
      var q := Share(p, reserve, supply);
      assert RowsFor(db, m, scan)[1..] == RowsFor(db, m, rest);
      AddBracket(q, p, lp, n, PositionSum(db, m, rest), reserve, supply);
    }
  }

  lemma AddBracket(q: nat, p: nat, lp: nat, n: nat, sum: nat, reserve: nat, supply: nat)
    requires q * supply <= p * reserve < (q + 1) * supply && (p == 0 ==> q == 0)
    requires lp * supply <= sum * reserve <= (lp + n) * supply && (n > 0 ==> sum * reserve < (lp + n) * supply)
    ensures var k := if p > 0 then n + 1 else n;
      && (q + lp) * supply <= (p + sum) * reserve <= (q + lp + k) * supply
      && (k > 0 ==> (p + sum) * reserve < (q + lp + k) * supply)
  {
    Distribute(q, lp, supply);
    Distribute(p, sum, reserve);
    Distribute(q, 0, supply);
    Distribute(q + 1, lp + n, supply);
  }

  lemma {:induction false} LpSumInsert(x: Row, rows: seq<Row>)
    ensures LpSum(Insert(NotAfter, x, rows)) == x.lp + LpSum(rows)
  {
    hide NotAfter;
    if rows != [] && !NotAfter(x, rows[0]) {
      LpSumInsert(x, rows[1..]);
      assert ([rows[0]] + Insert(NotAfter, x, rows[1..]))[1..] == Insert(NotAfter, x, rows[1..]);
    } else {
      assert ([x] + rows)[1..] == rows;
    }
  }

  lemma {:induction false} LpSumSort(rows: seq<Row>)
    ensures LpSum(Sort(NotAfter, rows)) == LpSum(rows)
  {
    if rows == [] {
    } else {
      LpSumSort(rows[1..]);
      LpSumInsert(rows[0], Sort(NotAfter, rows[1..]));
    }
  }

  lemma SharesConserved(db: Db, m: Market, scan: seq<string>, lp: nat, reserve: nat)
    requires m.pool in db.pools && db.pools[m.pool].supply > 0
    requires reserve == ReserveOf(db.pools[m.pool], m.token) && lp == LpSum(RowsFor(db, m, scan))
    ensures var supply := db.pools[m.pool].supply;
      && (PositionSum(db, m, scan) <= supply ==> lp <= reserve)
      && (PositionSum(db, m, scan) == supply ==> reserve - lp < LpHolders(db, m, scan))
  {
    hide LpSum, ReserveOf, RowsFor;
    var supply, n, sum := db.pools[m.pool].supply, LpHolders(db, m, scan), PositionSum(db, m, scan);
    SharesBracketed(db, m, scan, reserve, supply);
    if sum <= supply {
      MulMonotone(sum, supply, reserve);
      CancelScale(lp, reserve, supply);
    }
    if sum == supply {
      SomeLpHolder(db, m, scan);
      CancelScale(reserve, lp + n, supply);
    }
  }

  /**
   Main result. The LP shares of a listed pool never add up to more than its reserve while the
   holders' positions do not exceed the supply; when they make up the whole supply, flooring loses
   less than one unit for each LP holder.
   */
  lemma LpSharesConserved(db: Db, t: string, m: Market, scan: seq<string>)
    requires Filter(OfToken(t), db.markets) == [m] && m.pool in db.pools && db.pools[m.pool].supply > 0
    ensures var pool, lp := db.pools[m.pool], LpSum(List(db, t, scan));
            var reserve := if t == pool.token0 then pool.reserve0 else if t == pool.token1 then pool.reserve1 else 0;
      && (PositionSum(db, m, scan) <= pool.supply ==> lp <= reserve)
      && (PositionSum(db, m, scan) == pool.supply ==> reserve - lp < LpHolders(db, m, scan))
  {
    hide LpSum, Sort, NotAfter, Filter, ReserveOf, RowsFor, Joined, PositionSum, LpHolders;
    OneMarket(db, t, m, scan);
    LpSumSort(RowsFor(db, m, scan));
    SideReserve(db.pools[m.pool], t);
    SharesConserved(db, m, scan, LpSum(RowsFor(db, m, scan)), ReserveOf(db.pools[m.pool], t));
  }

  lemma SideReserve(p: Pool, t: string)
    ensures ReserveOf(p, t) == if t == p.token0 then p.reserve0 else if t == p.token1 then p.reserve1 else 0
  {
  }

  lemma {:induction false} SomeLpHolder(db: Db, m: Market, scan: seq<string>)
    ensures PositionSum(db, m, scan) > 0 ==> LpHolders(db, m, scan) > 0
  {
    if scan == [] {
    } else {
      SomeLpHolder(db, m, scan[1..]);
    }
  }
}
